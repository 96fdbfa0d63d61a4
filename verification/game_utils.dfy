/** The input checks a peer runs before it touches the store. */
module GameUtils {
  import opened Dimensions

  /**
   * Java's `Character.isWhitespace`: the Unicode space, line and paragraph
   * separators except the non-breaking spaces U+00A0, U+2007 and U+202F,
   * and the controls U+0009..U+000D and U+001C..U+001F.
   */
  predicate IsWhitespace(c: char) {
    || c == ' '
    || '\t' <= c <= '\r'
    || '\U{001C}' <= c <= '\U{001F}'
    || c == '\U{1680}'
    || '\U{2000}' <= c <= '\U{2006}'
    || '\U{2008}' <= c <= '\U{200A}'
    || c == '\U{2028}' || c == '\U{2029}' || c == '\U{205F}' || c == '\U{3000}'
  }

  /** The string holds at least one character that is not whitespace. */
  ghost predicate HasVisible(s: string) {
    exists i :: 0 <= i < |s| && !IsWhitespace(s[i])
  }

  /**
   * `StringUtils.isNotBlank` of commons-lang3: scans the characters and is
   * true at the first one that is not whitespace; the empty string is blank.
   */
  predicate IsNotBlank(s: string) {
    if |s| == 0 then false else !IsWhitespace(s[0]) || IsNotBlank(s[1..])
  }

  /** The scan finds a visible character exactly when there is one. */
  lemma {:induction false} IsNotBlankIffVisible(s: string)
    ensures IsNotBlank(s) <==> HasVisible(s)
  {
    if |s| > 0 {
      IsNotBlankIffVisible(s[1..]);
      if HasVisible(s[1..]) {
        var i :| 0 <= i < |s[1..]| && !IsWhitespace(s[1..][i]);
        assert s[i + 1] == s[1..][i];
      }
      if HasVisible(s) && IsWhitespace(s[0]) {
        var i :| 0 <= i < |s| && !IsWhitespace(s[i]);
        assert s[1..][i - 1] == s[i];
      }
    }
  }

  /**
   * The check before a placement: row, column and number lie in 1..9 and
   * the peer has joined the game.
   */
  function IsGameValid(gameName: string, row: int, column: int, number: int, gamesNames: seq<string>): (r: bool)
    ensures r <==> InRange(row) && InRange(column) && InRange(number) && gameName in gamesNames
  {
    if row < FIRST || row > TOTAL_BLOCK_NUMBER then false
    else if column < FIRST || column > TOTAL_BLOCK_NUMBER then false
    else if number < FIRST || number > TOTAL_BLOCK_NUMBER then false
    else gameName in gamesNames
  }

  /**
   * The check before a join: the game name and the nickname both hold a
   * visible character and the game is not joined yet.
   */
  function IsGameValidToJoin(gameName: string, nickname: string, gamesNames: seq<string>): (r: bool)
    ensures r <==> HasVisible(gameName) && HasVisible(nickname) && gameName !in gamesNames
    ensures r ==> gameName != "" && nickname != ""
  {
    IsNotBlankIffVisible(gameName);
    IsNotBlankIffVisible(nickname);
    IsNotBlank(gameName) && IsNotBlank(nickname) && gameName !in gamesNames
  }

  /** A game name is valid exactly when it holds a visible character; the empty name is not. */
  function IsGameNameValid(gameName: string): (r: bool)
    ensures r <==> HasVisible(gameName)
    ensures gameName == "" ==> !r
  {
    IsNotBlankIffVisible(gameName);
    IsNotBlank(gameName)
  }
}
