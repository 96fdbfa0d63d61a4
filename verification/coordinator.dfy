/**
 * What a peer does to the shared store and to its own list of joined
 * games, as functions of the store before and the peer's session before.
 * The store maps a key to a value; a game named `n` keeps its grid under
 * `n`, its players under `n + "_players"`, its nicknames under
 * `n + "_nicknames"` and its scores under `n + "_scores"`. Operations run
 * one after another. A read that finds no value, or a value of another
 * kind than the one expected, makes the step that read it fail.
 */
module Coordinator {
  import opened Wrappers
  import opened Dimensions
  import opened Grids
  import opened Sudokus
  import opened Scores
  import opened SudokuUtils
  import opened GameUtils
  import opened Texts

  /** A peer's address on the network. */
  type Address = int

  /** What the store holds under a key. */
  datatype Value =
    | GridValue(cells: Matrix)
    | PlayersValue(players: set<Address>)
    | NicknamesValue(nicknames: seq<string>)
    | ScoresValue(scores: seq<int>)

  /** The shared store. */
  type Entries = map<string, Value>

  /** A peer's three index-aligned lists: grid, name and nickname of every joined game. */
  datatype Session = Session(games: seq<Matrix>, names: seq<string>, nicknames: seq<string>)

  /** A message handed to the network for every player of a game. */
  datatype Notification = Notification(recipients: set<Address>, message: string)

  predicate Aligned(l: Session) {
    |l.games| == |l.names| == |l.nicknames|
  }

  /** Java `int` addition: the sum wrapped into [-2^31, 2^31). */
  function AddInt32(a: int, b: int): (r: int)
    ensures -0x8000_0000 <= r < 0x8000_0000
    ensures -0x8000_0000 <= a + b < 0x8000_0000 ==> r == a + b
    ensures a + b >= 0x8000_0000 && a + b < 0x1_8000_0000 ==> r == a + b - 0x1_0000_0000
    ensures -0x1_8000_0000 <= a + b < -0x8000_0000 ==> r == a + b + 0x1_0000_0000
  {
    (a + b + 0x8000_0000) % 0x1_0000_0000 - 0x8000_0000
  }

  /** `List.indexOf`: the first index holding `x`, or -1. */
  function IndexOf<T(==)>(xs: seq<T>, x: T): (i: int)
    ensures -1 <= i < |xs|
    ensures i == -1 <==> x !in xs
    ensures 0 <= i ==> xs[i] == x && x !in xs[..i]
    decreases |xs|
  {
    if |xs| == 0 then -1
    else if xs[0] == x then 0
    else
      var k := IndexOf(xs[1..], x);
      assert k >= 0 ==> xs[1..][..k] == xs[1..k + 1];
      if k == -1 then -1 else k + 1
  }

  /** `List.remove(int)`: the list without the element at `i`. */
  function RemoveAt<T>(xs: seq<T>, i: int): (r: seq<T>)
    requires 0 <= i < |xs|
    ensures |r| == |xs| - 1
    ensures forall k :: 0 <= k < i ==> r[k] == xs[k]
    ensures forall k :: i <= k < |r| ==> r[k] == xs[k + 1]
  {
    xs[..i] + xs[i + 1..]
  }

  /** Removing at an index takes exactly one occurrence of the element there out of the list. */
  lemma RemoveAtMultiset<T>(xs: seq<T>, i: int)
    requires 0 <= i < |xs|
    ensures multiset(RemoveAt(xs, i)) + multiset{xs[i]} == multiset(xs)
  {
    assert xs == xs[..i] + [xs[i]] + xs[i + 1..];
  }

  /** The grid stored under `key`, read as a grid. */
  function GridOf(s: Entries, key: string): (r: Option<Matrix>)
    ensures r.Some? <==> key in s && s[key].GridValue?
    ensures r.Some? ==> s[key] == GridValue(r.value)
  {
    if key in s && s[key].GridValue? then Some(s[key].cells) else None
  }

  /** The players stored under `key`, read as a set of addresses. */
  function PlayersOf(s: Entries, key: string): (r: Option<set<Address>>)
    ensures r.Some? <==> key in s && s[key].PlayersValue?
    ensures r.Some? ==> s[key] == PlayersValue(r.value)
  {
    if key in s && s[key].PlayersValue? then Some(s[key].players) else None
  }

  /** The nicknames stored under `key`, read as a list. */
  function NicknamesOf(s: Entries, key: string): (r: Option<seq<string>>)
    ensures r.Some? <==> key in s && s[key].NicknamesValue?
    ensures r.Some? ==> s[key] == NicknamesValue(r.value)
  {
    if key in s && s[key].NicknamesValue? then Some(s[key].nicknames) else None
  }

  /** The scores stored under `key`, read as a list. */
  function ScoresOf(s: Entries, key: string): (r: Option<seq<int>>)
    ensures r.Some? <==> key in s && s[key].ScoresValue?
    ensures r.Some? ==> s[key] == ScoresValue(r.value)
  {
    if key in s && s[key].ScoresValue? then Some(s[key].scores) else None
  }

  /** Every key outside `keys` is bound in `s'` exactly as in `s`. */
  ghost predicate SameElsewhere(s: Entries, s': Entries, keys: set<string>) {
    forall k :: k !in keys ==> (k in s <==> k in s') && (k in s ==> s'[k] == s[k])
  }

  /** The value under `key` is kept when there is one, otherwise `initial` is stored. */
  function PutIfAbsent(s: Entries, key: string, initial: Value): (s': Entries)
    ensures key in s' && s'[key] == (if key in s then s[key] else initial)
    ensures SameElsewhere(s, s', {key})
  {
    if key in s then s else s[key := initial]
  }

  // ---------------------------------------------------------------
  // generateNewSudoku
  // ---------------------------------------------------------------

  /**
   * `generateNewSudoku(name)` once the new game's numbers are `cells`:
   * nothing is written and nothing returned when the name is blank or the
   * key is taken; otherwise the grid is stored and the players, nicknames
   * and scores are created empty where they are absent.
   */
  function GenerateNewSudoku(s: Entries, name: string, cells: Matrix): (r: (Option<Matrix>, Entries))
    ensures r.0.Some? ==> r.0.value == cells
  {
    if !IsGameNameValid(name) then (None, s)
    else if name in s then (None, s)
    else
      var s1 := s[name := GridValue(cells)];
      var s2 := PutIfAbsent(s1, WithPlayers(name), PlayersValue({}));
      var s3 := PutIfAbsent(s2, WithNicknames(name), NicknamesValue([]));
      (Some(cells), PutIfAbsent(s3, WithScores(name), ScoresValue([])))
  }

  /** A blank name, or a name under which something is stored already, gives nothing and writes nothing. */
  lemma GenerateNewSudokuRejects(s: Entries, name: string, cells: Matrix)
    ensures GenerateNewSudoku(s, name, cells).0.None? <==> !IsGameNameValid(name) || name in s
    ensures GenerateNewSudoku(s, name, cells).0.None? ==> GenerateNewSudoku(s, name, cells).1 == s
  {
  }

  /**
   * A generation that returns the numbers has stored them under the name,
   * has created the players, nicknames and scores empty where they were
   * absent and kept them where they were present, and has changed no other key.
   */
  lemma GenerateNewSudokuStores(s: Entries, name: string, cells: Matrix)
    requires GenerateNewSudoku(s, name, cells).0.Some?
    ensures
      var s' := GenerateNewSudoku(s, name, cells).1;
      && GridOf(s', name) == Some(cells)
      && WithPlayers(name) in s' && WithNicknames(name) in s' && WithScores(name) in s'
      && s'[WithPlayers(name)] == (if WithPlayers(name) in s then s[WithPlayers(name)] else PlayersValue({}))
      && s'[WithNicknames(name)] == (if WithNicknames(name) in s then s[WithNicknames(name)] else NicknamesValue([]))
      && s'[WithScores(name)] == (if WithScores(name) in s then s[WithScores(name)] else ScoresValue([]))
      && SameElsewhere(s, s', {name, WithPlayers(name), WithNicknames(name), WithScores(name)})
  {
    KeysDistinct(name);
    KeysOfDifferentKinds(name, name);
  }

  // ---------------------------------------------------------------
  // join
  // ---------------------------------------------------------------

  /** `addNickname`: appends the nickname to the game's list unless the list is missing or already holds it. */
  function AddNickname(s: Entries, name: string, nickname: string): (r: Option<Entries>)
    ensures r.Some? <==> NicknamesOf(s, WithNicknames(name)).Some? && nickname !in NicknamesOf(s, WithNicknames(name)).value
    ensures r.Some? ==> r.value == s[WithNicknames(name) := NicknamesValue(NicknamesOf(s, WithNicknames(name)).value + [nickname])]
  {
    match NicknamesOf(s, WithNicknames(name))
    case None => None
    case Some(nicknames) =>
      if nickname in nicknames then None
      else Some(s[WithNicknames(name) := NicknamesValue(nicknames + [nickname])])
  }

  /** `addSudoku`: records the game in the session when its grid is stored. */
  function AddSudoku(s: Entries, l: Session, name: string, nickname: string): (r: Option<Session>)
    ensures r.Some? <==> GridOf(s, name).Some?
    ensures r.Some? ==> r.value == Session(l.games + [GridOf(s, name).value], l.names + [name], l.nicknames + [nickname])
  {
    match GridOf(s, name)
    case None => None
    case Some(cells) => Some(Session(l.games + [cells], l.names + [name], l.nicknames + [nickname]))
  }

  /** `addPlayer`: adds the peer's address to the game's players when they are stored. */
  function AddPlayer(s: Entries, name: string, self: Address): (r: Option<Entries>)
    ensures r.Some? <==> PlayersOf(s, WithPlayers(name)).Some?
    ensures r.Some? ==> r.value == s[WithPlayers(name) := PlayersValue(PlayersOf(s, WithPlayers(name)).value + {self})]
  {
    match PlayersOf(s, WithPlayers(name))
    case None => None
    case Some(players) => Some(s[WithPlayers(name) := PlayersValue(players + {self})])
  }

  /** `addScore`: appends the starting score to the game's scores when they are stored. */
  function AddScore(s: Entries, name: string): (r: Option<Entries>)
    ensures r.Some? <==> ScoresOf(s, WithScores(name)).Some?
    ensures r.Some? ==> r.value == s[WithScores(name) := ScoresValue(ScoresOf(s, WithScores(name)).value + [STARTING_SCORE])]
  {
    match ScoresOf(s, WithScores(name))
    case None => None
    case Some(scores) => Some(s[WithScores(name) := ScoresValue(scores + [STARTING_SCORE])])
  }

  /**
   * `join(name, nickname)` by the peer at `self`: the nickname is added,
   * then the game is recorded in the session, then the peer is added to
   * the players, then a starting score is appended; the first step that
   * fails ends the join with `false` and keeps what the earlier steps did.
   */
  function Join(s: Entries, l: Session, self: Address, name: string, nickname: string): (r: (bool, Entries, Session))
    ensures !IsGameValidToJoin(name, nickname, l.names) ==> r == (false, s, l)
    ensures r.0 ==> r.2.names == l.names + [name] && r.2.nicknames == l.nicknames + [nickname]
  {
    if !IsGameValidToJoin(name, nickname, l.names) then (false, s, l)
    else match AddNickname(s, name, nickname)
      case None => (false, s, l)
      case Some(s1) =>
        match AddSudoku(s1, l, name, nickname)
        case None => (false, s1, l)
        case Some(l1) =>
          match AddPlayer(s1, name, self)
          case None => (false, s1, l1)
          case Some(s2) =>
            match AddScore(s2, name)
            case None => (false, s2, l1)
            case Some(s3) => (true, s3, l1)
  }

  /**
   * A join writes nothing when the names are blank, the game is joined
   * already, the nickname list is missing or the nickname is taken.
   */
  lemma JoinRejects(s: Entries, l: Session, self: Address, name: string, nickname: string)
    requires
      || !HasVisible(name) || !HasVisible(nickname) || name in l.names
      || NicknamesOf(s, WithNicknames(name)).None?
      || nickname in NicknamesOf(s, WithNicknames(name)).value
    ensures Join(s, l, self, name, nickname) == (false, s, l)
  {
  }

  /**
   * A successful join appends the nickname to the shared nicknames, a
   * starting score to the shared scores, adds the peer to the players and
   * appends the game to the session; nothing else changes.
   */
  lemma JoinSucceeds(s: Entries, l: Session, self: Address, name: string, nickname: string)
    requires Join(s, l, self, name, nickname).0
    ensures
      var (_, s', l') := Join(s, l, self, name, nickname);
      && NicknamesOf(s, WithNicknames(name)).Some? && ScoresOf(s, WithScores(name)).Some?
      && PlayersOf(s, WithPlayers(name)).Some? && GridOf(s, name).Some?
      && NicknamesOf(s', WithNicknames(name)) == Some(NicknamesOf(s, WithNicknames(name)).value + [nickname])
      && ScoresOf(s', WithScores(name)) == Some(ScoresOf(s, WithScores(name)).value + [STARTING_SCORE])
      && PlayersOf(s', WithPlayers(name)) == Some(PlayersOf(s, WithPlayers(name)).value + {self})
      && l' == Session(l.games + [GridOf(s, name).value], l.names + [name], l.nicknames + [nickname])
      && SameElsewhere(s, s', {WithNicknames(name), WithPlayers(name), WithScores(name)})
  {
    KeysDistinct(name);
    KeysOfDifferentKinds(name, name);
  }

  /**
   * A join returns `true` exactly when the names pass the join check, the
   * nicknames are stored without this nickname, and the grid, the players
   * and the scores are stored.
   */
  lemma JoinSucceedsIff(s: Entries, l: Session, self: Address, name: string, nickname: string)
    ensures Join(s, l, self, name, nickname).0 <==>
      && IsGameValidToJoin(name, nickname, l.names)
      && NicknamesOf(s, WithNicknames(name)).Some? && nickname !in NicknamesOf(s, WithNicknames(name)).value
      && GridOf(s, name).Some? && PlayersOf(s, WithPlayers(name)).Some? && ScoresOf(s, WithScores(name)).Some?
  {
    KeysDistinct(name);
    KeysOfDifferentKinds(name, name);
  }

  /**
   * A game just generated under a fresh name can be joined: its grid is
   * stored and its players, nicknames and scores are created empty.
   */
  lemma GenerateThenJoin(s: Entries, l: Session, self: Address, name: string, nickname: string, cells: Matrix)
    requires GenerateNewSudoku(s, name, cells).0.Some?
    requires WithPlayers(name) !in s && WithNicknames(name) !in s && WithScores(name) !in s
    requires name !in l.names && HasVisible(nickname)
    ensures Join(GenerateNewSudoku(s, name, cells).1, l, self, name, nickname).0
  {
    GenerateNewSudokuRejects(s, name, cells);
    GenerateNewSudokuStores(s, name, cells);
    JoinSucceedsIff(GenerateNewSudoku(s, name, cells).1, l, self, name, nickname);
  }

  /**
   * The session grows by the joined game exactly when the grid was found,
   * even if adding the peer or its score fails afterwards; the three lists
   * stay aligned either way.
   */
  lemma JoinSession(s: Entries, l: Session, self: Address, name: string, nickname: string)
    requires Aligned(l)
    ensures
      var (ok, s', l') := Join(s, l, self, name, nickname);
      && Aligned(l')
      && (l' == l || l' == Session(l.games + [GridOf(s, name).value], l.names + [name], l.nicknames + [nickname]))
      && (l' != l <==>
            IsGameValidToJoin(name, nickname, l.names) && AddNickname(s, name, nickname).Some? && GridOf(s, name).Some?)
      && (ok ==> l' != l)
  {
    KeysDistinct(name);
  }

  /**
   * Game `g` has a grid and a nickname list but no players entry: the join
   * fails when adding the player, yet `g` is already in the session.
   */
  lemma JoinRecordsGameBeforeFailing()
    ensures
      var cells: Matrix := [];
      var s: Entries := map["g" := GridValue(cells), WithNicknames("g") := NicknamesValue([])];
      var (ok, _, l') := Join(s, Session([], [], []), 1, "g", "bob");
      !ok && l'.names == ["g"] && l'.nicknames == ["bob"]
  {
    var cells: Matrix := [];
    var nk := WithNicknames("g");
    var s: Entries := map["g" := GridValue(cells), nk := NicknamesValue([])];
    KeysDistinct("g");
    assert IsGameValidToJoin("g", "bob", []) by {
      assert !IsWhitespace("g"[0]) && !IsWhitespace("bob"[0]);
    }
    var s1 := s[nk := NicknamesValue([] + ["bob"])];
    assert AddNickname(s, "g", "bob") == Some(s1);
    assert GridOf(s1, "g") == Some(cells);
    assert WithPlayers("g") !in s1;
  }

  // ---------------------------------------------------------------
  // placeNumber
  // ---------------------------------------------------------------

  /** The nickname the peer joined `name` with: the local list at the game's index. */
  function OwnNickname(l: Session, name: string): (n: string)
    requires Aligned(l) && name in l.names
    ensures exists i :: 0 <= i < |l.names| && l.names[i] == name && l.nicknames[i] == n
    ensures n == l.nicknames[IndexOf(l.names, name)]
  {
    l.nicknames[IndexOf(l.names, name)]
  }

  /** The store with the score at index `g` of the game's scores moved by `delta`, as a Java `int`. */
  function MoveScore(s: Entries, name: string, g: int, delta: int): (s': Entries)
    requires ScoresOf(s, WithScores(name)).Some? && 0 <= g < |ScoresOf(s, WithScores(name)).value|
    ensures
      var old_ := ScoresOf(s, WithScores(name)).value;
      && ScoresOf(s', WithScores(name)) == Some(old_[g := AddInt32(old_[g], delta)])
      && SameElsewhere(s, s', {WithScores(name)})
  {
    var scores := ScoresOf(s, WithScores(name)).value;
    s[WithScores(name) := ScoresValue(scores[g := AddInt32(scores[g], delta)])]
  }

  /** `updateScore`: the new scores and the store, or None when the list is missing or too short. */
  function UpdateScore(s: Entries, name: string, delta: int, g: int): (r: Option<(seq<int>, Entries)>)
    requires 0 <= g
    ensures r.Some? <==> ScoresOf(s, WithScores(name)).Some? && g < |ScoresOf(s, WithScores(name)).value|
    ensures r.Some? ==> r.value.1 == MoveScore(s, name, g, delta) && ScoresOf(r.value.1, WithScores(name)) == Some(r.value.0)
  {
    match ScoresOf(s, WithScores(name))
    case None => None
    case Some(scores) =>
      if g < |scores| then
        var scores' := scores[g := AddInt32(scores[g], delta)];
        Some((scores', MoveScore(s, name, g, delta)))
      else None
  }

  /** One line of the final scores: "- nickname: score". */
  function ScoreLine(nickname: string, score: int): string {
    "- " + nickname + ": " + IntToString(score)
  }

  /** A score line starts with the nickname, and what follows the nickname and the colon reads back as the score. */
  lemma ScoreLineRoundTrip(nickname: string, score: int)
    ensures var line := ScoreLine(nickname, score);
      && |line| > |nickname| + 4 && line[..|nickname| + 4] == "- " + nickname + ": "
      && IsDecimal(line[|nickname| + 4..]) && ParseInt(line[|nickname| + 4..]) == score
  {
    IntRoundTrip(score);
    var line := ScoreLine(nickname, score);
    assert line[|nickname| + 4..] == IntToString(score);
  }

  /** The score lines of the players, in order, joined by newlines. */
  function ScoreLines(nicknames: seq<string>, scores: seq<int>): (text: string)
    requires |nicknames| <= |scores|
    ensures |text| == 0 <==> |nicknames| == 0
    decreases |nicknames|
  {
    if |nicknames| == 0 then ""
    else if |nicknames| == 1 then ScoreLine(nicknames[0], scores[0])
    else
      var k := |nicknames| - 1;
      ScoreLines(nicknames[..k], scores) + "\n" + ScoreLine(nicknames[k], scores[k])
  }

  /** The lines of the first i + 1 players: those of the first i, a newline, then player i's line. */
  lemma ScoreLinesPrefix(nicknames: seq<string>, scores: seq<int>, i: int)
    requires 0 <= i < |nicknames| && i < |scores|
    ensures ScoreLines(nicknames[..i + 1], scores) ==
      if i == 0 then ScoreLine(nicknames[0], scores[0])
      else ScoreLines(nicknames[..i], scores) + "\n" + ScoreLine(nicknames[i], scores[i])
  {
    var prefix := nicknames[..i + 1];
    assert |prefix| == i + 1 && prefix[i] == nicknames[i];
    if i > 0 {
      assert prefix[..i] == nicknames[..i];
    }
  }

  /** The text of the lines ends with the last player's score: there is no newline after the last line. */
  lemma ScoreLinesEnd(nicknames: seq<string>, scores: seq<int>)
    requires 0 < |nicknames| <= |scores|
    ensures var text := ScoreLines(nicknames, scores);
      |text| > 0 && IsDigit(text[|text| - 1])
  {
    var k := |nicknames| - 1;
    var digits := IntToString(scores[k]);
    IntToStringDecimal(scores[k]);
    var line := ScoreLine(nicknames[k], scores[k]);
    assert line == "- " + nicknames[k] + ": " + digits;
    assert line[|line| - 1] == digits[|digits| - 1];
    var text := ScoreLines(nicknames, scores);
    if k > 0 {
      var init := ScoreLines(nicknames[..k], scores);
      assert text == init + "\n" + line;
      assert text[|text| - 1] == line[|line| - 1];
    }
  }

  /**
   * `buildNotification`: "<name> - <nickname>" followed by " has scored a
   * point!", or, once the grid is complete, by " has completed the
   * sudoku!", "Scores:" and the score lines; None when a score is missing
   * for a listed nickname (the list read fails).
   */
  function BuildNotification(name: string, scores: seq<int>, nickname: string, nicknames: seq<string>, completed: bool): (r: Option<string>)
    ensures !completed ==> r == Some(name + " - " + nickname + " has scored a point!")
    ensures completed ==> (r.Some? <==> |nicknames| <= |scores|)
    ensures completed && r.Some? ==>
      r.value == name + " - " + nickname + " has completed the sudoku!\n" + "Scores:\n" + ScoreLines(nicknames, scores)
  {
    var head := name + " - " + nickname;
    if !completed then Some(head + " has scored a point!")
    else if |nicknames| <= |scores| then Some(head + " has completed the sudoku!\n" + "Scores:\n" + ScoreLines(nicknames, scores))
    else None
  }

  /** `notifyPlayers`: the message for the game's players, or None when the players or a score cannot be read. */
  function NotifyPlayers(s: Entries, name: string, scores: seq<int>, nickname: string, nicknames: seq<string>, completed: bool): (r: Option<Notification>)
    ensures r.Some? <==> PlayersOf(s, WithPlayers(name)).Some? && BuildNotification(name, scores, nickname, nicknames, completed).Some?
    ensures r.Some? ==> r.value.recipients == PlayersOf(s, WithPlayers(name)).value
  {
    match PlayersOf(s, WithPlayers(name))
    case None => None
    case Some(players) =>
      match BuildNotification(name, scores, nickname, nicknames, completed)
      case None => None
      case Some(message) => Some(Notification(players, message))
  }

  /**
   * `placeNumber(name, row, column, number)`: the score (or the error
   * value), the store afterwards and the notification sent, if any. The
   * game's stored numbers are placed into; a score of 1 or -1 is added to
   * the shared score at the index of the peer's nickname in the shared
   * nicknames; on 1 the new numbers are stored and the players notified.
   */
  function PlaceNumber(s: Entries, l: Session, name: string, row: int, column: int, number: int): (r: (int, Entries, Option<Notification>))
    requires Aligned(l)
    ensures r.0 == ERROR_WHILE_PLACING_NUMBER || IsScore(r.0)
    ensures !IsGameValid(name, row, column, number, l.names) ==> r == (ERROR_WHILE_PLACING_NUMBER, s, None)
    ensures r.2.Some? <==> r.0 == CORRECT_NUMBER
  {
    if !IsGameValid(name, row, column, number, l.names) then (ERROR_WHILE_PLACING_NUMBER, s, None)
    else match GridOf(s, name)
      case None => (ERROR_WHILE_PLACING_NUMBER, s, None)
      case Some(cells) =>
        if !CoversGrid(cells) then (ERROR_WHILE_PLACING_NUMBER, s, None)
        else
          var (score, m) := Place(Crop(cells), row, column, number);
          if score != CORRECT_NUMBER && score != INCORRECT_NUMBER then (score, s, None)
          else RecordScore(s, l, name, score, m)
  }

  /**
   * The rest of `placeNumber` once the placement scored `score`, 1 or -1,
   * and left the numbers `m`: the score at the index of the peer's
   * nickname in the shared nicknames moves by `score`; on 1 the numbers
   * are stored and the players notified.
   */
  function RecordScore(s: Entries, l: Session, name: string, score: int, m: Matrix): (r: (int, Entries, Option<Notification>))
    requires Aligned(l) && name in l.names && IsMatrix(m)
    ensures r.0 == ERROR_WHILE_PLACING_NUMBER || r.0 == score
    ensures r.2.Some? ==> r.0 == score == CORRECT_NUMBER
    ensures r.0 == CORRECT_NUMBER ==> r.2.Some?
  {
    var nickname := OwnNickname(l, name);
    match NicknamesOf(s, WithNicknames(name))
    case None => (ERROR_WHILE_PLACING_NUMBER, s, None)
    case Some(nicknames) =>
      var g := IndexOf(nicknames, nickname);
      if g == -1 then (ERROR_WHILE_PLACING_NUMBER, s, None)
      else match UpdateScore(s, name, score, g)
        case None => (ERROR_WHILE_PLACING_NUMBER, s, None)
        case Some((scores, s1)) =>
          if score != CORRECT_NUMBER then (score, s1, None)
          else
            var s2 := s1[name := GridValue(m)];
            match NotifyPlayers(s2, name, scores, nickname, nicknames, Completed(m))
            case None => (ERROR_WHILE_PLACING_NUMBER, s2, None)
            case Some(notification) => (score, s2, Some(notification))
  }

  /** A placement with a coordinate or the number outside 1..9, or in a game not joined, writes nothing. */
  lemma PlaceNumberRejects(s: Entries, l: Session, name: string, row: int, column: int, number: int)
    requires Aligned(l)
    requires !InRange(row) || !InRange(column) || !InRange(number) || name !in l.names
    ensures PlaceNumber(s, l, name, row, column, number) == (ERROR_WHILE_PLACING_NUMBER, s, None)
  {
  }

  /**
   * The outcome of a placement: the error value or the score `Place`
   * gives on the stored numbers. The store changes only when the score is
   * 1 or -1: then the shared score at the index of the peer's nickname
   * in the shared nicknames moves by that score, and on 1 the placed
   * numbers replace the stored ones; no other key changes. A notification
   * is sent exactly with the score 1: to every stored player of the game,
   * carrying the message built from the updated scores and the placed
   * numbers.
   */
  lemma PlaceNumberOutcome(s: Entries, l: Session, name: string, row: int, column: int, number: int)
    requires Aligned(l)
    ensures
      var (score, s', sent) := PlaceNumber(s, l, name, row, column, number);
      && (score == ERROR_WHILE_PLACING_NUMBER || IsScore(score))
      && (s' != s || sent.Some? ==>
        && IsGameValid(name, row, column, number, l.names)
        && GridOf(s, name).Some? && CoversGrid(GridOf(s, name).value)
        && var (placed, m) := Place(Crop(GridOf(s, name).value), row, column, number);
        && (placed == CORRECT_NUMBER || placed == INCORRECT_NUMBER)
        && NicknamesOf(s, WithNicknames(name)).Some?
        && var g := IndexOf(NicknamesOf(s, WithNicknames(name)).value, OwnNickname(l, name));
        && 0 <= g
        && ScoresOf(s, WithScores(name)).Some? && g < |ScoresOf(s, WithScores(name)).value|
        && s' == (if placed == CORRECT_NUMBER then MoveScore(s, name, g, placed)[name := GridValue(m)]
                  else MoveScore(s, name, g, placed))
        && (sent.Some? ==> score == placed == CORRECT_NUMBER))
      && (score != ERROR_WHILE_PLACING_NUMBER ==>
        GridOf(s, name).Some? && CoversGrid(GridOf(s, name).value) &&
        IsGameValid(name, row, column, number, l.names) &&
        score == Place(Crop(GridOf(s, name).value), row, column, number).0)
      && (score == CORRECT_NUMBER ==>
        && sent.Some? && name in l.names
        && PlayersOf(s, WithPlayers(name)).Some? && sent.value.recipients == PlayersOf(s, WithPlayers(name)).value
        && NicknamesOf(s, WithNicknames(name)).Some? && ScoresOf(s', WithScores(name)).Some?
        && GridOf(s', name).Some? && IsMatrix(GridOf(s', name).value)
        && Some(sent.value.message) == BuildNotification(name, ScoresOf(s', WithScores(name)).value, OwnNickname(l, name),
             NicknamesOf(s, WithNicknames(name)).value, Completed(GridOf(s', name).value)))
  {
    KeysDistinct(name);
    KeysOfDifferentKinds(name, name);
  }

  /**
   * The placement's own score comes back, rather than -2, exactly when the
   * input is valid and the stored grid covers 9x9, and, for a score of 1
   * or -1, the peer's nickname is among the shared nicknames with a score
   * at its index, and, for a score of 1, the players are stored and a
   * completed grid has a score for every listed nickname.
   */
  lemma PlaceNumberScoresIff(s: Entries, l: Session, name: string, row: int, column: int, number: int)
    requires Aligned(l)
    ensures PlaceNumber(s, l, name, row, column, number).0 != ERROR_WHILE_PLACING_NUMBER <==>
      && IsGameValid(name, row, column, number, l.names)
      && GridOf(s, name).Some? && CoversGrid(GridOf(s, name).value)
      && var (placed, m) := Place(Crop(GridOf(s, name).value), row, column, number);
      && (placed == CORRECT_NUMBER || placed == INCORRECT_NUMBER ==>
        && NicknamesOf(s, WithNicknames(name)).Some? && ScoresOf(s, WithScores(name)).Some?
        && var nicknames := NicknamesOf(s, WithNicknames(name)).value;
        && OwnNickname(l, name) in nicknames
        && IndexOf(nicknames, OwnNickname(l, name)) < |ScoresOf(s, WithScores(name)).value|
        && (placed == CORRECT_NUMBER ==>
              PlayersOf(s, WithPlayers(name)).Some?
              && (Completed(m) ==> |nicknames| <= |ScoresOf(s, WithScores(name)).value|)))
  {
    KeysDistinct(name);
    KeysOfDifferentKinds(name, name);
  }

  /**
   * On a joined game whose shared entries are all in place, a placement
   * scores what `Place` gives on the stored numbers: 1, -1 or 0.
   */
  lemma PlaceNumberScoresWhen(s: Entries, l: Session, name: string, row: int, column: int, number: int)
    requires Aligned(l) && IsGameValid(name, row, column, number, l.names)
    requires GridOf(s, name).Some? && CoversGrid(GridOf(s, name).value)
    requires NicknamesOf(s, WithNicknames(name)).Some? && OwnNickname(l, name) in NicknamesOf(s, WithNicknames(name)).value
    requires ScoresOf(s, WithScores(name)).Some?
    requires |NicknamesOf(s, WithNicknames(name)).value| <= |ScoresOf(s, WithScores(name)).value|
    requires PlayersOf(s, WithPlayers(name)).Some?
    ensures PlaceNumber(s, l, name, row, column, number).0 == Place(Crop(GridOf(s, name).value), row, column, number).0
  {
    PlaceNumberScoresIff(s, l, name, row, column, number);
    PlaceNumberOutcome(s, l, name, row, column, number);
  }

  // ---------------------------------------------------------------
  // leave
  // ---------------------------------------------------------------

  /** `removePlayer`: takes the peer's address out of the game's players when they are stored. */
  function RemovePlayer(s: Entries, name: string, self: Address): (r: Option<Entries>)
    ensures r.Some? <==> PlayersOf(s, WithPlayers(name)).Some?
    ensures r.Some? ==> r.value == s[WithPlayers(name) := PlayersValue(PlayersOf(s, WithPlayers(name)).value - {self})]
  {
    match PlayersOf(s, WithPlayers(name))
    case None => None
    case Some(players) => Some(s[WithPlayers(name) := PlayersValue(players - {self})])
  }

  /**
   * `removeNickname`: the index removed from the game's shared nicknames
   * is where the peer's nickname first occurs in the peer's LOCAL
   * nickname list; None when the list is missing or shorter than that.
   */
  function RemoveNickname(s: Entries, l: Session, name: string): (r: Option<(int, Entries)>)
    requires Aligned(l) && name in l.names
    ensures r.Some? <==>
      NicknamesOf(s, WithNicknames(name)).Some? &&
      IndexOf(l.nicknames, OwnNickname(l, name)) < |NicknamesOf(s, WithNicknames(name)).value|
    ensures r.Some? ==>
      && r.value.0 == IndexOf(l.nicknames, OwnNickname(l, name))
      && 0 <= r.value.0 < |l.nicknames|
      && r.value.1 == s[WithNicknames(name) := NicknamesValue(RemoveAt(NicknamesOf(s, WithNicknames(name)).value, r.value.0))]
  {
    var nickname := OwnNickname(l, name);
    match NicknamesOf(s, WithNicknames(name))
    case None => None
    case Some(nicknames) =>
      var index := IndexOf(l.nicknames, nickname);
      if index < |nicknames| then Some((index, s[WithNicknames(name) := NicknamesValue(RemoveAt(nicknames, index))]))
      else None
  }

  /** `removeScore`: removes the score at `index` when the scores are stored and long enough. */
  function RemoveScore(s: Entries, name: string, index: int): (r: Option<Entries>)
    requires 0 <= index
    ensures r.Some? <==> ScoresOf(s, WithScores(name)).Some? && index < |ScoresOf(s, WithScores(name)).value|
    ensures r.Some? ==> r.value == s[WithScores(name) := ScoresValue(RemoveAt(ScoresOf(s, WithScores(name)).value, index))]
  {
    match ScoresOf(s, WithScores(name))
    case None => None
    case Some(scores) =>
      if index < |scores| then Some(s[WithScores(name) := ScoresValue(RemoveAt(scores, index))]) else None
  }

  /** `clear(index)`: the session without its entry at `index`, in all three lists. */
  function ClearSession(l: Session, index: int): (l': Session)
    requires Aligned(l) && 0 <= index < |l.names|
    ensures Aligned(l') && |l'.names| == |l.names| - 1
  {
    Session(RemoveAt(l.games, index), RemoveAt(l.names, index), RemoveAt(l.nicknames, index))
  }

  /**
   * `leave(name)` by the peer at `self`, as the code does it: the peer
   * leaves the players, then the shared nicknames and the shared scores
   * lose the entry at the index of the peer's nickname in its local
   * nicknames, then the session loses its entry at that same index; the
   * first step that fails ends with `false` and keeps the earlier writes.
   */
  function Leave(s: Entries, l: Session, self: Address, name: string): (r: (bool, Entries, Session))
    requires Aligned(l)
    ensures Aligned(r.2)
  {
    if name !in l.names then (false, s, l)
    else match RemovePlayer(s, name, self)
      case None => (false, s, l)
      case Some(s1) =>
        match RemoveNickname(s1, l, name)
        case None => (false, s1, l)
        case Some((index, s2)) =>
          match RemoveScore(s2, name, index)
          case None => (false, s2, l)
          case Some(s3) => (true, s3, ClearSession(l, index))
  }

  /** Leaving a game the peer has not joined writes nothing. */
  lemma LeaveRejects(s: Entries, l: Session, self: Address, name: string)
    requires Aligned(l) && name !in l.names
    ensures Leave(s, l, self, name) == (false, s, l)
  {
  }

  /**
   * A successful leave removes one and the same index from the shared
   * nicknames, the shared scores and the three local lists, and takes the
   * peer out of the players; so shared nicknames and scores of equal
   * length stay of equal length, and nothing else changes.
   */
  lemma LeaveRemovesOneIndex(s: Entries, l: Session, self: Address, name: string)
    requires Aligned(l) && Leave(s, l, self, name).0
    ensures
      var (_, s', l') := Leave(s, l, self, name);
      var nk, sk, pk := WithNicknames(name), WithScores(name), WithPlayers(name);
      && NicknamesOf(s, nk).Some? && ScoresOf(s, sk).Some? && PlayersOf(s, pk).Some?
      && var index := IndexOf(l.nicknames, OwnNickname(l, name));
      && 0 <= index < |NicknamesOf(s, nk).value| && index < |ScoresOf(s, sk).value| && index < |l.names|
      && NicknamesOf(s', nk) == Some(RemoveAt(NicknamesOf(s, nk).value, index))
      && ScoresOf(s', sk) == Some(RemoveAt(ScoresOf(s, sk).value, index))
      && PlayersOf(s', pk) == Some(PlayersOf(s, pk).value - {self})
      && l' == ClearSession(l, index)
      && (|NicknamesOf(s, nk).value| == |ScoresOf(s, sk).value| ==>
            |NicknamesOf(s', nk).value| == |ScoresOf(s', sk).value|)
      && |l'.names| == |l.names| - 1
      && SameElsewhere(s, s', {nk, sk, pk})
  {
    KeysDistinct(name);
    KeysOfDifferentKinds(name, name);
  }

  /**
   * A leave returns `true` exactly when the game is joined, its players,
   * nicknames and scores are stored, and both shared lists are longer than
   * the index of the peer's nickname in its local nicknames.
   */
  lemma LeaveSucceedsIff(s: Entries, l: Session, self: Address, name: string)
    requires Aligned(l)
    ensures Leave(s, l, self, name).0 <==>
      && name in l.names
      && PlayersOf(s, WithPlayers(name)).Some? && NicknamesOf(s, WithNicknames(name)).Some? && ScoresOf(s, WithScores(name)).Some?
      && IndexOf(l.nicknames, OwnNickname(l, name)) < |NicknamesOf(s, WithNicknames(name)).value|
      && IndexOf(l.nicknames, OwnNickname(l, name)) < |ScoresOf(s, WithScores(name)).value|
  {
    KeysDistinct(name);
    KeysOfDifferentKinds(name, name);
  }

  /**
   * A game just joined can be left, as long as the shared nicknames and
   * scores were at least as long as the peer's session before the join
   * (for instance a peer that had joined nothing).
   */
  lemma JoinThenLeave(s: Entries, l: Session, self: Address, name: string, nickname: string)
    requires Aligned(l) && Join(s, l, self, name, nickname).0
    requires NicknamesOf(s, WithNicknames(name)).Some? && |l.names| <= |NicknamesOf(s, WithNicknames(name)).value|
    requires ScoresOf(s, WithScores(name)).Some? && |l.names| <= |ScoresOf(s, WithScores(name)).value|
    ensures var (_, s', l') := Join(s, l, self, name, nickname);
      Aligned(l') && Leave(s', l', self, name).0
  {
    JoinSucceeds(s, l, self, name, nickname);
    JoinSucceedsIff(s, l, self, name, nickname);
    var (_, s', l') := Join(s, l, self, name, nickname);
    assert IndexOf(l'.names, name) == |l.names|;
    assert OwnNickname(l', name) == nickname;
    assert IndexOf(l'.nicknames, nickname) <= |l.names|;
    LeaveSucceedsIff(s', l', self, name);
  }

  /**
   * The peer's nickname `bob` is second in the shared list of game `g`
   * but first in its local list, so leaving `g` removes `carl`'s nickname
   * and score and keeps `bob`'s.
   */
  lemma LeaveRemovesAnotherPlayer()
    ensures
      var cells: Matrix := [];
      var l := Session([cells], ["g"], ["bob"]);
      var s: Entries := map[
        "g" := GridValue(cells),
        WithPlayers("g") := PlayersValue({1, 2}),
        WithNicknames("g") := NicknamesValue(["carl", "bob"]),
        WithScores("g") := ScoresValue([5, 0])];
      var (ok, s', _) := Leave(s, l, 2, "g");
      ok && NicknamesOf(s', WithNicknames("g")) == Some(["bob"]) && ScoresOf(s', WithScores("g")) == Some([0])
  {
    var cells: Matrix := [];
    var l := Session([cells], ["g"], ["bob"]);
    var pk, nk, sk := WithPlayers("g"), WithNicknames("g"), WithScores("g");
    var s: Entries := map["g" := GridValue(cells), pk := PlayersValue({1, 2}),
      nk := NicknamesValue(["carl", "bob"]), sk := ScoresValue([5, 0])];
    KeysDistinct("g");
    KeysOfDifferentKinds("g", "g");
    assert IndexOf(l.names, "g") == 0;
    assert OwnNickname(l, "g") == "bob";
    assert IndexOf(l.nicknames, "bob") == 0;
    var s1 := s[pk := PlayersValue({1})];
    assert {1, 2} - {2} == {1};
    assert RemovePlayer(s, "g", 2) == Some(s1);
    assert NicknamesOf(s1, nk) == Some(["carl", "bob"]);
    var rest := RemoveAt(["carl", "bob"], 0);
    assert |rest| == 1 && rest[0] == "bob";
    assert rest == ["bob"];
    var s2 := s1[nk := NicknamesValue(["bob"])];
    assert RemoveNickname(s1, l, "g") == Some((0, s2));
    assert ScoresOf(s2, sk) == Some([5, 0]);
    var rest' := RemoveAt([5, 0], 0);
    assert |rest'| == 1 && rest'[0] == 0;
    assert rest' == [0];
    var s3 := s2[sk := ScoresValue([0])];
    assert RemoveScore(s2, "g", 0) == Some(s3);
    assert Leave(s, l, 2, "g").0 && Leave(s, l, 2, "g").1 == s3;
  }

  /**
   * `leave(name)` as evidently intended: the shared nicknames and scores
   * lose the entry at the index of the peer's nickname in the SHARED
   * nicknames, and the session loses the entry at the game's own index.
   */
  function LeaveCorrected(s: Entries, l: Session, self: Address, name: string): (r: (bool, Entries, Session))
    requires Aligned(l)
    ensures Aligned(r.2)
  {
    if name !in l.names then (false, s, l)
    else match RemovePlayer(s, name, self)
      case None => (false, s, l)
      case Some(s1) =>
        var nickname := OwnNickname(l, name);
        match NicknamesOf(s1, WithNicknames(name))
        case None => (false, s1, l)
        case Some(nicknames) =>
          var g := IndexOf(nicknames, nickname);
          if g == -1 then (false, s1, l)
          else
            var s2 := s1[WithNicknames(name) := NicknamesValue(RemoveAt(nicknames, g))];
            match RemoveScore(s2, name, g)
            case None => (false, s2, l)
            case Some(s3) => (true, s3, ClearSession(l, IndexOf(l.names, name)))
  }

  /** No element occurs twice. */
  predicate Distinct<T(==)>(xs: seq<T>) {
    forall i, j :: 0 <= i < j < |xs| ==> xs[i] != xs[j]
  }

  /** Removing the first occurrence of a value from a list without repeats leaves a list without it. */
  lemma RemoveFirstOccurrence<T>(xs: seq<T>, x: T)
    requires Distinct(xs) && x in xs
    ensures x !in RemoveAt(xs, IndexOf(xs, x))
    ensures forall y :: y != x ==> (y in RemoveAt(xs, IndexOf(xs, x)) <==> y in xs)
  {
    var i := IndexOf(xs, x);
    var r := RemoveAt(xs, i);
    forall k | 0 <= k < |r|
      ensures r[k] != x
    {
      if k >= i {
        assert r[k] == xs[k + 1];
      }
    }
    forall y | y != x && y in xs
      ensures y in r
    {
      var k :| 0 <= k < |xs| && xs[k] == y;
      if k < i {
        assert r[k] == y;
      } else {
        assert k > i;
        assert r[k - 1] == y;
      }
    }
  }

  /**
   * With the corrected leave, when the shared nicknames and the session's
   * names have no repeats (joins add only nicknames not taken and games
   * not joined), the peer's own nickname and score leave the shared lists,
   * every other player's nickname stays, and the session drops exactly
   * the game that was left.
   */
  lemma LeaveCorrectedRemovesOwnEntry(s: Entries, l: Session, self: Address, name: string)
    requires Aligned(l) && Distinct(l.names)
    requires NicknamesOf(s, WithNicknames(name)).Some? && Distinct(NicknamesOf(s, WithNicknames(name)).value)
    requires LeaveCorrected(s, l, self, name).0
    ensures
      var (_, s', l') := LeaveCorrected(s, l, self, name);
      var before := NicknamesOf(s, WithNicknames(name)).value;
      && NicknamesOf(s', WithNicknames(name)).Some?
      && var after := NicknamesOf(s', WithNicknames(name)).value;
      && OwnNickname(l, name) !in after
      && (forall n :: n != OwnNickname(l, name) ==> (n in after <==> n in before))
      && ScoresOf(s', WithScores(name)) == Some(RemoveAt(ScoresOf(s, WithScores(name)).value, IndexOf(before, OwnNickname(l, name))))
      && name !in l'.names
      && (forall n :: n != name ==> (n in l'.names <==> n in l.names))
  {
    KeysDistinct(name);
    KeysOfDifferentKinds(name, name);
    var before := NicknamesOf(s, WithNicknames(name)).value;
    RemoveFirstOccurrence(before, OwnNickname(l, name));
    RemoveFirstOccurrence(l.names, name);
  }

  // ---------------------------------------------------------------
  // leaveNetwork
  // ---------------------------------------------------------------

  /** `leaveNetwork`: `leave` for every name of `names`, in order, whatever each returns. */
  function LeaveAll(s: Entries, l: Session, self: Address, names: seq<string>): (r: (Entries, Session))
    requires Aligned(l)
    ensures Aligned(r.1)
    decreases |names|
  {
    if |names| == 0 then (s, l)
    else
      var (s1, l1) := LeaveAll(s, l, self, names[..|names| - 1]);
      var (_, s2, l2) := Leave(s1, l1, self, names[|names| - 1]);
      (s2, l2)
  }

  /** A leave never adds to the session: what is left of it was joined before. */
  lemma LeaveShrinksSession(s: Entries, l: Session, self: Address, name: string)
    requires Aligned(l)
    ensures multiset(Leave(s, l, self, name).2.names) <= multiset(l.names)
    ensures Leave(s, l, self, name).0 ==> |Leave(s, l, self, name).2.names| == |l.names| - 1
    ensures !Leave(s, l, self, name).0 ==> Leave(s, l, self, name).2 == l
  {
    var (ok, _, l') := Leave(s, l, self, name);
    if ok {
      var s1 := RemovePlayer(s, name, self).value;
      RemoveAtMultiset(l.names, RemoveNickname(s1, l, name).value.0);
    }
  }

  /** Leaving every game leaves a session holding only games joined before, never more of them. */
  lemma {:induction false} LeaveAllShrinksSession(s: Entries, l: Session, self: Address, names: seq<string>)
    requires Aligned(l)
    ensures multiset(LeaveAll(s, l, self, names).1.names) <= multiset(l.names)
    decreases |names|
  {
    if |names| > 0 {
      LeaveAllShrinksSession(s, l, self, names[..|names| - 1]);
      var (s1, l1) := LeaveAll(s, l, self, names[..|names| - 1]);
      LeaveShrinksSession(s1, l1, self, names[|names| - 1]);
    }
  }

  /** Every leave of `names`, taken in turn as `leaveNetwork` does, returns `true`. */
  predicate AllSucceed(s: Entries, l: Session, self: Address, names: seq<string>)
    requires Aligned(l)
    decreases |names|
  {
    || |names| == 0
    || (&& AllSucceed(s, l, self, names[..|names| - 1])
        && var (s1, l1) := LeaveAll(s, l, self, names[..|names| - 1]);
           Leave(s1, l1, self, names[|names| - 1]).0)
  }

  /**
   * Leaving the network removes one game from the session per leave that
   * succeeds: the session loses exactly `|names|` games precisely when
   * every leave succeeds, and never more.
   */
  lemma {:induction false} LeaveAllLeavesEvery(s: Entries, l: Session, self: Address, names: seq<string>)
    requires Aligned(l)
    ensures |LeaveAll(s, l, self, names).1.names| >= |l.names| - |names|
    ensures AllSucceed(s, l, self, names) <==> |LeaveAll(s, l, self, names).1.names| == |l.names| - |names|
    decreases |names|
  {
    if |names| > 0 {
      var init := names[..|names| - 1];
      LeaveAllLeavesEvery(s, l, self, init);
      var (s1, l1) := LeaveAll(s, l, self, init);
      LeaveShrinksSession(s1, l1, self, names[|names| - 1]);
    }
  }

  /** When every leave succeeds, leaving all the joined games empties the session. */
  lemma LeaveNetworkEmptiesSession(s: Entries, l: Session, self: Address)
    requires Aligned(l) && AllSucceed(s, l, self, l.names)
    ensures LeaveAll(s, l, self, l.names).1 == Session([], [], [])
  {
    LeaveAllLeavesEvery(s, l, self, l.names);
  }
}
