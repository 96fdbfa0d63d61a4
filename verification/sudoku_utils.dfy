/** The store keys derived from a game name, and the game's sentinel values. */
module SudokuUtils {
  import opened Scores

  /** Suffix of the key under which a game's players are stored. */
  const PLAYERS: string := "_players"
  /** Suffix of the key under which a game's nicknames are stored. */
  const NICKNAMES: string := "_nicknames"
  /** Suffix of the key under which a game's scores are stored. */
  const SCORES: string := "_scores"

  /** The score a player starts a game with. */
  const STARTING_SCORE: int := 0
  /** What a placement returns when it could not be attempted or recorded. */
  const ERROR_WHILE_PLACING_NUMBER: int := -2

  /** The key of the players of `gameName`. */
  function WithPlayers(gameName: string): (key: string)
    ensures |key| == |gameName| + |PLAYERS|
    ensures key[..|gameName|] == gameName && key[|gameName|..] == PLAYERS
  {
    gameName + PLAYERS
  }

  /** The key of the nicknames of `gameName`. */
  function WithNicknames(gameName: string): (key: string)
    ensures |key| == |gameName| + |NICKNAMES|
    ensures key[..|gameName|] == gameName && key[|gameName|..] == NICKNAMES
  {
    gameName + NICKNAMES
  }

  /** The key of the scores of `gameName`. */
  function WithScores(gameName: string): (key: string)
    ensures |key| == |gameName| + |SCORES|
    ensures key[..|gameName|] == gameName && key[|gameName|..] == SCORES
  {
    gameName + SCORES
  }

  /** The error value is none of the scores a placement can earn; a player starts at zero. */
  lemma ErrorIsNotAScore()
    ensures !IsScore(ERROR_WHILE_PLACING_NUMBER)
    ensures STARTING_SCORE == 0
  {
  }

  /** For one game the grid key and the three derived keys are pairwise distinct. */
  lemma KeysDistinct(gameName: string)
    ensures WithPlayers(gameName) != gameName
    ensures WithNicknames(gameName) != gameName
    ensures WithScores(gameName) != gameName
    ensures WithPlayers(gameName) != WithNicknames(gameName)
    ensures WithPlayers(gameName) != WithScores(gameName)
    ensures WithNicknames(gameName) != WithScores(gameName)
  {
  }

  /** A key with a known suffix determines the name it was derived from. */
  lemma SuffixDeterminesName(a: string, b: string, suffix: string)
    requires a + suffix == b + suffix
    ensures a == b
  {
    assert |a| == |b|;
    assert a == (a + suffix)[..|a|];
    assert b == (b + suffix)[..|b|];
  }

  /** Each key builder is injective in the game name. */
  lemma KeysInjective(a: string, b: string)
    ensures WithPlayers(a) == WithPlayers(b) ==> a == b
    ensures WithNicknames(a) == WithNicknames(b) ==> a == b
    ensures WithScores(a) == WithScores(b) ==> a == b
  {
    if WithPlayers(a) == WithPlayers(b) {
      SuffixDeterminesName(a, b, PLAYERS);
    }
    if WithNicknames(a) == WithNicknames(b) {
      SuffixDeterminesName(a, b, NICKNAMES);
    }
    if WithScores(a) == WithScores(b) {
      SuffixDeterminesName(a, b, SCORES);
    }
  }

  /**
   * The players, nicknames and scores keys of any two games never coincide
   * across kinds: their suffixes differ within the last three characters.
   */
  lemma KeysOfDifferentKinds(a: string, b: string)
    ensures WithPlayers(a) != WithNicknames(b)
    ensures WithPlayers(a) != WithScores(b)
    ensures WithNicknames(a) != WithScores(b)
  {
    var p, n, n', s := WithPlayers(a), WithNicknames(b), WithNicknames(a), WithScores(b);
    assert p[|p| - 3] == PLAYERS[|PLAYERS| - 3] == 'e' && p[|p| - 2] == PLAYERS[|PLAYERS| - 2] == 'r';
    assert n[|n| - 3] == NICKNAMES[|NICKNAMES| - 3] == 'm';
    assert n'[|n'| - 3] == NICKNAMES[|NICKNAMES| - 3] == 'm';
    assert s[|s| - 3] == SCORES[|SCORES| - 3] == 'r' && s[|s| - 2] == SCORES[|SCORES| - 2] == 'e';
  }
}
