/**
 * A peer of the game: its own list of joined games and the operations it
 * runs against the shared store. Every public operation and every helper
 * is proved to do what the matching function of `Coordinator` says.
 */
module SudokuGame {
  import opened Wrappers
  import opened Dimensions
  import opened Grids
  import opened Sudokus
  import opened Scores
  import opened SudokuUtils
  import opened GameUtils
  import opened Texts
  import opened Coordinator

  /** The shared store every peer reads and writes, one operation at a time. */
  class Store {
    var entries: Entries

    constructor ()
      ensures entries == map[]
    {
      entries := map[];
    }

    /** A read: the value under `key`, or None when there is none. */
    method Get(key: string) returns (v: Option<Value>)
      ensures v.Some? <==> key in entries
      ensures v.Some? ==> v.value == entries[key]
    {
      if key in entries {
        v := Some(entries[key]);
      } else {
        v := None;
      }
    }

    /** A write: `key` is bound to `v`, every other key is kept. */
    method Put(key: string, v: Value)
      modifies this
      ensures entries == old(entries)[key := v]
    {
      entries := entries[key := v];
    }
  }

  /**
   * The loop of `buildNotification` that lists the scores: one line per
   * nickname, with the score at the same index, and a newline between
   * lines; None when a nickname has no score.
   */
  method AppendScores(nicknames: seq<string>, scores: seq<int>) returns (lines: Option<string>)
    ensures lines == if |nicknames| <= |scores| then Some(ScoreLines(nicknames, scores)) else None
  {
    var text := "";
    var i := 0;
    while i < |nicknames|
      invariant 0 <= i <= |nicknames| && i <= |scores|
      invariant i == 0 ==> text == ""
      invariant 0 < i < |nicknames| ==> text == ScoreLines(nicknames[..i], scores) + "\n"
      invariant 0 < i == |nicknames| ==> text == ScoreLines(nicknames[..i], scores)
    {
      if i >= |scores| {
        return None;
      }
      ScoreLinesPrefix(nicknames, scores, i);
      text := text + ScoreLine(nicknames[i], scores[i]);
      if i < |nicknames| - 1 {
        text := text + "\n";
      }
      i := i + 1;
    }
    assert nicknames[..i] == nicknames;
    return Some(text);
  }

  class Peer {
    /** Where the peer is reached; what it adds to and removes from a game's players. */
    const address: Address
    const store: Store
    /** The game the peer generated or placed into last. */
    var sudoku: Sudoku?
    var games: seq<Matrix>
    var gamesNames: seq<string>
    var gamesNicknames: seq<string>
    /** The notifications handed to the network, oldest first. */
    var sent: seq<Notification>

    /** The three local lists. */
    function Local(): Session
      reads this
    {
      Session(games, gamesNames, gamesNicknames)
    }

    /** The three local lists have one entry per joined game. */
    predicate Valid()
      reads this
    {
      Aligned(Local())
    }

    /** A peer that has joined nothing yet, over `store`. */
    constructor (address: Address, store: Store)
      ensures this.address == address && this.store == store
      ensures Valid() && Local() == Session([], [], [])
      ensures sudoku == null && sent == []
    {
      this.address := address;
      this.store := store;
      sudoku := null;
      games := [];
      gamesNames := [];
      gamesNicknames := [];
      sent := [];
    }

    // -------------------------------------------------------------
    // Reads and writes of the game's entries
    // -------------------------------------------------------------

    /** `retrieveSudoku`: the stored grid of the game, or None. */
    method RetrieveSudoku(name: string) returns (cells: Option<Matrix>)
      ensures cells == GridOf(store.entries, name)
    {
      var v := store.Get(name);
      if v.Some? && v.value.GridValue? {
        cells := Some(v.value.cells);
      } else {
        cells := None;
      }
    }

    /** `retrieveNicknames`: the stored nicknames of the game, or None. */
    method RetrieveNicknames(name: string) returns (nicknames: Option<seq<string>>)
      ensures nicknames == NicknamesOf(store.entries, WithNicknames(name))
    {
      var v := store.Get(WithNicknames(name));
      if v.Some? && v.value.NicknamesValue? {
        nicknames := Some(v.value.nicknames);
      } else {
        nicknames := None;
      }
    }

    /** `putSudoku`: stores the grid of the game. */
    method PutSudoku(name: string, cells: Matrix)
      modifies store
      ensures store.entries == old(store.entries)[name := GridValue(cells)]
    {
      store.Put(name, GridValue(cells));
    }

    /** `putPlayers`: creates the game's players, empty, unless there are some. */
    method PutPlayers(name: string)
      modifies store
      ensures store.entries == PutIfAbsent(old(store.entries), WithPlayers(name), PlayersValue({}))
    {
      var v := store.Get(WithPlayers(name));
      if v.None? {
        store.Put(WithPlayers(name), PlayersValue({}));
      }
    }

    /** `putNicknames`: creates the game's nicknames, empty, unless there are some. */
    method PutNicknames(name: string)
      modifies store
      ensures store.entries == PutIfAbsent(old(store.entries), WithNicknames(name), NicknamesValue([]))
    {
      var v := store.Get(WithNicknames(name));
      if v.None? {
        store.Put(WithNicknames(name), NicknamesValue([]));
      }
    }

    /** `putScores`: creates the game's scores, empty, unless there are some. */
    method PutScores(name: string)
      modifies store
      ensures store.entries == PutIfAbsent(old(store.entries), WithScores(name), ScoresValue([]))
    {
      var v := store.Get(WithScores(name));
      if v.None? {
        store.Put(WithScores(name), ScoresValue([]));
      }
    }

    // -------------------------------------------------------------
    // generateNewSudoku, getSudoku, joined
    // -------------------------------------------------------------

    /**
     * `generateNewSudoku(name)`: with a valid name a new game is generated
     * and becomes the peer's game; it is stored, and returned, only when
     * nothing is stored under the name yet.
     */
    method GenerateNewSudoku(name: string) returns (r: Option<Matrix>)
      modifies this, store
      ensures Local() == old(Local()) && sent == old(sent)
      ensures !IsGameNameValid(name) ==> r.None? && store.entries == old(store.entries) && sudoku == old(sudoku)
      ensures IsGameNameValid(name) ==>
        && sudoku != null && fresh(sudoku) && IsBoard(sudoku.grid.board)
        && NoRepeats(sudoku.grid.Matrix()) && HoldsDigits(sudoku.grid.Matrix())
        && (r, store.entries) == Coordinator.GenerateNewSudoku(old(store.entries), name, sudoku.grid.Matrix())
    {
      if !IsGameNameValid(name) {
        return None;
      }
      var s := new Sudoku(name);
      sudoku := s;
      var cellsNumbers := s.grid.GetCellsNumbersAsMatrix();
      r := StoreNewSudoku(name, cellsNumbers);
    }

    /**
     * The store writes of `generateNewSudoku`: unless something is stored
     * under the name, the numbers and the game's empty players, nicknames
     * and scores are stored and the numbers returned.
     */
    method StoreNewSudoku(name: string, cellsNumbers: Matrix) returns (r: Option<Matrix>)
      requires IsGameNameValid(name)
      modifies store
      ensures (r, store.entries) == Coordinator.GenerateNewSudoku(old(store.entries), name, cellsNumbers)
    {
      var v := store.Get(name);
      if v.Some? {
        return None;
      }
      PutSudoku(name, cellsNumbers);
      PutPlayers(name);
      PutNicknames(name);
      PutScores(name);
      return Some(cellsNumbers);
    }

    /** `getSudoku(name)`: the numbers stored for the game, or None. */
    method GetSudoku(name: string) returns (r: Option<Matrix>)
      ensures r == GridOf(store.entries, name)
    {
      r := RetrieveSudoku(name);
    }

    /** `joined()`: the names of the games joined, in joining order. */
    method Joined() returns (names: seq<string>)
      ensures names == Local().names
    {
      names := gamesNames;
    }

    // -------------------------------------------------------------
    // join
    // -------------------------------------------------------------

    /** `addNickname`: appends the nickname to the game's nicknames unless it is taken. */
    method AddNickname(name: string, nickname: string) returns (ok: bool)
      modifies store
      ensures var r := Coordinator.AddNickname(old(store.entries), name, nickname);
        ok == r.Some? && store.entries == if ok then r.value else old(store.entries)
    {
      var v := store.Get(WithNicknames(name));
      if v.None? || !v.value.NicknamesValue? {
        return false;
      }
      var nicknames := v.value.nicknames;
      if nickname in nicknames {
        return false;
      }
      store.Put(WithNicknames(name), NicknamesValue(nicknames + [nickname]));
      return true;
    }

    /** `addSudoku`: records the game, its name and the nickname in the local lists. */
    method AddSudoku(name: string, nickname: string) returns (cells: Option<Matrix>)
      modifies this
      ensures cells == GridOf(store.entries, name)
      ensures var r := Coordinator.AddSudoku(store.entries, old(Local()), name, nickname);
        Local() == if r.Some? then r.value else old(Local())
      ensures sudoku == old(sudoku) && sent == old(sent)
    {
      cells := RetrieveSudoku(name);
      if cells.None? {
        return;
      }
      games := games + [cells.value];
      gamesNames := gamesNames + [name];
      gamesNicknames := gamesNicknames + [nickname];
    }

    /** `addPlayer`: adds the peer's address to the game's players. */
    method AddPlayer(name: string) returns (ok: bool)
      modifies store
      ensures var r := Coordinator.AddPlayer(old(store.entries), name, address);
        ok == r.Some? && store.entries == if ok then r.value else old(store.entries)
    {
      var v := store.Get(WithPlayers(name));
      if v.None? || !v.value.PlayersValue? {
        return false;
      }
      store.Put(WithPlayers(name), PlayersValue(v.value.players + {address}));
      return true;
    }

    /** `addScore`: appends the starting score to the game's scores. */
    method AddScore(name: string) returns (ok: bool)
      modifies store
      ensures var r := Coordinator.AddScore(old(store.entries), name);
        ok == r.Some? && store.entries == if ok then r.value else old(store.entries)
    {
      var v := store.Get(WithScores(name));
      if v.None? || !v.value.ScoresValue? {
        return false;
      }
      store.Put(WithScores(name), ScoresValue(v.value.scores + [STARTING_SCORE]));
      return true;
    }

    /** `join(name, nickname)`, step by step as `Coordinator.Join` describes. */
    method Join(name: string, nickname: string) returns (ok: bool)
      requires Valid()
      modifies this, store
      ensures Valid() && sudoku == old(sudoku) && sent == old(sent)
      ensures (ok, store.entries, Local()) == Coordinator.Join(old(store.entries), old(Local()), address, name, nickname)
    {
      if !IsGameValidToJoin(name, nickname, gamesNames) {
        return false;
      }
      ok := AddNickname(name, nickname);
      if !ok {
        return;
      }
      var cells := AddSudoku(name, nickname);
      if cells.None? {
        return false;
      }
      ok := AddPlayer(name);
      if !ok {
        return;
      }
      ok := AddScore(name);
    }

    // -------------------------------------------------------------
    // placeNumber
    // -------------------------------------------------------------

    /** `updateScore`: moves the score at `globalIndex` by `score`, as a Java `int`, and stores the scores. */
    method UpdateScore(name: string, score: int, globalIndex: int) returns (scores: Option<seq<int>>)
      requires 0 <= globalIndex
      modifies store
      ensures var r := Coordinator.UpdateScore(old(store.entries), name, score, globalIndex);
        && scores == (if r.Some? then Some(r.value.0) else None)
        && store.entries == if r.Some? then r.value.1 else old(store.entries)
    {
      var v := store.Get(WithScores(name));
      if v.None? || !v.value.ScoresValue? || globalIndex >= |v.value.scores| {
        return None;
      }
      var list := v.value.scores;
      list := list[globalIndex := AddInt32(list[globalIndex], score)];
      store.Put(WithScores(name), ScoresValue(list));
      return Some(list);
    }

    /**
     * `buildNotification`: the message on the placement of a correct
     * number, with every player's score listed once the game's grid is
     * complete; None when a listed nickname has no score.
     */
    method BuildNotification(name: string, scores: seq<int>, nickname: string, nicknames: seq<string>) returns (message: Option<string>)
      requires sudoku != null && sudoku.Valid()
      ensures message == Coordinator.BuildNotification(name, scores, nickname, nicknames, Completed(sudoku.grid.Matrix()))
    {
      var builder := name + " - " + nickname;
      var completed := sudoku.IsCompleted();
      if !completed {
        return Some(builder + " has scored a point!");
      }
      builder := builder + " has completed the sudoku!\n" + "Scores:\n";
      var lines := AppendScores(nicknames, scores);
      if lines.None? {
        return None;
      }
      builder := builder + lines.value;
      return Some(builder);
    }

    /**
     * `notifyPlayers`: hands the message to the network for every player
     * of the game; false when the players or a score cannot be read.
     */
    method NotifyPlayers(name: string, scores: seq<int>, nickname: string, nicknames: seq<string>) returns (ok: bool)
      requires sudoku != null && sudoku.Valid()
      modifies this
      ensures Local() == old(Local()) && sudoku == old(sudoku)
      ensures var n := Coordinator.NotifyPlayers(store.entries, name, scores, nickname, nicknames, Completed(sudoku.grid.Matrix()));
        ok == n.Some? && sent == old(sent) + (if ok then [n.value] else [])
    {
      var v := store.Get(WithPlayers(name));
      var message := BuildNotification(name, scores, nickname, nicknames);
      if message.None? || v.None? || !v.value.PlayersValue? {
        return false;
      }
      sent := sent + [Notification(v.value.players, message.value)];
      return true;
    }

    /**
     * `placeNumber(name, row, column, number)`: the game's stored numbers
     * become the peer's game, the number is placed, and the score, the
     * store and the notification follow `Coordinator.PlaceNumber`.
     */
    method PlaceNumber(name: string, row: int, column: int, number: int) returns (score: int)
      requires Valid()
      modifies this, store
      ensures Valid() && Local() == old(Local())
      ensures var (sc, s', n) := Coordinator.PlaceNumber(old(store.entries), old(Local()), name, row, column, number);
        && score == sc && store.entries == s'
        && sent == old(sent) + (if n.Some? then [n.value] else [])
      ensures var cells := GridOf(old(store.entries), name);
        if IsGameValid(name, row, column, number, gamesNames) && cells.Some? && CoversGrid(cells.value) then
          sudoku != null && fresh(sudoku) && sudoku.Valid()
          && sudoku.grid.Matrix() == Place(Crop(cells.value), row, column, number).1
        else sudoku == old(sudoku)
    {
      if !IsGameValid(name, row, column, number, gamesNames) {
        return ERROR_WHILE_PLACING_NUMBER;
      }
      var cells := RetrieveSudoku(name);
      if cells.None? || !CoversGrid(cells.value) {
        return ERROR_WHILE_PLACING_NUMBER;
      }
      score := PlaceInGame(name, cells.value, row, column, number);
      if score != CORRECT_NUMBER && score != INCORRECT_NUMBER {
        return;
      }
      score := RecordScore(name, score);
    }

    /**
     * The placement itself: a game over the stored numbers becomes the
     * peer's game and the number is placed in it.
     */
    method PlaceInGame(name: string, cells: Matrix, row: int, column: int, number: int) returns (score: int)
      requires CoversGrid(cells) && InRange(row) && InRange(column)
      modifies this
      ensures Local() == old(Local()) && sent == old(sent)
      ensures sudoku != null && fresh(sudoku) && sudoku.Valid()
      ensures (score, sudoku.grid.Matrix()) == Place(Crop(cells), row, column, number)
    {
      var s := new Sudoku.WithCells(name, cells);
      sudoku := s;
      assert s.grid.cells[row - 1, column - 1] in s.grid.CellSet();
      score := s.PlaceNumber(row, column, number);
    }

    /**
     * The part of `placeNumber` after the placement in the peer's game
     * scored `score`, 1 or -1: the peer's score is updated, and on 1 the
     * game's numbers are stored and the players notified.
     */
    method RecordScore(name: string, score: int) returns (result: int)
      requires Valid() && name in gamesNames && sudoku != null && sudoku.Valid()
      modifies this, store
      ensures Valid() && Local() == old(Local())
      ensures var (sc, s', n) := Coordinator.RecordScore(old(store.entries), old(Local()), name, score, old(sudoku.grid.Matrix()));
        && result == sc && store.entries == s'
        && sent == old(sent) + (if n.Some? then [n.value] else [])
      ensures sudoku == old(sudoku)
    {
      var localIndex := IndexOf(gamesNames, name);
      var nickname := gamesNicknames[localIndex];
      var nicknames := RetrieveNicknames(name);
      if nicknames.None? {
        return ERROR_WHILE_PLACING_NUMBER;
      }
      var globalIndex := IndexOf(nicknames.value, nickname);
      if globalIndex == -1 {
        return ERROR_WHILE_PLACING_NUMBER;
      }
      var scores := UpdateScore(name, score, globalIndex);
      if scores.None? {
        return ERROR_WHILE_PLACING_NUMBER;
      }
      result := score;
      if score == CORRECT_NUMBER {
        var cellsNumbers := sudoku.grid.GetCellsNumbersAsMatrix();
        PutSudoku(name, cellsNumbers);
        var ok := NotifyPlayers(name, scores.value, nickname, nicknames.value);
        if !ok {
          return ERROR_WHILE_PLACING_NUMBER;
        }
      }
    }

    // -------------------------------------------------------------
    // leave, leaveNetwork
    // -------------------------------------------------------------

    /** `removePlayer`: takes the peer's address out of the game's players. */
    method RemovePlayer(name: string) returns (ok: bool)
      modifies store
      ensures var r := Coordinator.RemovePlayer(old(store.entries), name, address);
        ok == r.Some? && store.entries == if ok then r.value else old(store.entries)
    {
      var v := store.Get(WithPlayers(name));
      if v.None? || !v.value.PlayersValue? {
        return false;
      }
      store.Put(WithPlayers(name), PlayersValue(v.value.players - {address}));
      return true;
    }

    /**
     * `removeNickname`: removes from the game's nicknames the entry at the
     * index of the peer's nickname in its local nicknames, and returns that
     * index; -1 when nothing could be removed.
     */
    method RemoveNickname(name: string) returns (index: int)
      requires Valid() && name in gamesNames
      modifies store
      ensures var r := Coordinator.RemoveNickname(old(store.entries), Local(), name);
        && index == (if r.Some? then r.value.0 else -1)
        && store.entries == if r.Some? then r.value.1 else old(store.entries)
    {
      var nickname := gamesNicknames[IndexOf(gamesNames, name)];
      var v := store.Get(WithNicknames(name));
      if v.None? || !v.value.NicknamesValue? {
        return -1;
      }
      var nicknames := v.value.nicknames;
      index := IndexOf(gamesNicknames, nickname);
      if index >= |nicknames| {
        return -1;
      }
      store.Put(WithNicknames(name), NicknamesValue(RemoveAt(nicknames, index)));
    }

    /** `removeScore`: removes the score at `index` from the game's scores. */
    method RemoveScore(name: string, index: int) returns (ok: bool)
      requires 0 <= index
      modifies store
      ensures var r := Coordinator.RemoveScore(old(store.entries), name, index);
        ok == r.Some? && store.entries == if ok then r.value else old(store.entries)
    {
      var v := store.Get(WithScores(name));
      if v.None? || !v.value.ScoresValue? || index >= |v.value.scores| {
        return false;
      }
      store.Put(WithScores(name), ScoresValue(RemoveAt(v.value.scores, index)));
      return true;
    }

    /** `clear(index)`: drops the entry at `index` from the three local lists. */
    method Clear(index: int)
      requires Valid() && 0 <= index < |gamesNames|
      modifies this
      ensures Valid() && Local() == ClearSession(old(Local()), index)
      ensures sudoku == old(sudoku) && sent == old(sent)
    {
      games := RemoveAt(games, index);
      gamesNames := RemoveAt(gamesNames, index);
      gamesNicknames := RemoveAt(gamesNicknames, index);
    }

    /** `leave(name)`, step by step as `Coordinator.Leave` describes. */
    method Leave(name: string) returns (ok: bool)
      requires Valid()
      modifies this, store
      ensures Valid() && sudoku == old(sudoku) && sent == old(sent)
      ensures (ok, store.entries, Local()) == Coordinator.Leave(old(store.entries), old(Local()), address, name)
    {
      if name !in gamesNames {
        return false;
      }
      ok := RemovePlayer(name);
      if !ok {
        return;
      }
      var index := RemoveNickname(name);
      if index == -1 {
        return false;
      }
      ok := RemoveScore(name, index);
      if !ok {
        return;
      }
      Clear(index);
    }

    /** `leaveNetwork()`: leaves every game joined when it starts, in order; always true. */
    method LeaveNetwork() returns (ok: bool)
      requires Valid()
      modifies this, store
      ensures Valid() && ok && sudoku == old(sudoku) && sent == old(sent)
      ensures (store.entries, Local()) == LeaveAll(old(store.entries), old(Local()), address, old(gamesNames))
    {
      var names := gamesNames;
      var i := 0;
      while i < |names|
        invariant Valid() && 0 <= i <= |names| && sudoku == old(sudoku) && sent == old(sent)
        invariant (store.entries, Local()) == LeaveAll(old(store.entries), old(Local()), address, names[..i])
      {
        assert names[..i + 1][..i] == names[..i];
        var _ := Leave(names[i]);
        i := i + 1;
      }
      assert names[..i] == names;
      return true;
    }
  }
}
