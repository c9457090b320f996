/**
 * The console game (ConnectFour): the side to move, the play counter, the
 * checked drop onto the board, the conversion of a typed column number, and the
 * main loop that seats a human or the computer on each play and stops on a win
 * or a full board.
 */
module Game {
  import opened Wrappers
  import opened GameConfig
  import opened Boards

  /** Column the computer's search picks for `player` on a board holding the given drops, at the given depth. */
  type SearchRule = (seq<Drop>, Mark, int) -> int

  /** The side that makes play number `numPlays` (counted from 0): RED on even counts. */
  function PlayerAt(numPlays: nat): Mark {
    if numPlays % 2 == 0 then Red else Black
  }

  /** The `switchPlayers` rule: BLACK is followed by RED, every other mark by BLACK. */
  function Opponent(p: Mark): (q: Mark)
    ensures IsPlayer(q)
    ensures IsPlayer(p) ==> q != p
  {
    if p == Black then Red else Black
  }

  /** Switching twice gives back the player. */
  lemma OpponentInvolutive(p: Mark)
    requires IsPlayer(p)
    ensures Opponent(Opponent(p)) == p
  {
  }

  /** The side to move after `n` switches from the initial RED. */
  function AfterSwitches(n: nat): Mark {
    if n == 0 then Red else Opponent(AfterSwitches(n - 1))
  }

  /** `n` switches from RED leave RED to move exactly when `n` is even. */
  lemma {:induction false} AfterSwitchesParity(n: nat)
    ensures AfterSwitches(n) == PlayerAt(n)
  {
    if n > 0 {
      AfterSwitchesParity(n - 1);
    }
  }

  datatype Seat = Human | Computer

  /** Who makes play number `numPlays` in a game of the given type. */
  function SeatOf(gameType: int, numPlays: nat): (seat: Seat)
    ensures seat == Human <==>
              || gameType == HUMAN_HUMAN
              || (gameType == HUMAN_COMPUTER && PlayerAt(numPlays) == Red)
              || (gameType == COMPUTER_HUMAN && PlayerAt(numPlays) == Black)
  {
    if numPlays % 2 == 0 then
      if gameType == HUMAN_HUMAN || gameType == HUMAN_COMPUTER then Human else Computer
    else
      if gameType == HUMAN_HUMAN || gameType == COMPUTER_HUMAN then Human else Computer
  }

  /** What each game type means for the seats, in terms of the side to move. */
  lemma SeatsOfGameTypes(numPlays: nat)
    ensures SeatOf(HUMAN_HUMAN, numPlays) == Human
    ensures SeatOf(COMPUTER_COMPUTER, numPlays) == Computer
    ensures SeatOf(HUMAN_COMPUTER, numPlays) == Human <==> PlayerAt(numPlays) == Red
    ensures SeatOf(COMPUTER_HUMAN, numPlays) == Human <==> PlayerAt(numPlays) == Black
  {
  }

  /** Against the computer, the human keeps one colour for the whole game, whatever the number of switches. */
  lemma {:induction false} HumanKeepsColour(n: nat)
    ensures SeatOf(HUMAN_COMPUTER, n) == Human <==> AfterSwitches(n) == Red
    ensures SeatOf(COMPUTER_HUMAN, n) == Human <==> AfterSwitches(n) == Black
  {
    AfterSwitchesParity(n);
  }

  /** Why a typed column is refused. */
  datatype EntryError = NotANumber | OutOfRange(column: int)

  /**
   * The checks `getColumn` makes on the typed line, already parsed (`None` when
   * it is not an integer): a column 1..maxCol is accepted and returned 0-based.
   */
  function ColumnOfEntry(entry: Option<int>, maxCol: int): (r: Result<int, EntryError>)
    ensures r.Success? <==> entry.Some? && 1 <= entry.value <= maxCol
    ensures r.Success? ==> 0 <= r.value < maxCol && r.value + 1 == entry.value
    ensures entry.None? ==> r == Failure(NotANumber)
    ensures entry.Some? && r.Failure? ==> r == Failure(OutOfRange(entry.value))
  {
    match entry
    case None => Failure(NotANumber)
    case Some(column) =>
      if column < 1 || column > maxCol then Failure(OutOfRange(column)) else Success(column - 1)
  }

  /** Every column of the board can be typed: its 1-based number is accepted and converted back. */
  lemma EntryOfColumn(column: int, maxCol: int)
    requires 0 <= column < maxCol
    ensures ColumnOfEntry(Some(column + 1), maxCol) == Success(column)
  {
  }

  /** The IllegalArgumentExceptions of `dropChecker`, and the board refusing the drop. */
  datatype DropError = InvalidPlayer(player: Mark) | InvalidColumn(column: int) | Refused(column: int)

  class ConnectFour {
    const board: Board
    var player: Mark
    const gameType: int
    const maxDepth: int
    var plays: int

    /** The side to move is a player, and the counter counts the checkers on the board. */
    ghost predicate Valid()
      reads this, board
    {
      IsPlayer(player) && plays == |board.drops| && WellFormed(board.drops)
    }

    /** A new game: empty board, RED to move, no plays.  The arguments are stored unchecked. */
    constructor(gameType: int, maxDepth: int)
      ensures Valid() && fresh(board) && board.drops == []
      ensures this.gameType == gameType && this.maxDepth == maxDepth
      ensures player == Red && plays == 0
    {
      this.gameType := gameType;
      this.maxDepth := maxDepth;
      player := Red;
      plays := 0;
      board := new Board();
    }

    /** The number of cells, which bounds the number of plays in a game. */
    function GetMaxPlays(): (n: int)
      ensures n == 42 && n == ROWS * COLUMNS
    {
      ROWS * COLUMNS
    }

    /** Hands the move to the other side. */
    method SwitchPlayers()
      requires Valid()
      modifies this
      ensures Valid()
      ensures player == Opponent(old(player))
      ensures plays == old(plays)
    {
      if player == Black {
        player := Red;
      } else {
        player := Black;
      }
    }

    /**
     * Validates the mark, then the column, then lets the board place the checker,
     * and counts the play only once the board has accepted it.
     */
    method DropChecker(col: int, p: Mark, accepts: SetRule) returns (o: Outcome<DropError>)
      requires Valid()
      modifies this, board
      ensures Valid()
      ensures player == old(player)
      ensures !IsPlayer(p) ==> o == Fail(InvalidPlayer(p))
      ensures IsPlayer(p) && !(0 <= col < COLUMNS) ==> o == Fail(InvalidColumn(col))
      ensures IsPlayer(p) && 0 <= col < COLUMNS ==>
                o == if accepts(old(board.drops), col, p) then Pass else Fail(Refused(col))
      ensures board.drops == if o.Pass? then old(board.drops) + [Drop(col, p)] else old(board.drops)
      ensures plays == if o.Pass? then old(plays) + 1 else old(plays)
    {
      if p != Red && p != Black {
        return Fail(InvalidPlayer(p));
      }
      if col < 0 || col >= COLUMNS {
        return Fail(InvalidColumn(col));
      }
      var placed := board.Set(col, p, accepts);
      if !placed {
        return Fail(Refused(col));
      }
      plays := plays + 1;
      return Pass;
    }
  }

  /** A typed line that `doPlayerMove` would turn into a checker on a board holding `drops`. */
  predicate Acceptable(entry: Option<int>, drops: seq<Drop>, player: Mark, accepts: SetRule) {
    var column := ColumnOfEntry(entry, COLUMNS);
    column.Success? && IsPlayer(player) && accepts(drops, column.value, player)
  }

  /** None of the lines `lines[from..to]` is acceptable on a board holding `drops`. */
  ghost predicate AllRefused(lines: seq<Option<int>>, from: int, to: int, drops: seq<Drop>, player: Mark, accepts: SetRule)
    requires 0 <= from <= to <= |lines|
  {
    forall j :: from <= j < to ==> !Acceptable(lines[j], drops, player, accepts)
  }

  /** How a human's turn ended: a checker dropped in a column, or no console line left to read. */
  datatype PlayerMove = Moved(column: int) | InputEnded

  /**
   * `doPlayerMove`: reads lines from `lines[start..]` until one names a column
   * the drop succeeds in; every refused line is reported and the prompt repeats.
   * `next` is the first line not read.
   */
  method DoPlayerMove(player: Mark, game: ConnectFour, lines: seq<Option<int>>, start: nat, accepts: SetRule)
    returns (move: PlayerMove, next: nat)
    requires game.Valid() && start <= |lines|
    modifies game, game.board
    ensures game.Valid() && game.player == old(game.player)
    ensures start <= next <= |lines|
    ensures move.Moved? ==> start < next && lines[next - 1] == Some(move.column + 1)
    ensures move.Moved? ==> IsPlayer(player) && 0 <= move.column < COLUMNS
    ensures move.Moved? ==> accepts(old(game.board.drops), move.column, player)
    ensures move.Moved? ==> game.board.drops == old(game.board.drops) + [Drop(move.column, player)]
    ensures move.Moved? ==> game.plays == old(game.plays) + 1
    ensures move.InputEnded? ==> next == |lines|
    ensures move.Moved? ==> AllRefused(lines, start, next - 1, old(game.board.drops), player, accepts)
    ensures move.InputEnded? ==> AllRefused(lines, start, next, old(game.board.drops), player, accepts)
    ensures move.InputEnded? ==> game.board.drops == old(game.board.drops) && game.plays == old(game.plays)
  {
    next := start;
    while next < |lines|
      invariant start <= next <= |lines|
      invariant game.Valid() && game.player == old(game.player)
      invariant game.board.drops == old(game.board.drops) && game.plays == old(game.plays)
      invariant AllRefused(lines, start, next, old(game.board.drops), player, accepts)
      decreases |lines| - next
    {
      var entry := lines[next];
      next := next + 1;
      var column := ColumnOfEntry(entry, COLUMNS);
      if column.Success? {
        var o := game.DropChecker(column.value, player, accepts);
        if o.Pass? {
          return Moved(column.value), next;
        }
      }
    }
    move := InputEnded;
  }

  /**
   * `doComputerMove`: asks the search for a column at the game's depth and drops
   * there; a failed drop is not caught.
   */
  method DoComputerMove(player: Mark, game: ConnectFour, search: SearchRule, accepts: SetRule)
    returns (col: int, o: Outcome<DropError>)
    requires game.Valid()
    modifies game, game.board
    ensures game.Valid() && game.player == old(game.player)
    ensures col == search(old(game.board.drops), player, game.maxDepth)
    ensures o.Pass? <==> IsPlayer(player) && 0 <= col < COLUMNS && accepts(old(game.board.drops), col, player)
    ensures !IsPlayer(player) ==> o == Fail(InvalidPlayer(player))
    ensures IsPlayer(player) && o.Fail? ==>
              o.error == if 0 <= col < COLUMNS then Refused(col) else InvalidColumn(col)
    ensures game.board.drops == if o.Pass? then old(game.board.drops) + [Drop(col, player)] else old(game.board.drops)
    ensures game.plays == if o.Pass? then old(game.plays) + 1 else old(game.plays)
  {
    col := search(game.board.drops, player, game.maxDepth);
    o := game.DropChecker(col, player, accepts);
  }

  /**
   * How one play consumed the console, reading lines `from` up to `to` on a board
   * holding `before`.  A computer play reads none.  A human play reads at least
   * one: the last line read names its column, and every line before it was refused.
   */
  ghost predicate ReadPlay(lines: seq<Option<int>>, from: nat, to: nat, before: seq<Drop>, d: Drop, seat: Seat,
                           accepts: SetRule)
  {
    && from <= to <= |lines|
    && (seat == Computer ==> to == from)
    && (seat == Human ==>
          && from < to && lines[to - 1] == Some(d.column + 1)
          && AllRefused(lines, from, to - 1, before, d.mark, accepts))
  }

  /** What one turn of `main` did: placed a checker, ran out of console input, or let a failed drop through. */
  datatype Turn = Placed(column: int) | OutOfInput | Failed(error: DropError)

  /**
   * A play `d` made on the board `before` from `seat` is legal when its column is on
   * the board, the board accepted it, and a computer seat played the column its
   * search chose.
   */
  ghost predicate Legal(before: seq<Drop>, d: Drop, seat: Seat, maxDepth: int, search: SearchRule, accepts: SetRule)
  {
    && 0 <= d.column < COLUMNS
    && accepts(before, d.column, d.mark)
    && (seat == Computer ==> d.column == search(before, d.mark, maxDepth))
  }

  /**
   * The seat dispatch of one pass of `main`'s loop: the side to move plays from
   * the console when `seat` is human and through the search otherwise.
   */
  method TakeTurn(game: ConnectFour, seat: Seat, lines: seq<Option<int>>, start: nat, search: SearchRule,
                  accepts: SetRule)
    returns (turn: Turn, next: nat)
    requires game.Valid() && start <= |lines|
    modifies game, game.board
    ensures game.Valid() && game.player == old(game.player)
    ensures start <= next <= |lines|
    ensures seat == Computer ==> next == start
    ensures turn.Placed? ==>
              ReadPlay(lines, start, next, old(game.board.drops), Drop(turn.column, game.player), seat, accepts)
    ensures turn.Placed? ==>
              Legal(old(game.board.drops), Drop(turn.column, game.player), seat, game.maxDepth, search, accepts)
    ensures turn.Placed? ==>
              && game.board.drops == old(game.board.drops) + [Drop(turn.column, game.player)]
              && game.plays == old(game.plays) + 1
    ensures !turn.Placed? ==> game.board.drops == old(game.board.drops) && game.plays == old(game.plays)
    ensures turn.OutOfInput? ==>
              && seat == Human && next == |lines|
              && AllRefused(lines, start, |lines|, old(game.board.drops), game.player, accepts)
    ensures turn.Failed? ==>
              var col := search(old(game.board.drops), game.player, game.maxDepth);
              && seat == Computer
              && !(0 <= col < COLUMNS && accepts(old(game.board.drops), col, game.player))
              && turn.error == if 0 <= col < COLUMNS then Refused(col) else InvalidColumn(col)
  {
    var player := game.player;
    if seat == Human {
      var move;
      move, next := DoPlayerMove(player, game, lines, start, accepts);
      turn := if move.Moved? then Placed(move.column) else OutOfInput;
    } else {
      var col, o := DoComputerMove(player, game, search, accepts);
      next := start;
      turn := if o.Pass? then Placed(col) else Failed(o.error);
    }
  }

  /** How a game ended: a winner, a full board without one, the console running dry, or an uncaught failed drop. */
  datatype GameEnd = Won(winner: Mark) | Tie | InputExhausted | Crashed(error: DropError)

  /**
   * The turn rule of `main` for play number `|before|`, made on the board `before`:
   * `PlayerAt(|before|)` played, from the seat the game type assigns, a legal play.
   */
  ghost predicate OnSchedule(before: seq<Drop>, d: Drop, seat: Seat, gameType: int, maxDepth: int,
                             search: SearchRule, accepts: SetRule)
  {
    && d.mark == PlayerAt(|before|)
    && seat == SeatOf(gameType, |before|)
    && Legal(before, d, seat, maxDepth, search, accepts)
  }

  /** A finished prefix of a game in which every play, on the board before it, followed the turn rule. */
  ghost predicate FollowsSchedule(drops: seq<Drop>, seats: seq<Seat>, gameType: int, maxDepth: int,
                                  search: SearchRule, accepts: SetRule)
    decreases |drops|
  {
    && |drops| == |seats|
    && (|drops| > 0 ==>
          var n := |drops| - 1;
          && FollowsSchedule(drops[..n], seats[..n], gameType, maxDepth, search, accepts)
          && OnSchedule(drops[..n], drops[n], seats[n], gameType, maxDepth, search, accepts))
  }

  /** What the schedule says of play `i`. */
  lemma {:induction false} FollowsScheduleAt(drops: seq<Drop>, seats: seq<Seat>, gameType: int, maxDepth: int,
                                             search: SearchRule, accepts: SetRule, i: nat)
    requires FollowsSchedule(drops, seats, gameType, maxDepth, search, accepts) && i < |drops|
    ensures OnSchedule(drops[..i], drops[i], seats[i], gameType, maxDepth, search, accepts)
    decreases |drops|
  {
    var n := |drops| - 1;
    if i < n {
      FollowsScheduleAt(drops[..n], seats[..n], gameType, maxDepth, search, accepts, i);
      assert drops[..n][..i] == drops[..i];
    }
  }

  /** A game on schedule holds only players' checkers in board columns. */
  lemma ScheduledIsWellFormed(drops: seq<Drop>, seats: seq<Seat>, gameType: int, maxDepth: int,
                              search: SearchRule, accepts: SetRule)
    requires FollowsSchedule(drops, seats, gameType, maxDepth, search, accepts)
    ensures WellFormed(drops)
  {
    forall i | 0 <= i < |drops|
      ensures 0 <= drops[i].column < COLUMNS && IsPlayer(drops[i].mark)
    {
      FollowsScheduleAt(drops, seats, gameType, maxDepth, search, accepts, i);
    }
  }

  /** One more play made by the right side from the right seat keeps a game on schedule. */
  lemma FollowsScheduleExtend(drops: seq<Drop>, seats: seq<Seat>, gameType: int, maxDepth: int,
                              search: SearchRule, accepts: SetRule, d: Drop, seat: Seat)
    requires FollowsSchedule(drops, seats, gameType, maxDepth, search, accepts)
    requires d.mark == PlayerAt(|drops|) && seat == SeatOf(gameType, |drops|)
    requires Legal(drops, d, seat, maxDepth, search, accepts)
    ensures FollowsSchedule(drops + [d], seats + [seat], gameType, maxDepth, search, accepts)
  {
    assert (drops + [d])[..|drops|] == drops;
    assert (seats + [seat])[..|seats|] == seats;
  }

  /** No position of the game before its last play had a winner. */
  ghost predicate NoEarlierWinner(drops: seq<Drop>, winnerOf: WinnerRule)
    decreases |drops|
  {
    |drops| > 1 ==>
      var n := |drops| - 1;
      NoEarlierWinner(drops[..n], winnerOf) && winnerOf(drops[..n]) == Unmarked
  }

  /** What `NoEarlierWinner` says of the position after the first `k` plays. */
  lemma {:induction false} NoEarlierWinnerAt(drops: seq<Drop>, winnerOf: WinnerRule, k: nat)
    requires NoEarlierWinner(drops, winnerOf) && 0 < k < |drops|
    ensures winnerOf(drops[..k]) == Unmarked
    decreases |drops|
  {
    var n := |drops| - 1;
    if k < n {
      NoEarlierWinnerAt(drops[..n], winnerOf, k);
      assert drops[..n][..k] == drops[..k];
    }
  }

  /** A play after a position without a winner leaves every position before it without one. */
  lemma NoWinnerExtend(drops: seq<Drop>, d: Drop, winnerOf: WinnerRule)
    requires NoEarlierWinner(drops, winnerOf) && (|drops| > 0 ==> winnerOf(drops) == Unmarked)
    ensures NoEarlierWinner(drops + [d], winnerOf)
  {
    assert (drops + [d])[..|drops|] == drops;
  }

  /** The first console line after the turns recorded in `ends`, where `ends[i]` is the first line not read by play `i`. */
  function LastEnd(ends: seq<nat>): nat {
    if ends == [] then 0 else ends[|ends| - 1]
  }

  /** Where play `i` started reading: where play `i - 1` stopped, or the first line. */
  function StartOf(ends: seq<nat>, i: nat): nat
    requires i <= |ends|
  {
    if i == 0 then 0 else ends[i - 1]
  }

  /**
   * How a finished prefix of a game consumed the console: each play read the
   * lines from where the previous one stopped (the first line for play 0) up to
   * its entry in `ends`.
   */
  ghost predicate ReadsLines(lines: seq<Option<int>>, drops: seq<Drop>, seats: seq<Seat>, ends: seq<nat>,
                             accepts: SetRule)
    decreases |ends|
  {
    && |ends| == |drops| == |seats|
    && (|ends| > 0 ==>
          var n := |ends| - 1;
          && ReadsLines(lines, drops[..n], seats[..n], ends[..n], accepts)
          && ReadPlay(lines, LastEnd(ends[..n]), ends[n], drops[..n], drops[n], seats[n], accepts))
  }

  /** What the record says of play `i`: it read lines `StartOf(ends, i)` up to `ends[i]` as `ReadPlay` describes. */
  lemma {:induction false} ReadsLinesAt(lines: seq<Option<int>>, drops: seq<Drop>, seats: seq<Seat>, ends: seq<nat>,
                                        accepts: SetRule, i: nat)
    requires ReadsLines(lines, drops, seats, ends, accepts) && i < |ends|
    ensures ReadPlay(lines, StartOf(ends, i), ends[i], drops[..i], drops[i], seats[i], accepts)
    decreases |ends|
  {
    var n := |ends| - 1;
    if i < n {
      ReadsLinesAt(lines, drops[..n], seats[..n], ends[..n], accepts, i);
      assert drops[..n][..i] == drops[..i];
    } else {
      assert ends[..n] == [] || LastEnd(ends[..n]) == ends[n - 1];
    }
  }

  /** A turn that reads the console as `doPlayerMove` does, or not at all for the computer, extends the record. */
  lemma ReadsLinesExtend(lines: seq<Option<int>>, drops: seq<Drop>, seats: seq<Seat>, ends: seq<nat>,
                         accepts: SetRule, d: Drop, seat: Seat, end: nat)
    requires ReadsLines(lines, drops, seats, ends, accepts)
    requires ReadPlay(lines, LastEnd(ends), end, drops, d, seat, accepts)
    ensures ReadsLines(lines, drops + [d], seats + [seat], ends + [end], accepts)
    ensures LastEnd(ends + [end]) == end
  {
    assert (drops + [d])[..|drops|] == drops;
    assert (seats + [seat])[..|seats|] == seats;
    assert (ends + [end])[..|ends|] == ends;
  }

  /**
   * The game loop of `main`, for a configuration that `parseArgs` produced.
   * Returns how the game ended, the checkers dropped in order and who dropped each,
   * the first console line left unread after each play, and the first line never read.
   */
  method Play(config: ConnectFourConfig, lines: seq<Option<int>>, search: SearchRule, accepts: SetRule,
              winnerOf: WinnerRule)
    returns (end: GameEnd, drops: seq<Drop>, seats: seq<Seat>, ends: seq<nat>, pos: nat)
    ensures |drops| == |seats| <= ROWS * COLUMNS
    ensures ReadsLines(lines, drops, seats, ends, accepts)
    ensures pos == if end.InputExhausted? then |lines| else LastEnd(ends)
    ensures FollowsSchedule(drops, seats, config.gameType, config.maxDepth, search, accepts)
    ensures NoEarlierWinner(drops, winnerOf)
    ensures end.Won? <==> 0 < |drops| && winnerOf(drops) != Unmarked
    ensures end.Won? ==> end.winner == winnerOf(drops)
    ensures end.Tie? ==> |drops| == ROWS * COLUMNS
    ensures end.InputExhausted? ==> |drops| < ROWS * COLUMNS && SeatOf(config.gameType, |drops|) == Human
    ensures end.InputExhausted? ==> pos == |lines|
    ensures end.InputExhausted? ==> LastEnd(ends) <= |lines|
    ensures end.InputExhausted? ==> AllRefused(lines, LastEnd(ends), |lines|, drops, PlayerAt(|drops|), accepts)
    ensures end.Crashed? ==> |drops| < ROWS * COLUMNS && SeatOf(config.gameType, |drops|) == Computer
    ensures end.Crashed? ==>
              var col := search(drops, PlayerAt(|drops|), config.maxDepth);
              && !(0 <= col < COLUMNS && accepts(drops, col, PlayerAt(|drops|)))
              && end.error == if 0 <= col < COLUMNS then Refused(col) else InvalidColumn(col)
  {
    var game := new ConnectFour(config.GetGameType(), config.GetMaxDepth());
    var maxPlays, numPlays, gameType := game.GetMaxPlays(), game.plays, game.gameType;
    pos, ends := 0, [];
    drops, seats := [], [];
    end := Tie;
    while numPlays < maxPlays
      invariant fresh(game) && fresh(game.board) && game.Valid()
      invariant game.gameType == gameType == config.gameType && game.maxDepth == config.maxDepth
      invariant drops == game.board.drops && numPlays == game.plays == |drops| <= maxPlays
      invariant game.player == AfterSwitches(numPlays)
      invariant ReadsLines(lines, drops, seats, ends, accepts) && pos == LastEnd(ends) <= |lines|
      invariant FollowsSchedule(drops, seats, gameType, config.maxDepth, search, accepts)
      invariant NoEarlierWinner(drops, winnerOf) && (numPlays > 0 ==> winnerOf(drops) == Unmarked)
      invariant end == Tie
      decreases maxPlays - numPlays
    {
      var player := game.player;
      AfterSwitchesParity(numPlays);
      var seat := SeatOf(gameType, numPlays);
      var turn;
      turn, pos := TakeTurn(game, seat, lines, pos, search, accepts);
      if !turn.Placed? {
        end := if turn.OutOfInput? then InputExhausted else Crashed(turn.error);
        break;
      }
      var d := Drop(turn.column, player);
      FollowsScheduleExtend(drops, seats, gameType, config.maxDepth, search, accepts, d, seat);
      NoWinnerExtend(drops, d, winnerOf);
      ReadsLinesExtend(lines, drops, seats, ends, accepts, d, seat, pos);
      drops, seats, ends := drops + [d], seats + [seat], ends + [pos];
      var winner := winnerOf(drops);
      if winner != Unmarked {
        end := Won(winner);
        break;
      }
      game.SwitchPlayers();
      numPlays := game.plays;
    }
  }
}
