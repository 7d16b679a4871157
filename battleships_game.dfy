/**
 * The battleship user interface: it checks the board size, places the fleet, shows a board of
 * hidden cells, and then takes one shot per turn, marking the board and counting sunk boats
 * until all five are sunk. Reading and printing are not modelled: a turn receives what the C
 * sscanf produced (the number of fields matched, the row letter and the column number).
 */
module BattleshipsGame {
  import opened Wrappers
  import opened Battleships

  const HIT_SYMBOL := 'X'
  const MISS_SYMBOL := 'o'
  const HIDDEN_SYMBOL := '_'

  /** The row letter 'a' stands for row 0. */
  const LETTERS_SHIFT := 97
  const MAX_SIZE := 25
  const MIN_SIZE := 5

  /** The board sizes the program accepts. */
  predicate ValidBoardSize(size: int)
  {
    MIN_SIZE <= size <= MAX_SIZE
  }

  /** The mark a shot leaves on its cell. */
  function MarkFor(r: ShotResult): char
  {
    if r == Miss then MISS_SYMBOL else HIT_SYMBOL
  }

  // --------------------------------------------------------- the board as a value

  /** The marks of a size-by-size board, as rows. */
  predicate IsBoard(marks: seq<seq<char>>, size: int)
  {
    |marks| == size && forall i :: 0 <= i < |marks| ==> |marks[i]| == size
  }

  /** The board with cell c given the mark sym. */
  function Mark(marks: seq<seq<char>>, c: Coord, sym: char): seq<seq<char>>
    requires 0 <= c.x < |marks| && 0 <= c.y < |marks[c.x]|
  {
    marks[c.x := marks[c.x][c.y := sym]]
  }

  /** Cell c is on the board and marked as hit. */
  predicate IsHit(marks: seq<seq<char>>, c: Coord)
  {
    0 <= c.x < |marks| && 0 <= c.y < |marks[c.x]| && marks[c.x][c.y] == HIT_SYMBOL
  }

  /** How many of the coordinates are marked as hit on the board. */
  function HitsOn(marks: seq<seq<char>>, cs: seq<Coord>): nat
  {
    if |cs| == 0 then 0
    else HitsOn(marks, cs[..|cs| - 1]) + (if IsHit(marks, cs[|cs| - 1]) then 1 else 0)
  }

  /** How many boats have taken as many hits as they are long. */
  function SunkCount(boats: seq<Boat>): nat
  {
    if |boats| == 0 then 0
    else SunkCount(boats[..|boats| - 1]) + (if boats[|boats| - 1].count == boats[|boats| - 1].size then 1 else 0)
  }

  /** No more cells are marked as hit than there are coordinates. */
  lemma {:induction false} HitsOnBound(marks: seq<seq<char>>, cs: seq<Coord>)
    ensures HitsOn(marks, cs) <= |cs|
  {
    if |cs| > 0 {
      HitsOnBound(marks, cs[..|cs| - 1]);
    }
  }

  /** On a board where nothing is marked as hit, no coordinate counts. */
  lemma {:induction false} HitsOnHidden(marks: seq<seq<char>>, cs: seq<Coord>)
    requires forall i, j :: 0 <= i < |marks| && 0 <= j < |marks[i]| ==> marks[i][j] == HIDDEN_SYMBOL
    ensures HitsOn(marks, cs) == 0
  {
    if |cs| > 0 {
      HitsOnHidden(marks, cs[..|cs| - 1]);
    }
  }

  /**
   * Marking a cell that was not marked as hit: with the hit mark, every occurrence of that cell
   * among the coordinates now counts; with any other mark the count stays.
   */
  lemma {:induction false} HitsOnMark(marks: seq<seq<char>>, cs: seq<Coord>, c: Coord, sym: char)
    requires 0 <= c.x < |marks| && 0 <= c.y < |marks[c.x]| && !IsHit(marks, c)
    ensures HitsOn(Mark(marks, c, sym), cs) == HitsOn(marks, cs) + (if sym == HIT_SYMBOL then multiset(cs)[c] else 0)
  {
    if |cs| > 0 {
      var front := cs[..|cs| - 1];
      HitsOnMark(marks, front, c, sym);
      assert cs == front + [cs[|cs| - 1]];
    }
  }

  /** A coordinate list without repeats holds each coordinate at most once. */
  lemma {:induction false} DistinctOnce(cs: seq<Coord>, c: Coord)
    requires Distinct(cs)
    ensures multiset(cs)[c] == if c in cs then 1 else 0
  {
    if |cs| > 0 {
      var front := cs[..|cs| - 1];
      DistinctOnce(front, c);
      assert cs == front + [cs[|cs| - 1]];
      if cs[|cs| - 1] == c {
        assert c !in front;
      }
    }
  }

  /** Replacing one boat moves the sunk count by the change in that boat's sunk state. */
  lemma {:induction false} SunkCountUpdate(boats: seq<Boat>, k: int, b: Boat)
    requires 0 <= k < |boats|
    ensures SunkCount(boats[k := b]) + (if boats[k].count == boats[k].size then 1 else 0)
         == SunkCount(boats) + (if b.count == b.size then 1 else 0)
  {
    var n := |boats|;
    if k < n - 1 {
      SunkCountUpdate(boats[..n - 1], k, b);
      assert boats[k := b][..n - 1] == boats[..n - 1][k := b];
    } else {
      assert boats[k := b][..n - 1] == boats[..n - 1];
    }
  }

  /** The sunk count never exceeds the number of boats, and reaches it exactly when every boat is sunk. */
  lemma {:induction false} AllSunk(boats: seq<Boat>)
    ensures SunkCount(boats) <= |boats|
    ensures SunkCount(boats) == |boats| <==> forall k :: 0 <= k < |boats| ==> boats[k].count == boats[k].size
  {
    if |boats| > 0 {
      var front := boats[..|boats| - 1];
      AllSunk(front);
      assert forall k :: 0 <= k < |front| ==> front[k] == boats[k];
    }
  }

  /** With no boat at its full count, nothing is sunk. */
  lemma {:induction false} NoneSunk(boats: seq<Boat>)
    requires forall k :: 0 <= k < |boats| ==> boats[k].count != boats[k].size
    ensures SunkCount(boats) == 0
  {
    if |boats| > 0 {
      NoneSunk(boats[..|boats| - 1]);
    }
  }

  /**
   * The game state the turns keep: the boats are placed, each boat's hit counter is the number
   * of its cells marked as hit, and the sunk counter is the number of sunk boats.
   */
  predicate Consistent(boats: seq<Boat>, marks: seq<seq<char>>, size: int, sunk: int)
  {
    && |boats| == BOATS_NUMBER
    && PlacedUpTo(boats, size, BOATS_NUMBER)
    && IsBoard(marks, size)
    && (forall k :: 0 <= k < |boats| ==> boats[k].count == HitsOn(marks, boats[k].coord))
    && sunk == SunkCount(boats)
  }

  /** In a consistent state the sunk counter is at most BOATS_NUMBER, and equals it exactly when all boats are sunk. */
  lemma ConsistentSunk(boats: seq<Boat>, marks: seq<seq<char>>, size: int, sunk: int)
    requires Consistent(boats, marks, size, sunk)
    ensures 0 <= sunk <= BOATS_NUMBER
    ensures sunk == BOATS_NUMBER <==> forall k :: 0 <= k < BOATS_NUMBER ==> boats[k].count == boats[k].size
  {
    AllSunk(boats);
  }

  /** Changing hit counters only leaves the placement as it was. */
  lemma SameLayout(boats: seq<Boat>, boats': seq<Boat>, size: int, k: int)
    requires |boats'| == |boats| && PlacedUpTo(boats, size, k)
    requires forall b :: 0 <= b < |boats| ==> boats'[b].coord == boats[b].coord && boats'[b].size == boats[b].size
    ensures PlacedUpTo(boats', size, k)
  {
  }

  /** A miss is off every boat, and its mark is not a hit mark, so no hit counter is due to move. */
  lemma MissKeepsHits(boats: seq<Boat>, marks: seq<seq<char>>, c: Coord)
    requires 0 <= c.x < |marks| && 0 <= c.y < |marks[c.x]| && !IsHit(marks, c)
    requires forall k :: 0 <= k < |boats| ==> boats[k].count == HitsOn(marks, boats[k].coord)
    ensures forall k :: 0 <= k < |boats| ==> boats[k].count == HitsOn(Mark(marks, c, MISS_SYMBOL), boats[k].coord)
  {
    forall k | 0 <= k < |boats| ensures boats[k].count == HitsOn(Mark(marks, c, MISS_SYMBOL), boats[k].coord) {
      HitsOnMark(marks, boats[k].coord, c, MISS_SYMBOL);
    }
  }

  /**
   * A hit on a placed fleet: marking the cell as hit adds one to the marked cells of the boat
   * that owns it and to no other boat, just as the shot adds one to that boat's counter.
   */
  lemma HitKeepsHits(boats: seq<Boat>, marks: seq<seq<char>>, size: int, c: Coord)
    requires |boats| == BOATS_NUMBER && PlacedUpTo(boats, size, BOATS_NUMBER)
    requires 0 <= c.x < |marks| && 0 <= c.y < |marks[c.x]| && !IsHit(marks, c)
    requires Occupied(boats, c)
    requires forall k :: 0 <= k < |boats| ==> boats[k].count == HitsOn(marks, boats[k].coord)
    ensures var boats' := AfterShot(boats, c);
      forall k :: 0 <= k < |boats| ==> boats'[k].count == HitsOn(Mark(marks, c, HIT_SYMBOL), boats'[k].coord)
  {
    var boats' := AfterShot(boats, c);
    var owner := FirstOwner(boats, c);
    PlacedOwnerUnique(boats, size, owner, c);
    forall k | 0 <= k < |boats| ensures boats'[k].count == HitsOn(Mark(marks, c, HIT_SYMBOL), boats'[k].coord) {
      HitsOnMark(marks, boats[k].coord, c, HIT_SYMBOL);
      if k == owner {
        DistinctOnce(boats[k].coord, c);
      }
    }
  }

  /** The sunk count after a hit: it rises by one exactly when the owner's new count reaches its size. */
  lemma HitSunkCount(boats: seq<Boat>, marks: seq<seq<char>>, size: int, c: Coord)
    requires |boats| == BOATS_NUMBER && PlacedUpTo(boats, size, BOATS_NUMBER)
    requires 0 <= c.x < |marks| && 0 <= c.y < |marks[c.x]| && !IsHit(marks, c)
    requires Occupied(boats, c)
    requires forall k :: 0 <= k < |boats| ==> boats[k].count == HitsOn(marks, boats[k].coord)
    ensures SunkCount(AfterShot(boats, c)) == SunkCount(boats) + (if ShotOutcome(boats, c) == Sunk then 1 else 0)
  {
    var owner := FirstOwner(boats, c);
    var boats' := AfterShot(boats, c);
    HitKeepsHits(boats, marks, size, c);
    HitsOnBound(Mark(marks, c, HIT_SYMBOL), boats[owner].coord);
    SunkCountUpdate(boats, owner, boats'[owner]);
  }

  /**
   * A shot at an on-board cell not yet marked as hit, followed by its mark and the sunk-counter
   * rule, keeps the state consistent.
   */
  lemma ShotKeepsConsistent(boats: seq<Boat>, marks: seq<seq<char>>, size: int, sunk: int, c: Coord)
    requires Consistent(boats, marks, size, sunk)
    requires 0 <= c.x < size && 0 <= c.y < size && !IsHit(marks, c)
    ensures var r := ShotOutcome(boats, c);
      Consistent(AfterShot(boats, c), Mark(marks, c, MarkFor(r)), size, sunk + (if r == Sunk then 1 else 0))
  {
    var r := ShotOutcome(boats, c);
    var boats' := AfterShot(boats, c);
    var marks' := Mark(marks, c, MarkFor(r));
    assert PlacedUpTo(boats', size, BOATS_NUMBER) by {
      SameLayout(boats, boats', size, BOATS_NUMBER);
    }
    assert forall k :: 0 <= k < |boats'| ==> boats'[k].count == HitsOn(marks', boats'[k].coord) by {
      if Occupied(boats, c) {
        HitKeepsHits(boats, marks, size, c);
      } else {
        MissKeepsHits(boats, marks, c);
      }
    }
    assert SunkCount(boats') == sunk + (if r == Sunk then 1 else 0) by {
      if Occupied(boats, c) {
        HitSunkCount(boats, marks, size, c);
      }
    }
  }

  // ---------------------------------------------------------------- the board

  /** The marks of a board array, as rows. */
  function Marks(board: array2<char>): (m: seq<seq<char>>)
    reads board
    ensures |m| == board.Length0 && forall i :: 0 <= i < |m| ==> |m[i]| == board.Length1
    ensures forall i, j :: 0 <= i < board.Length0 && 0 <= j < board.Length1 ==> m[i][j] == board[i, j]
  {
    seq(board.Length0, i requires 0 <= i < board.Length0 reads board =>
      seq(board.Length1, j requires 0 <= j < board.Length1 reads board => board[i, j]))
  }

  /** Boards with the same rows, row lengths and cells are the same board. */
  lemma MarksExtensional(a: seq<seq<char>>, b: seq<seq<char>>)
    requires |a| == |b| && forall i :: 0 <= i < |a| ==> |a[i]| == |b[i]|
    requires forall i, j :: 0 <= i < |a| && 0 <= j < |a[i]| ==> a[i][j] == b[i][j]
    ensures a == b
  {
    forall i | 0 <= i < |a| ensures a[i] == b[i] {
    }
  }

  /** A size-by-size board with every cell hidden. */
  method CreateBoard(size: nat) returns (board: array2<char>)
    ensures fresh(board)
    ensures board.Length0 == size && board.Length1 == size
    ensures forall i, j :: 0 <= i < size && 0 <= j < size ==> board[i, j] == HIDDEN_SYMBOL
  {
    board := new char[size, size];
    for i := 0 to size
      invariant forall i', j :: 0 <= i' < i && 0 <= j < size ==> board[i', j] == HIDDEN_SYMBOL
    {
      for j := 0 to size
        invariant forall i', j' :: 0 <= i' < i && 0 <= j' < size ==> board[i', j'] == HIDDEN_SYMBOL
        invariant forall j' :: 0 <= j' < j ==> board[i, j'] == HIDDEN_SYMBOL
      {
        board[i, j] := HIDDEN_SYMBOL;
      }
    }
  }

  /** Write one mark on the board; the board as a value changes at that cell only. */
  method SetMark(board: array2<char>, row: int, col: int, sym: char)
    requires 0 <= row < board.Length0 && 0 <= col < board.Length1
    modifies board
    ensures Marks(board) == Mark(old(Marks(board)), Coord(row, col), sym)
  {
    ghost var before := Marks(board);
    board[row, col] := sym;
    MarksExtensional(Marks(board), Mark(before, Coord(row, col), sym));
  }

  // ----------------------------------------------------------------- a turn

  /** What a turn did: refused the input, found the cell already hit, or fired with this result. */
  datatype Move = Invalid | AlreadyHit | Fired(result: ShotResult)

  /** One line of input: the exit command, or what sscanf made of a coordinate line. */
  datatype Input = Exit | Coordinates(matched: int, row: char, number: int)

  /** The board row a row letter names. */
  function Row(cRow: char): int
  {
    cRow as int - LETTERS_SHIFT
  }

  /** The board column a column number names (the user counts from 1). */
  function Col(number: int): int
  {
    number - 1
  }

  /** A turn's input is a move: both fields were read and the cell is on the board. */
  predicate ValidMove(size: int, matched: int, row: int, col: int)
  {
    matched == 2 && 0 <= row < size && 0 <= col < size
  }

  /** The state turns change, as values: the boats, the board's marks and the sunk counter. */
  datatype GameState = GameState(boats: seq<Boat>, marks: seq<seq<char>>, sunk: int)

  /**
   * One turn on a size-by-size board, as a function of the state: the exit command and an
   * input that is not a move change nothing, nor does a cell already marked as hit; otherwise
   * the shot is fired, its cell gets the result's mark and a sunk boat adds one to the counter.
   */
  function TurnOn(size: int, st: GameState, line: Input): (r: GameState)
    requires IsBoard(st.marks, size)
    ensures IsBoard(r.marks, size)
  {
    match line
    case Exit => st
    case Coordinates(matched, cRow, number) =>
      var c := Coord(Row(cRow), Col(number));
      if !ValidMove(size, matched, c.x, c.y) || st.marks[c.x][c.y] == HIT_SYMBOL then st
      else
        var res := ShotOutcome(st.boats, c);
        GameState(AfterShot(st.boats, c), Mark(st.marks, c, MarkFor(res)), st.sunk + (if res == Sunk then 1 else 0))
  }

  /** Where a game stands: its state, and how many input lines have been read. */
  datatype Session = Session(state: GameState, used: nat)

  /**
   * The game loop as a function of the state and the input lines: no line is read once every
   * boat is sunk or the lines are used up; an "exit" line is read and ends the game; any
   * other line is read and taken as one turn, and the game goes on with the lines after it.
   */
  function RunGame(size: int, st: GameState, lines: seq<Input>): (r: Session)
    requires IsBoard(st.marks, size)
    ensures IsBoard(r.state.marks, size) && r.used <= |lines|
    decreases |lines|
  {
    if |lines| == 0 || st.sunk >= BOATS_NUMBER then Session(st, 0)
    else if lines[0] == Exit then Session(st, 1)
    else
      var rest := RunGame(size, TurnOn(size, st, lines[0]), lines[1..]);
      Session(rest.state, rest.used + 1)
  }

  /** A turn keeps the game state consistent and never lowers the sunk counter. */
  lemma TurnOnConsistent(size: int, st: GameState, line: Input)
    requires Consistent(st.boats, st.marks, size, st.sunk)
    ensures var r := TurnOn(size, st, line);
      Consistent(r.boats, r.marks, size, r.sunk) && st.sunk <= r.sunk
  {
    if line.Coordinates? {
      var c := Coord(Row(line.row), Col(line.number));
      if ValidMove(size, line.matched, c.x, c.y) && st.marks[c.x][c.y] != HIT_SYMBOL {
        ShotKeepsConsistent(st.boats, st.marks, size, st.sunk, c);
      }
    }
  }

  /** From a consistent state the game keeps the state consistent and never lowers the sunk counter. */
  lemma {:induction false} RunGameConsistent(size: int, st: GameState, lines: seq<Input>)
    requires Consistent(st.boats, st.marks, size, st.sunk)
    ensures var r := RunGame(size, st, lines);
      Consistent(r.state.boats, r.state.marks, size, r.state.sunk) && st.sunk <= r.state.sunk
    decreases |lines|
  {
    if |lines| > 0 && st.sunk < BOATS_NUMBER && lines[0] != Exit {
      TurnOnConsistent(size, st, lines[0]);
      RunGameConsistent(size, TurnOn(size, st, lines[0]), lines[1..]);
    }
  }

  /**
   * No line before the last one the game reads is "exit", and the game stops before the lines
   * run out only once the sunk counter has reached BOATS_NUMBER or on an "exit" line.
   */
  lemma {:induction false} RunGameStops(size: int, st: GameState, lines: seq<Input>)
    requires IsBoard(st.marks, size)
    ensures var r := RunGame(size, st, lines);
      && (0 < r.used ==> Exit !in lines[..r.used - 1])
      && (r.used < |lines| ==> r.state.sunk >= BOATS_NUMBER || (0 < r.used && lines[r.used - 1] == Exit))
    decreases |lines|
  {
    if |lines| > 0 && st.sunk < BOATS_NUMBER && lines[0] != Exit {
      var next := TurnOn(size, st, lines[0]);
      RunGameStops(size, next, lines[1..]);
      var rest := RunGame(size, next, lines[1..]);
      if 0 < rest.used {
        assert lines[..rest.used] == [lines[0]] + lines[1..][..rest.used - 1];
      }
    }
  }

  /** A game in progress: the board the player sees, the fleet, and the number of sunk boats. */
  class Game {
    const size: int
    const fleet: Fleet
    var board: array2<char>
    var sunkCounter: int

    /** The state turns change, as a value. */
    ghost function State(): GameState
      reads this, board, fleet, fleet.myBoats
    {
      GameState(fleet.myBoats[..], Marks(board), sunkCounter)
    }

    ghost predicate Valid()
      reads this, board, fleet, fleet.myBoats
    {
      && ValidBoardSize(size)
      && fleet.Valid() && fleet.boardSize == size
      && board.Length0 == size && board.Length1 == size
      && 0 <= sunkCounter <= BOATS_NUMBER
      && Consistent(fleet.myBoats[..], Marks(board), size, sunkCounter)
    }

    /** Start a game over a placed fleet whose boats have not been hit: a hidden board and no boat sunk. */
    constructor Start(fleet: Fleet)
      requires fleet.Valid() && ValidBoardSize(fleet.boardSize)
      requires PlacedUpTo(fleet.myBoats[..], fleet.boardSize, BOATS_NUMBER)
      requires forall k :: 0 <= k < BOATS_NUMBER ==> fleet.myBoats[k].count == 0 && fleet.myBoats[k].size > 0
      ensures Valid() && this.fleet == fleet && size == fleet.boardSize && sunkCounter == 0 && fresh(board)
      ensures forall i, j :: 0 <= i < size && 0 <= j < size ==> board[i, j] == HIDDEN_SYMBOL
    {
      size := fleet.boardSize;
      this.fleet := fleet;
      var b := CreateBoard(fleet.boardSize);
      board := b;
      sunkCounter := 0;
      new;
      forall k | 0 <= k < BOATS_NUMBER ensures fleet.myBoats[k].count == HitsOn(Marks(board), fleet.myBoats[k].coord) {
        HitsOnHidden(Marks(board), fleet.myBoats[k].coord);
      }
      NoneSunk(fleet.myBoats[..]);
      ConsistentSunk(fleet.myBoats[..], Marks(board), size, sunkCounter);
    }

    /**
     * One turn on the parsed input: an input that is not a move changes nothing; a cell already
     * marked as hit fires no shot and changes nothing; otherwise the shot is fired, its cell is
     * marked 'o' on a miss and 'X' on a hit, and a sunk boat adds one to the sunk counter.
     */
    method Turn(matched: int, cRow: char, number: int) returns (move: Move)
      requires Valid()
      modifies this, board, fleet.myBoats
      ensures Valid() && board == old(board)
      ensures old(sunkCounter) <= sunkCounter <= BOATS_NUMBER
      ensures !ValidMove(size, matched, Row(cRow), Col(number)) ==>
        move == Invalid && Marks(board) == old(Marks(board)) && fleet.myBoats[..] == old(fleet.myBoats[..]) && sunkCounter == old(sunkCounter)
      ensures ValidMove(size, matched, Row(cRow), Col(number)) && old(board[Row(cRow), Col(number)]) == HIT_SYMBOL ==>
        move == AlreadyHit && Marks(board) == old(Marks(board)) && fleet.myBoats[..] == old(fleet.myBoats[..]) && sunkCounter == old(sunkCounter)
      ensures ValidMove(size, matched, Row(cRow), Col(number)) && old(board[Row(cRow), Col(number)]) != HIT_SYMBOL ==>
        var c := Coord(Row(cRow), Col(number));
        var r := ShotOutcome(old(fleet.myBoats[..]), c);
        && move == Fired(r)
        && fleet.myBoats[..] == AfterShot(old(fleet.myBoats[..]), c)
        && Marks(board) == Mark(old(Marks(board)), c, MarkFor(r))
        && sunkCounter == old(sunkCounter) + (if r == Sunk then 1 else 0)
    {
      var row := cRow as int - LETTERS_SHIFT;
      var col := number - 1;
      if matched != 2 || col > size - 1 || row > size - 1 || col < 0 || row < 0 {
        return Invalid;
      }
      if board[row, col] == HIT_SYMBOL {
        return AlreadyHit;
      }
      var isHit := Fire(row, col);
      return Fired(isHit);
    }

    /** Fire at an on-board cell not marked as hit, mark the cell by the result, and count a sunk boat. */
    method Fire(row: int, col: int) returns (isHit: ShotResult)
      requires Valid() && 0 <= row < size && 0 <= col < size && board[row, col] != HIT_SYMBOL
      modifies this, board, fleet.myBoats
      ensures Valid() && board == old(board)
      ensures old(sunkCounter) <= sunkCounter <= BOATS_NUMBER
      ensures isHit == ShotOutcome(old(fleet.myBoats[..]), Coord(row, col))
      ensures fleet.myBoats[..] == AfterShot(old(fleet.myBoats[..]), Coord(row, col))
      ensures Marks(board) == Mark(old(Marks(board)), Coord(row, col), MarkFor(isHit))
      ensures sunkCounter == old(sunkCounter) + (if isHit == Sunk then 1 else 0)
    {
      ghost var marks := Marks(board);
      ghost var boats := fleet.myBoats[..];
      ghost var sunk := sunkCounter;
      ghost var c := Coord(row, col);
      ShotKeepsConsistent(boats, marks, size, sunk, c);
      isHit := fleet.Shot(row, col);
      if isHit == Miss {
        SetMark(board, row, col, MISS_SYMBOL);
      } else if isHit == Hit {
        SetMark(board, row, col, HIT_SYMBOL);
      } else {
        SetMark(board, row, col, HIT_SYMBOL);
        sunkCounter := sunkCounter + 1;
      }
      assert Marks(board) == Mark(marks, c, MarkFor(isHit));
      assert sunkCounter == sunk + (if isHit == Sunk then 1 else 0);
      assert fleet.myBoats[..] == AfterShot(boats, c);
      assert Consistent(fleet.myBoats[..], Marks(board), size, sunkCounter);
      ConsistentSunk(fleet.myBoats[..], Marks(board), size, sunkCounter);
    }

    /** A coordinate line taken as one turn: the new state is the one TurnOn gives. */
    method TakeTurn(line: Input)
      requires Valid() && line.Coordinates?
      modifies this, board, fleet.myBoats
      ensures Valid() && board == old(board) && old(sunkCounter) <= sunkCounter
      ensures State() == TurnOn(size, old(State()), line)
    {
      var _ := Turn(line.matched, line.row, line.number);
    }

    /**
     * Read line k of the game, some boat being afloat: an "exit" line ends the game with the
     * state as it is; any other line is taken as one turn, and the game goes on from line k + 1.
     */
    method ReadLine(inputs: seq<Input>, k: nat, ghost st0: GameState) returns (exited: bool)
      requires Valid() && k < |inputs| && sunkCounter < BOATS_NUMBER && IsBoard(st0.marks, size)
      requires var r := RunGame(size, State(), inputs[k..]); RunGame(size, st0, inputs) == Session(r.state, r.used + k)
      modifies this, board, fleet.myBoats
      ensures Valid() && board == old(board) && old(sunkCounter) <= sunkCounter
      ensures exited <==> inputs[k] == Exit
      ensures exited ==> RunGame(size, st0, inputs) == Session(State(), k + 1)
      ensures !exited ==> var r := RunGame(size, State(), inputs[k + 1..]);
        RunGame(size, st0, inputs) == Session(r.state, r.used + k + 1)
    {
      var line := inputs[k];
      assert inputs[k..][1..] == inputs[k + 1..];
      exited := line == Exit;
      if !exited {
        ghost var before := State();
        ghost var rest := RunGame(size, TurnOn(size, before, line), inputs[k + 1..]);
        assert RunGame(size, before, inputs[k..]) == Session(rest.state, rest.used + 1);
        TakeTurn(line);
      }
    }

    /**
     * The game loop: take turns while some boat is afloat, one input line per turn; the exit
     * command ends the game at once. The state afterwards and the number of lines read are
     * those RunGame gives; over says every boat was sunk. The C loop reads without end; here
     * the lines are a list, and the loop also stops when it runs out.
     */
    method Play(inputs: seq<Input>) returns (over: bool, used: nat)
      requires Valid()
      modifies this, board, fleet.myBoats
      ensures Valid() && board == old(board) && used <= |inputs|
      ensures old(sunkCounter) <= sunkCounter
      ensures Session(State(), used) == RunGame(size, old(State()), inputs)
      ensures 0 < used ==> Exit !in inputs[..used - 1]
      ensures over <==> sunkCounter == BOATS_NUMBER
      ensures over ==> forall k :: 0 <= k < BOATS_NUMBER ==> fleet.myBoats[k].count == fleet.myBoats[k].size
      ensures !over ==> used == |inputs| || (0 < used && inputs[used - 1] == Exit)
    {
      ghost var st0 := State();
      used := 0;
      while sunkCounter < BOATS_NUMBER && used < |inputs|
        invariant Valid() && board == old(board) && used <= |inputs| && old(sunkCounter) <= sunkCounter
        invariant var r := RunGame(size, State(), inputs[used..]);
          RunGame(size, st0, inputs) == Session(r.state, r.used + used)
        decreases |inputs| - used
      {
        var exited := ReadLine(inputs, used, st0);
        if exited {
          RunGameStops(size, st0, inputs);
          return false, used + 1;
        }
        used := used + 1;
      }
      RunGameStops(size, st0, inputs);
      ConsistentSunk(fleet.myBoats[..], Marks(board), size, sunkCounter);
      over := sunkCounter == BOATS_NUMBER;
    }
  }

  /**
   * The start of the program: refuse a board size outside 5..25, place the fleet from the
   * given draws, and start a game on a hidden board. For an accepted size a game is returned
   * exactly when Placement of the five unplaced boats succeeds, with the boats it gives.
   */
  method NewGame(size: int, attempts: seq<Attempt>) returns (r: Option<Game>)
    requires forall t :: 0 <= t < |attempts| ==> ValidAttempt(attempts[t])
    ensures !ValidBoardSize(size) ==> r.None?
    ensures ValidBoardSize(size) ==> (r.Some? <==> Placement(Unplaced(), size, 0, attempts).Some?)
    ensures r.Some? ==> r.value.fleet.myBoats[..] == Placement(Unplaced(), size, 0, attempts).value
    ensures r.Some? ==> fresh(r.value) && fresh(r.value.board) && fresh(r.value.fleet) && fresh(r.value.fleet.myBoats)
    ensures r.Some? ==> r.value.Valid() && r.value.size == size && r.value.sunkCounter == 0
    ensures r.Some? ==> forall i, j :: 0 <= i < size && 0 <= j < size ==> r.value.board[i, j] == HIDDEN_SYMBOL
  {
    if size < MIN_SIZE || size > MAX_SIZE {
      return None;
    }
    var fleet, ok, _ := NewFleet(size, attempts);
    if !ok {
      return None;
    }
    var game := new Game.Start(fleet);
    r := Some(game);
  }
}
