/**
 * The battleship game logic: five boats of lengths 5, 4, 3, 3 and 2, each a list of board
 * coordinates and a counter of hits, placed one after the other on a square board so that
 * no two boats share a cell, and a shot that finds the first boat on a cell and counts a
 * hit on it. The C program keeps the boats and the board size in globals; here they are the
 * fields of a Fleet. rand() is replaced by a stream of attempts given by the caller.
 */
module Battleships {
  import opened Wrappers

  const BOATS_NUMBER := 5

  /** The coordinate value of a cell that is not placed yet. */
  const NULL_COORD := -1

  /** The lengths of the five boats, in order. */
  const BOAT_SIZES: seq<nat> := [5, 4, 3, 3, 2]

  datatype Coord = Coord(x: int, y: int)

  const NullCoord := Coord(NULL_COORD, NULL_COORD)

  /** A boat: its length, one coordinate per cell, and the number of hits it has taken. */
  datatype Boat = Boat(size: nat, coord: seq<Coord>, count: int)

  /** The answer of a shot; the C codes are MISS 0, HIT 1 and SUNK 2. */
  datatype ShotResult = Miss | Hit | Sunk

  /** One draw of the placement: orientation (0 along x, 1 along y) and a start cell. */
  datatype Attempt = Attempt(orientation: int, x: int, y: int)

  /**
   * The draws admitted: orientation 0 or 1 and a non-negative start cell. This contains
   * everything rand() % 2 and rand() % boardSize can give, and more: a start cell at or past
   * boardSize is admitted too, and simply fails the availability check.
   */
  predicate ValidAttempt(a: Attempt)
  {
    0 <= a.orientation <= 1 && 0 <= a.x && 0 <= a.y
  }

  /** Boat b has a cell at c. */
  predicate Occupies(b: Boat, c: Coord)
  {
    c in b.coord
  }

  /** Some boat of the list has a cell at c. */
  predicate Occupied(boats: seq<Boat>, c: Coord)
  {
    exists k :: 0 <= k < |boats| && Occupies(boats[k], c)
  }

  /** The answer of the availability check: inside the board's upper bounds and on no boat. */
  predicate Free(boats: seq<Boat>, boardSize: int, c: Coord)
  {
    c.x < boardSize && c.y < boardSize && !Occupied(boats, c)
  }

  /** Cell i of a boat laid from the attempt's start cell in its orientation. */
  function Cell(a: Attempt, i: int): Coord
  {
    if a.orientation == 0 then Coord(a.x + i, a.y) else Coord(a.x, a.y + i)
  }

  /** The first size cells laid out by an attempt. */
  function Line(a: Attempt, size: nat): (cs: seq<Coord>)
    ensures |cs| == size && forall i :: 0 <= i < size ==> cs[i] == Cell(a, i)
  {
    seq(size, i => Cell(a, i))
  }

  /** The coordinates of a boat not placed yet. */
  function Nulls(size: nat): (cs: seq<Coord>)
    ensures |cs| == size && forall i :: 0 <= i < size ==> cs[i] == NullCoord
  {
    seq(size, _ => NullCoord)
  }

  /** A placement attempt succeeds when every cell it would cover is free. */
  predicate FitsAt(boats: seq<Boat>, boardSize: int, size: nat, a: Attempt)
  {
    forall i :: 0 <= i < size ==> Free(boats, boardSize, Cell(a, i))
  }

  predicate OnBoard(c: Coord, boardSize: int)
  {
    0 <= c.x < boardSize && 0 <= c.y < boardSize
  }

  /**
   * The boats before k lie on the board and no two of their cells coincide; the boats from k
   * on are not placed yet; every boat has one coordinate per unit of length.
   */
  predicate PlacedUpTo(boats: seq<Boat>, boardSize: int, k: int)
  {
    && (forall b :: 0 <= b < |boats| ==> |boats[b].coord| == boats[b].size)
    && (forall b, i :: 0 <= b < k && b < |boats| && 0 <= i < |boats[b].coord| ==> OnBoard(boats[b].coord[i], boardSize))
    && (forall b :: 0 <= b < |boats| && k <= b ==> boats[b].coord == Nulls(boats[b].size))
    && (forall b1, i1, b2, i2 ::
          0 <= b1 < k && b1 < |boats| && 0 <= b2 < k && b2 < |boats| &&
          0 <= i1 < |boats[b1].coord| && 0 <= i2 < |boats[b2].coord| && (b1 != b2 || i1 != i2)
          ==> boats[b1].coord[i1] != boats[b2].coord[i2])
  }

  /** No coordinate appears twice in the list. */
  predicate Distinct(cs: seq<Coord>)
  {
    forall i, j :: 0 <= i < |cs| && 0 <= j < |cs| && i != j ==> cs[i] != cs[j]
  }

  /** Once every boat is placed, a cell of boat k repeats in no boat: not in k, not in any other. */
  lemma PlacedOwnerUnique(boats: seq<Boat>, boardSize: int, k: int, c: Coord)
    requires PlacedUpTo(boats, boardSize, |boats|) && 0 <= k < |boats| && Occupies(boats[k], c)
    ensures Distinct(boats[k].coord)
    ensures forall k' :: 0 <= k' < |boats| && k' != k ==> !Occupies(boats[k'], c)
  {
    var i :| 0 <= i < |boats[k].coord| && boats[k].coord[i] == c;
    assert forall k', j :: 0 <= k' < |boats| && k' != k && 0 <= j < |boats[k'].coord| ==> boats[k'].coord[j] != boats[k].coord[i];
  }

  /** The lowest-index boat with a cell at c, or |boats| when there is none. */
  function FirstOwner(boats: seq<Boat>, c: Coord): (k: nat)
    ensures k <= |boats|
    ensures k < |boats| ==> Occupies(boats[k], c)
    ensures forall k' :: 0 <= k' < k ==> !Occupies(boats[k'], c)
    ensures k == |boats| <==> !Occupied(boats, c)
  {
    if |boats| == 0 then 0
    else if Occupies(boats[0], c) then 0
    else
      var k := FirstOwner(boats[1..], c);
      assert forall k' :: 1 <= k' < |boats| ==> boats[k'] == boats[1..][k' - 1];
      1 + k
  }

  /** The answer of a shot at c: MISS off every boat, else SUNK when the hit completes the first owner's count. */
  function ShotOutcome(boats: seq<Boat>, c: Coord): (r: ShotResult)
    ensures r == Miss <==> !Occupied(boats, c)
    ensures r != Miss ==> (r == Sunk <==> boats[FirstOwner(boats, c)].count + 1 == boats[FirstOwner(boats, c)].size)
  {
    var k := FirstOwner(boats, c);
    if k == |boats| then Miss
    else if boats[k].count + 1 == boats[k].size then Sunk
    else Hit
  }

  /** The boats after a shot at c: only the first owner's hit counter moves, by one. */
  function AfterShot(boats: seq<Boat>, c: Coord): (r: seq<Boat>)
    ensures |r| == |boats|
    ensures !Occupied(boats, c) ==> r == boats
    ensures Occupied(boats, c) ==>
      var k := FirstOwner(boats, c);
      && r[k] == boats[k].(count := boats[k].count + 1)
      && forall k' :: 0 <= k' < |boats| && k' != k ==> r[k'] == boats[k']
  {
    var k := FirstOwner(boats, c);
    if k == |boats| then boats else boats[k := boats[k].(count := boats[k].count + 1)]
  }

  /** Two cells of one attempt are two different cells. */
  lemma CellInjective(a: Attempt, i: int, j: int)
    requires i != j
    ensures Cell(a, i) != Cell(a, j)
  {
  }

  /**
   * A successful attempt for boat k, the first boat not placed yet, keeps the placement
   * invariant with k + 1 boats placed.
   */
  lemma PlaceStep(boats: seq<Boat>, boardSize: int, k: int, a: Attempt)
    requires 0 <= k < |boats| && PlacedUpTo(boats, boardSize, k) && ValidAttempt(a)
    requires FitsAt(boats, boardSize, boats[k].size, a)
    ensures PlacedUpTo(boats[k := boats[k].(coord := Line(a, boats[k].size))], boardSize, k + 1)
  {
    var size := boats[k].size;
    var boats' := boats[k := boats[k].(coord := Line(a, size))];
    forall b1, i1, b2, i2 |
      0 <= b1 < k + 1 && b1 < |boats'| && 0 <= b2 < k + 1 && b2 < |boats'| &&
      0 <= i1 < |boats'[b1].coord| && 0 <= i2 < |boats'[b2].coord| && (b1 != b2 || i1 != i2)
      ensures boats'[b1].coord[i1] != boats'[b2].coord[i2]
    {
      if b1 == k && b2 == k {
        CellInjective(a, i1, i2);
      } else if b1 == k {
        assert Free(boats, boardSize, Cell(a, i1));
        assert Occupies(boats[b2], boats[b2].coord[i2]);
      } else if b2 == k {
        assert Free(boats, boardSize, Cell(a, i2));
        assert Occupies(boats[b1], boats[b1].coord[i1]);
      }
    }
    forall b, i | 0 <= b < k + 1 && b < |boats'| && 0 <= i < |boats'[b].coord|
      ensures OnBoard(boats'[b].coord[i], boardSize)
    {
      if b == k {
        assert Free(boats, boardSize, Cell(a, i));
      }
    }
  }

  /** The index of the first attempt at which a boat of the given length fits, or |attempts| when none does. */
  function FirstFit(boats: seq<Boat>, boardSize: int, size: nat, attempts: seq<Attempt>): (k: nat)
    ensures k <= |attempts|
    ensures k < |attempts| ==> FitsAt(boats, boardSize, size, attempts[k])
    ensures forall t :: 0 <= t < k ==> !FitsAt(boats, boardSize, size, attempts[t])
  {
    if |attempts| == 0 then 0
    else if FitsAt(boats, boardSize, size, attempts[0]) then 0
    else
      var k := FirstFit(boats, boardSize, size, attempts[1..]);
      assert forall t :: 1 <= t < |attempts| ==> attempts[t] == attempts[1..][t - 1];
      1 + k
  }

  /**
   * The placement of boats i and after, in order, each at the first draw it fits at among the
   * draws the earlier boats left; None when some boat finds no such draw.
   */
  function Placement(boats: seq<Boat>, boardSize: int, i: nat, attempts: seq<Attempt>): Option<seq<Boat>>
    requires i <= |boats|
    decreases |boats| - i
  {
    if i == |boats| then Some(boats)
    else
      var k := FirstFit(boats, boardSize, boats[i].size, attempts);
      if k == |attempts| then None
      else Placement(boats[i := boats[i].(coord := Line(attempts[k], boats[i].size))], boardSize, i + 1, attempts[k + 1..])
  }

  /**
   * A placement that succeeds from a state with the boats before i placed lies on the board
   * with no cell shared, and keeps every boat's length and hit counter.
   */
  lemma {:induction false} PlacementPlaced(boats: seq<Boat>, boardSize: int, i: nat, attempts: seq<Attempt>)
    requires i <= |boats| && PlacedUpTo(boats, boardSize, i)
    requires forall t :: 0 <= t < |attempts| ==> ValidAttempt(attempts[t])
    ensures var r := Placement(boats, boardSize, i, attempts);
      r.Some? ==>
        && PlacedUpTo(r.value, boardSize, |boats|) && |r.value| == |boats|
        && forall k :: 0 <= k < |boats| ==> r.value[k].size == boats[k].size && r.value[k].count == boats[k].count
    decreases |boats| - i
  {
    if i < |boats| {
      var k := FirstFit(boats, boardSize, boats[i].size, attempts);
      if k < |attempts| {
        PlaceStep(boats, boardSize, i, attempts[k]);
        PlacementPlaced(boats[i := boats[i].(coord := Line(attempts[k], boats[i].size))], boardSize, i + 1, attempts[k + 1..]);
      }
    }
  }

  /** Where a failed placement got stuck: the boat that fit at no draw, the boats then, and the draws left. */
  datatype Jam = Jam(index: nat, boats: seq<Boat>, rest: seq<Attempt>)

  /** The point at which a failing Placement stops, found by following it boat by boat. */
  function StuckAt(boats: seq<Boat>, boardSize: int, i: nat, attempts: seq<Attempt>): Jam
    requires i <= |boats| && Placement(boats, boardSize, i, attempts).None?
    decreases |boats| - i
  {
    var k := FirstFit(boats, boardSize, boats[i].size, attempts);
    if k == |attempts| then Jam(i, boats, attempts)
    else StuckAt(boats[i := boats[i].(coord := Line(attempts[k], boats[i].size))], boardSize, i + 1, attempts[k + 1..])
  }

  /** Placing boat i at draw k, the first it fits at, leaves the rest of the placement, and where it fails, to the later draws. */
  lemma PlacementStep(boats: seq<Boat>, boardSize: int, i: nat, attempts: seq<Attempt>, k: nat)
    requires i < |boats| && k < |attempts| && FitsAt(boats, boardSize, boats[i].size, attempts[k])
    requires forall t :: 0 <= t < k ==> !FitsAt(boats, boardSize, boats[i].size, attempts[t])
    ensures var next := boats[i := boats[i].(coord := Line(attempts[k], boats[i].size))];
      && Placement(boats, boardSize, i, attempts) == Placement(next, boardSize, i + 1, attempts[k + 1..])
      && (Placement(boats, boardSize, i, attempts).None? ==>
            StuckAt(boats, boardSize, i, attempts) == StuckAt(next, boardSize, i + 1, attempts[k + 1..]))
  {
    assert FirstFit(boats, boardSize, boats[i].size, attempts) == k;
  }

  /** When boat i fits at none of the draws, the placement fails there, with all the draws left. */
  lemma PlacementFails(boats: seq<Boat>, boardSize: int, i: nat, attempts: seq<Attempt>)
    requires i < |boats| && forall t :: 0 <= t < |attempts| ==> !FitsAt(boats, boardSize, boats[i].size, attempts[t])
    ensures Placement(boats, boardSize, i, attempts).None?
    ensures StuckAt(boats, boardSize, i, attempts) == Jam(i, boats, attempts)
  {
    assert FirstFit(boats, boardSize, boats[i].size, attempts) == |attempts|;
  }

  /**
   * Where a failing placement stops, the boats before the stuck one are placed and lie on
   * the board with no cell shared, and the stuck one is not placed.
   */
  lemma {:induction false} StuckAtPlaced(boats: seq<Boat>, boardSize: int, i: nat, attempts: seq<Attempt>)
    requires i <= |boats| && PlacedUpTo(boats, boardSize, i)
    requires forall t :: 0 <= t < |attempts| ==> ValidAttempt(attempts[t])
    requires Placement(boats, boardSize, i, attempts).None?
    ensures var j := StuckAt(boats, boardSize, i, attempts);
      i <= j.index < |boats| && |j.boats| == |boats| && PlacedUpTo(j.boats, boardSize, j.index)
    decreases |boats| - i
  {
    var k := FirstFit(boats, boardSize, boats[i].size, attempts);
    if k < |attempts| {
      PlacementStep(boats, boardSize, i, attempts, k);
      PlaceStep(boats, boardSize, i, attempts[k]);
      StuckAtPlaced(boats[i := boats[i].(coord := Line(attempts[k], boats[i].size))], boardSize, i + 1, attempts[k + 1..]);
    }
  }

  /** Where a failing placement stops, the draws left are a tail of the draws. */
  lemma {:induction false} StuckAtRest(boats: seq<Boat>, boardSize: int, i: nat, attempts: seq<Attempt>)
    requires i <= |boats| && Placement(boats, boardSize, i, attempts).None?
    ensures IsTail(StuckAt(boats, boardSize, i, attempts).rest, attempts)
    decreases |boats| - i
  {
    var k := FirstFit(boats, boardSize, boats[i].size, attempts);
    if k == |attempts| {
      assert attempts[|attempts| - |attempts|..] == attempts;
    } else {
      PlacementStep(boats, boardSize, i, attempts, k);
      StuckAtRest(boats[i := boats[i].(coord := Line(attempts[k], boats[i].size))], boardSize, i + 1, attempts[k + 1..]);
      TailOfTail(attempts, k + 1, StuckAt(boats, boardSize, i, attempts).rest);
    }
  }

  /** r is what is left of the draws s once some first ones have been used. */
  predicate IsTail(r: seq<Attempt>, s: seq<Attempt>)
  {
    |r| <= |s| && r == s[|s| - |r|..]
  }

  /** A tail of the draws after the first n is a tail of all the draws. */
  lemma TailOfTail(s: seq<Attempt>, n: nat, r: seq<Attempt>)
    requires n <= |s| && IsTail(r, s[n..])
    ensures IsTail(r, s)
  {
    assert s[n..][|s| - n - |r|..] == s[|s| - |r|..];
  }

  /** Where a failing placement stops, the stuck boat is one of the boats, and it fits at none of the draws left. */
  lemma {:induction false} StuckAtNoFit(boats: seq<Boat>, boardSize: int, i: nat, attempts: seq<Attempt>)
    requires i <= |boats| && Placement(boats, boardSize, i, attempts).None?
    ensures var j := StuckAt(boats, boardSize, i, attempts);
      && i <= j.index < |j.boats| == |boats|
      && forall t :: 0 <= t < |j.rest| ==> !FitsAt(j.boats, boardSize, j.boats[j.index].size, j.rest[t])
    decreases |boats| - i
  {
    var k := FirstFit(boats, boardSize, boats[i].size, attempts);
    if k < |attempts| {
      PlacementStep(boats, boardSize, i, attempts, k);
      StuckAtNoFit(boats[i := boats[i].(coord := Line(attempts[k], boats[i].size))], boardSize, i + 1, attempts[k + 1..]);
    }
  }

  /** The five boats as the C init makes them: lengths 5, 4, 3, 3, 2, not placed, no hit. */
  function Unplaced(): (boats: seq<Boat>)
    ensures |boats| == BOATS_NUMBER && PlacedUpTo(boats, 0, 0)
  {
    seq(BOATS_NUMBER, k requires 0 <= k < BOATS_NUMBER => Boat(BOAT_SIZES[k], Nulls(BOAT_SIZES[k]), 0))
  }

  /**
   * While boat k is being laid cell by cell, the cells it has already written are not the
   * next cell, so availability of that cell is what it was before the attempt began.
   */
  lemma FreeWhileLaying(boats: seq<Boat>, boardSize: int, k: int, a: Attempt, i: int)
    requires 0 <= k < |boats| && ValidAttempt(a) && 0 <= i < boats[k].size
    requires boats[k].coord == Nulls(boats[k].size)
    ensures var partial := boats[k := boats[k].(coord := Line(a, i) + Nulls(boats[k].size - i))];
      Free(partial, boardSize, Cell(a, i)) == Free(boats, boardSize, Cell(a, i))
  {
    var size := boats[k].size;
    var partial := boats[k := boats[k].(coord := Line(a, i) + Nulls(size - i))];
    var c := Cell(a, i);
    assert !Occupies(boats[k], c);
    assert !Occupies(partial[k], c) by {
      forall j | 0 <= j < |partial[k].coord| ensures partial[k].coord[j] != c {
        if j < i {
          CellInjective(a, j, i);
        }
      }
    }
    if Occupied(partial, c) {
      var b :| 0 <= b < |partial| && Occupies(partial[b], c);
      assert b != k && Occupies(boats[b], c);
    }
    if Occupied(boats, c) {
      var b :| 0 <= b < |boats| && Occupies(boats[b], c);
      assert b != k && Occupies(partial[b], c);
    }
  }

  /** The boats of one fleet and the size of its square board. */
  class Fleet {
    var boardSize: int
    var myBoats: array<Boat>

    ghost predicate Valid()
      reads this, myBoats
    {
      myBoats.Length == BOATS_NUMBER && forall k :: 0 <= k < BOATS_NUMBER ==> |myBoats[k].coord| == myBoats[k].size
    }

    /**
     * The first half of the C init: record the board size and make the five boats with all
     * their coordinates unplaced. The hit counters start at 0 (the C code leaves them unset).
     */
    constructor Init(size: int)
      ensures Valid() && fresh(myBoats) && boardSize == size
      ensures forall k :: 0 <= k < BOATS_NUMBER ==> myBoats[k] == Boat(BOAT_SIZES[k], Nulls(BOAT_SIZES[k]), 0)
      ensures myBoats[..] == Unplaced() && PlacedUpTo(myBoats[..], size, 0)
    {
      boardSize := size;
      myBoats := new Boat[BOATS_NUMBER](_ => Boat(0, [], 0));
      new;
      InitBoat(0, BOAT_SIZES[0]);
      InitBoat(1, BOAT_SIZES[1]);
      InitBoat(2, BOAT_SIZES[2]);
      InitBoat(3, BOAT_SIZES[3]);
      InitBoat(4, BOAT_SIZES[4]);
    }

    /** Give boat index the length boatSize and set every coordinate to the unplaced value. */
    method InitBoat(index: int, boatSize: nat)
      requires 0 <= index < myBoats.Length
      modifies myBoats
      ensures myBoats[..] == old(myBoats[..])[index := Boat(boatSize, Nulls(boatSize), old(myBoats[index].count))]
    {
      var coord: seq<Coord> := [];
      for i := 0 to boatSize
        invariant coord == Nulls(i)
      {
        coord := coord + [NullCoord];
      }
      myBoats[index] := Boat(boatSize, coord, myBoats[index].count);
    }

    /** The cell (x, y) is inside the board's upper bounds and no boat has a cell there. */
    method IsAvailable(x: int, y: int) returns (r: bool)
      requires Valid()
      ensures r == Free(myBoats[..], boardSize, Coord(x, y))
    {
      if x >= boardSize || y >= boardSize {
        return false;
      }
      var boatIndex := 0;
      while boatIndex < BOATS_NUMBER
        invariant 0 <= boatIndex <= BOATS_NUMBER
        invariant forall k :: 0 <= k < boatIndex ==> !Occupies(myBoats[k], Coord(x, y))
      {
        var i := 0;
        while i < myBoats[boatIndex].size
          invariant 0 <= i <= myBoats[boatIndex].size
          invariant forall j :: 0 <= j < i ==> myBoats[boatIndex].coord[j] != Coord(x, y)
        {
          if myBoats[boatIndex].coord[i].x == x && myBoats[boatIndex].coord[i].y == y {
            assert Occupies(myBoats[..][boatIndex], Coord(x, y));
            return false;
          }
          i := i + 1;
        }
        boatIndex := boatIndex + 1;
      }
      return true;
    }

    /**
     * One placement attempt for boat index: write its cells one by one from the start cell;
     * at the first cell that is not available, reset the boat to unplaced and fail.
     */
    method TryPlace(index: int, a: Attempt) returns (placed: bool)
      requires Valid() && 0 <= index < BOATS_NUMBER && ValidAttempt(a)
      requires myBoats[index].coord == Nulls(myBoats[index].size)
      modifies myBoats
      ensures Valid()
      ensures placed == FitsAt(old(myBoats[..]), boardSize, old(myBoats[index].size), a)
      ensures placed ==> myBoats[..] == old(myBoats[..])[index := old(myBoats[index]).(coord := Line(a, old(myBoats[index].size)))]
      ensures !placed ==> myBoats[..] == old(myBoats[..])
    {
      ghost var orig := myBoats[..];
      var size := myBoats[index].size;
      var i := 0;
      assert Line(a, 0) + Nulls(size) == orig[index].coord;
      assert orig[index := orig[index].(coord := Line(a, 0) + Nulls(size))] == orig;
      while i < size
        invariant 0 <= i <= size
        invariant myBoats[..] == orig[index := orig[index].(coord := Line(a, i) + Nulls(size - i))]
        invariant forall j :: 0 <= j < i ==> Free(orig, boardSize, Cell(a, j))
      {
        var c := Cell(a, i);
        var free := IsAvailable(c.x, c.y);
        FreeWhileLaying(orig, boardSize, index, a, i);
        if !free {
          InitBoat(index, size);
          assert myBoats[..] == orig;
          return false;
        }
        myBoats[index] := myBoats[index].(coord := myBoats[index].coord[i := c]);
        assert Line(a, i + 1) + Nulls(size - (i + 1)) == (Line(a, i) + Nulls(size - i))[i := c];
        i := i + 1;
      }
      assert Line(a, size) + Nulls(0) == Line(a, size);
      return true;
    }

    /**
     * Place boat index by drawing attempts until one succeeds. The C loop draws from rand()
     * without bound; here the draws are the given attempts, and used says how many were taken.
     */
    method PutBoat(index: int, attempts: seq<Attempt>) returns (ok: bool, used: nat)
      requires Valid() && 0 <= index < BOATS_NUMBER
      requires forall t :: 0 <= t < |attempts| ==> ValidAttempt(attempts[t])
      requires myBoats[index].coord == Nulls(myBoats[index].size)
      modifies myBoats
      ensures Valid() && used <= |attempts|
      ensures forall t :: 0 <= t < used - 1 ==> !FitsAt(old(myBoats[..]), boardSize, old(myBoats[index].size), attempts[t])
      ensures ok ==> 0 < used && FitsAt(old(myBoats[..]), boardSize, old(myBoats[index].size), attempts[used - 1])
      ensures ok ==> myBoats[..] == old(myBoats[..])[index := old(myBoats[index]).(coord := Line(attempts[used - 1], old(myBoats[index].size)))]
      ensures !ok ==> used == |attempts| && myBoats[..] == old(myBoats[..])
      ensures !ok ==> forall t :: 0 <= t < |attempts| ==> !FitsAt(old(myBoats[..]), boardSize, old(myBoats[index].size), attempts[t])
    {
      var t := 0;
      while t < |attempts|
        invariant 0 <= t <= |attempts| && Valid()
        invariant myBoats[..] == old(myBoats[..])
        invariant forall t' :: 0 <= t' < t ==> !FitsAt(old(myBoats[..]), boardSize, old(myBoats[index].size), attempts[t'])
      {
        var placed := TryPlace(index, attempts[t]);
        if placed {
          return true, t + 1;
        }
        t := t + 1;
      }
      return false, |attempts|;
    }

    /**
     * Place boat i, the boats before it being placed, from the draws left to it: on success
     * the boats up to i are placed and Placement goes on with the draws after the one used; on
     * failure no boat changes, boat i fits at none of the draws, and Placement fails.
     */
    method PlaceNext(i: int, left: seq<Attempt>) returns (placed: bool, used: nat)
      requires Valid() && 0 <= i < BOATS_NUMBER && PlacedUpTo(myBoats[..], boardSize, i)
      requires forall t :: 0 <= t < |left| ==> ValidAttempt(left[t])
      modifies myBoats
      ensures Valid() && used <= |left|
      ensures forall k :: 0 <= k < BOATS_NUMBER ==> myBoats[k].size == old(myBoats[k].size) && myBoats[k].count == old(myBoats[k].count)
      ensures placed ==> 0 < used && PlacedUpTo(myBoats[..], boardSize, i + 1)
      ensures placed ==> Placement(old(myBoats[..]), boardSize, i, left) == Placement(myBoats[..], boardSize, i + 1, left[used..])
      ensures placed && Placement(old(myBoats[..]), boardSize, i, left).None? ==>
        StuckAt(old(myBoats[..]), boardSize, i, left) == StuckAt(myBoats[..], boardSize, i + 1, left[used..])
      ensures !placed ==> myBoats[..] == old(myBoats[..]) && Placement(old(myBoats[..]), boardSize, i, left).None?
      ensures !placed ==> StuckAt(old(myBoats[..]), boardSize, i, left) == Jam(i, myBoats[..], left)
      ensures !placed ==> forall t :: 0 <= t < |left| ==> !FitsAt(myBoats[..], boardSize, myBoats[i].size, left[t])
    {
      ghost var before := myBoats[..];
      placed, used := PutBoat(i, left);
      if placed {
        PlacementStep(before, boardSize, i, left, used - 1);
        PlaceStep(before, boardSize, i, left[used - 1]);
      } else {
        PlacementFails(before, boardSize, i, left);
      }
    }

    /**
     * The second half of the C init: place the boats in order, each at the first draw it fits
     * at among those the earlier boats left, as Placement says. On success the five boats lie
     * on the board and share no cell. On failure the boats and rest are those StuckAt gives:
     * the boats before the stuck one are placed, and it fits at none of the draws left to it
     * (StuckAtPlaced, StuckAtRest, StuckAtNoFit).
     */
    method PlaceBoats(attempts: seq<Attempt>) returns (ok: bool, ghost rest: seq<Attempt>)
      requires Valid() && PlacedUpTo(myBoats[..], boardSize, 0)
      requires forall t :: 0 <= t < |attempts| ==> ValidAttempt(attempts[t])
      modifies myBoats
      ensures Valid()
      ensures forall k :: 0 <= k < BOATS_NUMBER ==> myBoats[k].size == old(myBoats[k].size) && myBoats[k].count == old(myBoats[k].count)
      ensures ok ==> PlacedUpTo(myBoats[..], boardSize, BOATS_NUMBER)
      ensures ok <==> Placement(old(myBoats[..]), boardSize, 0, attempts).Some?
      ensures ok ==> myBoats[..] == Placement(old(myBoats[..]), boardSize, 0, attempts).value
      ensures IsTail(rest, attempts)
      ensures !ok ==> var j := StuckAt(old(myBoats[..]), boardSize, 0, attempts); myBoats[..] == j.boats && rest == j.rest
    {
      ghost var start := myBoats[..];
      var left := attempts;
      for i := 0 to BOATS_NUMBER
        invariant Valid() && PlacedUpTo(myBoats[..], boardSize, i)
        invariant IsTail(left, attempts)
        invariant forall t :: 0 <= t < |left| ==> ValidAttempt(left[t])
        invariant forall k :: 0 <= k < BOATS_NUMBER ==> myBoats[k].size == old(myBoats[k].size) && myBoats[k].count == old(myBoats[k].count)
        invariant Placement(start, boardSize, 0, attempts) == Placement(myBoats[..], boardSize, i, left)
        invariant Placement(start, boardSize, 0, attempts).None? ==>
          StuckAt(start, boardSize, 0, attempts) == StuckAt(myBoats[..], boardSize, i, left)
      {
        var placed, used := PlaceNext(i, left);
        if !placed {
          assert PlacedUpTo(myBoats[..], boardSize, i);
          return false, left;
        }
        assert left[used..] == attempts[|attempts| - |left| + used..];
        left := left[used..];
      }
      assert Placement(myBoats[..], boardSize, BOATS_NUMBER, left) == Some(myBoats[..]);
      return true, left;
    }

    /**
     * A shot at (x, y): the first boat with a cell there takes one more hit, and the answer
     * is SUNK when its count reaches its length, else HIT; with no boat there it is MISS.
     * Shots at the same cell count again.
     */
    method Shot(x: int, y: int) returns (r: ShotResult)
      requires Valid()
      modifies myBoats
      ensures Valid()
      ensures r == ShotOutcome(old(myBoats[..]), Coord(x, y))
      ensures myBoats[..] == AfterShot(old(myBoats[..]), Coord(x, y))
    {
      var boatIndex := 0;
      while boatIndex < BOATS_NUMBER
        invariant 0 <= boatIndex <= BOATS_NUMBER
        invariant forall k :: 0 <= k < boatIndex ==> !Occupies(myBoats[k], Coord(x, y))
      {
        var i := 0;
        while i < myBoats[boatIndex].size
          invariant 0 <= i <= myBoats[boatIndex].size
          invariant forall j :: 0 <= j < i ==> myBoats[boatIndex].coord[j] != Coord(x, y)
        {
          if myBoats[boatIndex].coord[i].x == x && myBoats[boatIndex].coord[i].y == y {
            assert FirstOwner(myBoats[..], Coord(x, y)) == boatIndex by {
              assert Occupies(myBoats[..][boatIndex], Coord(x, y));
            }
            myBoats[boatIndex] := myBoats[boatIndex].(count := myBoats[boatIndex].count + 1);
            if myBoats[boatIndex].count == myBoats[boatIndex].size {
              return Sunk;
            } else {
              return Hit;
            }
          }
          i := i + 1;
        }
        boatIndex := boatIndex + 1;
      }
      return Miss;
    }
  }

  /**
   * The C init: a fleet for the board size with the five boats placed from the draws. ok
   * exactly when Placement of the unplaced boats succeeds, and then the boats are the ones it
   * gives; otherwise the boats and the draws left, rest, are those StuckAt gives.
   */
  method NewFleet(size: int, attempts: seq<Attempt>) returns (fleet: Fleet, ok: bool, ghost rest: seq<Attempt>)
    requires forall t :: 0 <= t < |attempts| ==> ValidAttempt(attempts[t])
    ensures fresh(fleet) && fresh(fleet.myBoats) && fleet.Valid() && fleet.boardSize == size
    ensures forall k :: 0 <= k < BOATS_NUMBER ==> fleet.myBoats[k].size == BOAT_SIZES[k] && fleet.myBoats[k].count == 0
    ensures ok <==> Placement(Unplaced(), size, 0, attempts).Some?
    ensures ok ==> fleet.myBoats[..] == Placement(Unplaced(), size, 0, attempts).value
    ensures ok ==> PlacedUpTo(fleet.myBoats[..], size, BOATS_NUMBER)
    ensures IsTail(rest, attempts)
    ensures !ok ==> var j := StuckAt(Unplaced(), size, 0, attempts); fleet.myBoats[..] == j.boats && rest == j.rest
  {
    fleet := new Fleet.Init(size);
    ok, rest := fleet.PlaceBoats(attempts);
  }
}
