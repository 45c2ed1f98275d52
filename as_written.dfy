/** `open` and `auto_open` exactly as the recursion of the source performs
    them, without a record of the squares already entered. The depth of
    Python's call stack is bounded; `fuel` is the number of calls still
    allowed, and `None` stands for the `RecursionError` raised when it runs
    out (the squares opened before the error are not kept).

    Two results are proved. Where the recursion finishes, its board is the
    one `Minesweeper.Game.Open` computes (`AsWrittenAgrees`). And it does
    not always finish: `PairLoops` shows that `open` never finishes on
    either of two squares when each call goes straight to `open` on the
    other; on the 3 x 1 board of `FlaggedPair`, with flags on (0, 0) and
    (1, 0), `open((2, 0))` reaches such a pair and never finishes
    (`FlaggedPairDiverges`). No lemma here covers every board with two
    adjacent flagged squares. */
module AsWritten {
  import opened Board
  import opened Flood

  /** The first statement of `open(c)`: `c` opens unless it is flagged. */
  function OpenSquare(squares: map<Coord, Square>, c: Coord): (r: map<Coord, Square>)
    requires c in squares
    ensures r == OpenRegion(squares, {c})
    ensures r.Keys == squares.Keys && MineSet(r) == MineSet(squares)
  {
    OpenRegionSingle(squares, c);
    OpenRegionSets(squares, {c});
    if squares[c].flagged then squares else squares[c := squares[c].(isOpened := true)]
  }

  /** `open(c)`: open `c` unless it is flagged, then cascade if no mine is
      around it. */
  function Open(width: nat, height: nat, squares: map<Coord, Square>, c: Coord, fuel: nat)
    : (r: Option<map<Coord, Square>>)
    requires squares.Keys == Grid(width, height) && c in squares
    ensures r.Some? ==> r.value.Keys == squares.Keys && MineSet(r.value) == MineSet(squares)
    decreases fuel, 0
  {
    if fuel == 0 then None
    else
      var opened1 := OpenSquare(squares, c);
      if MineCount(width, height, MineSet(opened1), c) == 0 then
        AutoOpen(width, height, opened1, CoordsAround(width, height, c), fuel - 1)
      else
        Some(opened1)
  }

  /** `auto_open`: the loop over the neighbours `around` still to be
      scanned; a neighbour that is not open gets `open` called on it. */
  function AutoOpen(width: nat, height: nat, squares: map<Coord, Square>, around: seq<Coord>, fuel: nat)
    : (r: Option<map<Coord, Square>>)
    requires squares.Keys == Grid(width, height)
    requires forall j :: 0 <= j < |around| ==> around[j] in squares
    ensures r.Some? ==> r.value.Keys == squares.Keys && MineSet(r.value) == MineSet(squares)
    decreases fuel, |around|
  {
    if fuel == 0 then None
    else if around == [] then Some(squares)
    else if squares[around[0]].isOpened then
      AutoOpen(width, height, squares, around[1..], fuel)
    else
      match Open(width, height, squares, around[0], fuel - 1)
      case None => None
      case Some(next) => AutoOpen(width, height, next, around[1..], fuel)
  }

  /** Every square of `around` that was not open lies in `other`. */
  ghost predicate Covers(open: set<Coord>, around: seq<Coord>, other: set<Coord>) {
    forall j :: 0 <= j < |around| && around[j] !in open ==> around[j] in other
  }

  /** `entered` lies inside every closed set that reaches every square of
      `around` not already open. */
  ghost predicate LeastCovering(width: int, height: int, mines: set<Coord>, open: set<Coord>,
                                around: seq<Coord>, entered: set<Coord>)
  {
    forall other {:trigger Closed(width, height, mines, open, other)} ::
      Closed(width, height, mines, open, other) && Covers(open, around, other) ==> entered <= other
  }

  /** `open(c)` with a mine around `c`: only `c` is entered. */
  lemma LeafEnters(width: nat, height: nat, squares: map<Coord, Square>, opened1: map<Coord, Square>, c: Coord)
    requires opened1 == OpenRegion(squares, {c})
    requires MineCount(width, height, MineSet(opened1), c) != 0
    ensures IsRegion(width, height, MineSet(squares), OpenedSet(squares), c, {c})
  {
    OpenRegionSets(squares, {c});
    assert Spreads(width, height, MineSet(squares), OpenedSet(squares), {c}, c);
  }

  /** `open(c)` with no mine around `c`: `c` and what its `auto_open`
      entered, `rest`, make up the region of `c`. */
  lemma CascadeEnters(width: nat, height: nat, squares: map<Coord, Square>, opened1: map<Coord, Square>,
                      c: Coord, rest: set<Coord>)
    requires opened1 == OpenRegion(squares, {c})
    requires MineCount(width, height, MineSet(opened1), c) == 0
    requires Covers(OpenedSet(opened1), CoordsAround(width, height, c), rest)
    requires Closed(width, height, MineSet(opened1), OpenedSet(opened1), rest)
    requires LeastCovering(width, height, MineSet(opened1), OpenedSet(opened1), CoordsAround(width, height, c), rest)
    ensures OpenRegion(opened1, rest) == OpenRegion(squares, {c} + rest)
    ensures IsRegion(width, height, MineSet(squares), OpenedSet(squares), c, {c} + rest)
  {
    var mines, open, open1 := MineSet(squares), OpenedSet(squares), OpenedSet(opened1);
    var entered, around := {c} + rest, CoordsAround(width, height, c);
    OpenRegionTwice(squares, {c}, rest);
    OpenRegionSets(squares, {c});
    forall v | v in entered
      ensures Spreads(width, height, mines, open, entered, v)
    {
      if v in rest {
        SpreadsWeaken(width, height, mines, open1, open, rest, entered, v);
      }
    }
    forall other | c in other && Closed(width, height, mines, open, other)
      ensures entered <= other
    {
      assert Spreads(width, height, mines, open, other, c);
      SpreadsScan(width, height, mines, open, other, c);
      ClosedWhenMoreOpen(width, height, mines, open, open1, other);
      assert Covers(open1, around, other);
    }
  }

  /** The loop of `auto_open` passes over a square that is already open. */
  lemma SkipEnters(width: nat, height: nat, mines: set<Coord>, open: set<Coord>, around: seq<Coord>,
                   entered: set<Coord>)
    requires around != [] && around[0] in open
    requires Covers(open, around[1..], entered)
    requires LeastCovering(width, height, mines, open, around[1..], entered)
    ensures Covers(open, around, entered)
    ensures LeastCovering(width, height, mines, open, around, entered)
  {
    forall j | 0 <= j < |around| && around[j] !in open
      ensures around[j] in entered
    {
      assert around[1..][j - 1] == around[j];
    }
    forall other | Closed(width, height, mines, open, other) && Covers(open, around, other)
      ensures entered <= other
    {
      CoversTail(open, around, other);
    }
  }

  lemma CoversTail(open: set<Coord>, around: seq<Coord>, other: set<Coord>)
    requires around != [] && Covers(open, around, other)
    ensures Covers(open, around[1..], other)
  {
    forall j | 0 <= j < |around[1..]| && around[1..][j] !in open
      ensures around[1..][j] in other
    {
      assert around[1..][j] == around[j + 1];
    }
  }

  /** The loop of `auto_open` calls `open(around[0])`, which enters `first`
      and leaves `next`; the rest of the loop enters `rest`. */
  lemma CallEnters(width: nat, height: nat, squares: map<Coord, Square>, next: map<Coord, Square>,
                   around: seq<Coord>, first: set<Coord>, rest: set<Coord>)
    requires around != [] && around[0] !in OpenedSet(squares)
    requires next == OpenRegion(squares, first)
    requires IsRegion(width, height, MineSet(squares), OpenedSet(squares), around[0], first)
    requires Covers(OpenedSet(next), around[1..], rest)
    requires Closed(width, height, MineSet(next), OpenedSet(next), rest)
    requires LeastCovering(width, height, MineSet(next), OpenedSet(next), around[1..], rest)
    ensures Covers(OpenedSet(squares), around, first + rest)
    ensures Closed(width, height, MineSet(squares), OpenedSet(squares), first + rest)
    ensures LeastCovering(width, height, MineSet(squares), OpenedSet(squares), around, first + rest)
    ensures OpenRegion(next, rest) == OpenRegion(squares, first + rest)
  {
    var mines, open, open2 := MineSet(squares), OpenedSet(squares), OpenedSet(next);
    var entered := first + rest;
    OpenRegionTwice(squares, first, rest);
    OpenRegionSets(squares, first);
    forall v | v in entered
      ensures Spreads(width, height, mines, open, entered, v)
    {
      if v in first {
        SpreadsWeaken(width, height, mines, open, open, first, entered, v);
      } else {
        SpreadsWeaken(width, height, mines, open2, open, rest, entered, v);
      }
    }
    forall j | 0 <= j < |around| && around[j] !in open
      ensures around[j] in entered
    {
      if j > 0 {
        assert around[1..][j - 1] == around[j];
      }
    }
    forall other | Closed(width, height, mines, open, other) && Covers(open, around, other)
      ensures entered <= other
    {
      assert around[0] in other;
      ClosedWhenMoreOpen(width, height, mines, open, open2, other);
      CoversTail(open, around, other);
      assert Covers(open2, around[1..], other);
    }
  }

  /** `open(c)` with no mine around `c` finishes with its `auto_open(c)`. */
  lemma OpenCascades(width: nat, height: nat, squares: map<Coord, Square>, c: Coord, fuel: int)
    requires fuel >= 0
    requires squares.Keys == Grid(width, height) && c in squares
    requires Open(width, height, squares, c, fuel).Some?
    requires MineCount(width, height, MineSet(squares), c) == 0
    ensures fuel > 0
    ensures AutoOpen(width, height, OpenSquare(squares, c), CoordsAround(width, height, c), fuel - 1).Some?
    ensures Open(width, height, squares, c, fuel).value
      == AutoOpen(width, height, OpenSquare(squares, c), CoordsAround(width, height, c), fuel - 1).value
  {
  }

  /** `open(c)` with a mine around `c` opens `c` alone. */
  lemma OpenStops(width: nat, height: nat, squares: map<Coord, Square>, c: Coord, fuel: int)
    requires fuel >= 0
    requires squares.Keys == Grid(width, height) && c in squares
    requires Open(width, height, squares, c, fuel).Some?
    requires MineCount(width, height, MineSet(squares), c) != 0
    ensures Open(width, height, squares, c, fuel).value == OpenRegion(squares, {c})
  {
  }

  /** When `open(c)` finishes, the squares it entered are the flood region
      of `c`, and the board it leaves has the unflagged ones opened. */
  lemma {:induction false} OpenEnters(width: nat, height: nat, squares: map<Coord, Square>, c: Coord, fuel: int)
    returns (entered: set<Coord>)
    requires fuel >= 0
    requires squares.Keys == Grid(width, height) && c in squares
    requires Open(width, height, squares, c, fuel).Some?
    ensures IsRegion(width, height, MineSet(squares), OpenedSet(squares), c, entered)
    ensures Open(width, height, squares, c, fuel).value == OpenRegion(squares, entered)
    decreases fuel, 0, 2
  {
    if MineCount(width, height, MineSet(squares), c) == 0 {
      entered := OpenBlank(width, height, squares, c, fuel);
    } else {
      entered := {c};
      OpenStops(width, height, squares, c, fuel);
      LeafEnters(width, height, squares, OpenSquare(squares, c), c);
    }
  }

  /** `open(c)` with no mine around `c` enters what its `auto_open(c)` does. */
  lemma {:induction false} OpenBlank(width: nat, height: nat, squares: map<Coord, Square>, c: Coord, fuel: int)
    returns (entered: set<Coord>)
    requires fuel >= 0
    requires squares.Keys == Grid(width, height) && c in squares
    requires Open(width, height, squares, c, fuel).Some?
    requires MineCount(width, height, MineSet(squares), c) == 0
    ensures IsRegion(width, height, MineSet(squares), OpenedSet(squares), c, entered)
    ensures Open(width, height, squares, c, fuel).value == OpenRegion(squares, entered)
    decreases fuel, 0, 1
  {
    OpenCascades(width, height, squares, c, fuel);
    entered := BlankEnters(width, height, squares, c, fuel);
  }

  /** `open(c)` with no mine around `c`: its `auto_open(c)` call, given
      `fuel - 1` calls, enters `c`'s region less `c`. */
  lemma {:induction false} BlankEnters(width: nat, height: nat, squares: map<Coord, Square>, c: Coord, fuel: int)
    returns (entered: set<Coord>)
    requires fuel > 0
    requires squares.Keys == Grid(width, height) && c in squares
    requires MineCount(width, height, MineSet(squares), c) == 0
    requires AutoOpen(width, height, OpenSquare(squares, c), CoordsAround(width, height, c), fuel - 1).Some?
    ensures IsRegion(width, height, MineSet(squares), OpenedSet(squares), c, entered)
    ensures AutoOpen(width, height, OpenSquare(squares, c), CoordsAround(width, height, c), fuel - 1).value
      == OpenRegion(squares, entered)
    decreases fuel, 0, 0
  {
    var opened1 := OpenSquare(squares, c);
    var rest := AutoEnters(width, height, opened1, CoordsAround(width, height, c), fuel - 1);
    CascadeEnters(width, height, squares, opened1, c, rest);
    entered := {c} + rest;
  }

  /** When the loop of `auto_open` over `around` finishes, the squares it
      entered form a closed set that reaches every square of `around` not
      already open, and lies inside every closed set that does. */
  lemma {:induction false} AutoEnters(width: nat, height: nat, squares: map<Coord, Square>, around: seq<Coord>,
                                      fuel: int)
    returns (entered: set<Coord>)
    requires fuel >= 0
    requires squares.Keys == Grid(width, height)
    requires forall j :: 0 <= j < |around| ==> around[j] in squares
    requires AutoOpen(width, height, squares, around, fuel).Some?
    ensures Covers(OpenedSet(squares), around, entered)
    ensures Closed(width, height, MineSet(squares), OpenedSet(squares), entered)
    ensures LeastCovering(width, height, MineSet(squares), OpenedSet(squares), around, entered)
    ensures AutoOpen(width, height, squares, around, fuel).value == OpenRegion(squares, entered)
    decreases fuel, |around|, 1
  {
    if around == [] {
      entered := {};
      OpenNothing(squares);
      assert AutoOpen(width, height, squares, around, fuel).value == squares;
    } else if squares[around[0]].isOpened {
      entered := SkipAuto(width, height, squares, around, fuel);
    } else {
      entered := CallAuto(width, height, squares, around, fuel);
    }
  }

  /** The loop of `auto_open` passes over `around[0]`, which is open. */
  lemma {:induction false} SkipAuto(width: nat, height: nat, squares: map<Coord, Square>, around: seq<Coord>,
                                    fuel: int)
    returns (entered: set<Coord>)
    requires fuel >= 0
    requires squares.Keys == Grid(width, height)
    requires forall j :: 0 <= j < |around| ==> around[j] in squares
    requires AutoOpen(width, height, squares, around, fuel).Some?
    requires around != [] && squares[around[0]].isOpened
    ensures Covers(OpenedSet(squares), around, entered)
    ensures Closed(width, height, MineSet(squares), OpenedSet(squares), entered)
    ensures LeastCovering(width, height, MineSet(squares), OpenedSet(squares), around, entered)
    ensures AutoOpen(width, height, squares, around, fuel).value == OpenRegion(squares, entered)
    decreases fuel, |around|, 0
  {
    entered := AutoEnters(width, height, squares, around[1..], fuel);
    SkipEnters(width, height, MineSet(squares), OpenedSet(squares), around, entered);
    calc {
      AutoOpen(width, height, squares, around, fuel).value;
      AutoOpen(width, height, squares, around[1..], fuel).value;
      OpenRegion(squares, entered);
    }
  }

  /** `auto_open` calling `open` on its first square goes on with the
      board that call leaves. */
  lemma AutoCalls(width: nat, height: nat, squares: map<Coord, Square>, around: seq<Coord>, fuel: int)
    requires fuel >= 0
    requires squares.Keys == Grid(width, height)
    requires forall j :: 0 <= j < |around| ==> around[j] in squares
    requires AutoOpen(width, height, squares, around, fuel).Some?
    requires around != [] && !squares[around[0]].isOpened
    ensures fuel > 0 && Open(width, height, squares, around[0], fuel - 1).Some?
    ensures AutoOpen(width, height, Open(width, height, squares, around[0], fuel - 1).value, around[1..], fuel).Some?
    ensures AutoOpen(width, height, squares, around, fuel).value
      == AutoOpen(width, height, Open(width, height, squares, around[0], fuel - 1).value, around[1..], fuel).value
  {
  }

  /** The loop of `auto_open` calls `open(around[0])`, then goes on. */
  lemma {:induction false} CallAuto(width: nat, height: nat, squares: map<Coord, Square>, around: seq<Coord>,
                                    fuel: int)
    returns (entered: set<Coord>)
    requires fuel >= 0
    requires squares.Keys == Grid(width, height)
    requires forall j :: 0 <= j < |around| ==> around[j] in squares
    requires AutoOpen(width, height, squares, around, fuel).Some?
    requires around != [] && !squares[around[0]].isOpened
    ensures Covers(OpenedSet(squares), around, entered)
    ensures Closed(width, height, MineSet(squares), OpenedSet(squares), entered)
    ensures LeastCovering(width, height, MineSet(squares), OpenedSet(squares), around, entered)
    ensures AutoOpen(width, height, squares, around, fuel).value == OpenRegion(squares, entered)
    decreases fuel, |around|, 0
  {
    AutoCalls(width, height, squares, around, fuel);
    var first := OpenEnters(width, height, squares, around[0], fuel - 1);
    var next := Open(width, height, squares, around[0], fuel - 1).value;
    var rest := AutoEnters(width, height, next, around[1..], fuel);
    CallEnters(width, height, squares, next, around, first, rest);
    entered := first + rest;
  }

  /** Wherever the recursion of the source finishes, it leaves the board
      that opening the flood region of `c` gives, which is what
      `Minesweeper.Game.Open` computes. */
  lemma AsWrittenAgrees(width: nat, height: nat, squares: map<Coord, Square>, c: Coord, fuel: nat,
                        region: set<Coord>)
    requires squares.Keys == Grid(width, height) && c in squares
    requires IsRegion(width, height, MineSet(squares), OpenedSet(squares), c, region)
    requires Open(width, height, squares, c, fuel).Some?
    ensures Open(width, height, squares, c, fuel).value == OpenRegion(squares, region)
  {
    var entered := OpenEnters(width, height, squares, c, fuel);
    RegionUnique(width, height, MineSet(squares), OpenedSet(squares), c, entered, region);
  }

  /** A fresh 3 x 1 board without mines on which `toggle_flag` has flagged
      (0, 0) and (1, 0). */
  function FlaggedPair(): (r: map<Coord, Square>)
    ensures r.Keys == Grid(3, 1)
    ensures r[(0, 0)] == r[(1, 0)] == Square(false, false, true)
    ensures r[(2, 0)] == Untouched
  {
    Toggled(Toggled(map c | c in Grid(3, 1) :: Untouched, (0, 0)), (1, 0))
  }

  /** On a one-row board every square has its row neighbours around it. */
  lemma RowAround(c: Coord, around: seq<Coord>)
    requires c == (0, 0) || c == (1, 0) || c == (2, 0)
    requires around == if c == (0, 0) then [(1, 0)] else if c == (1, 0) then [(0, 0), (2, 0)] else [(1, 0)]
    ensures CoordsAround(3, 1, c) == around
  {
    AroundUnique(3, 1, c, around);
  }

  /** Without mines every count is zero. */
  lemma NoMineCount(width: nat, height: nat, c: Coord)
    ensures MineCount(width, height, {}, c) == 0
  {
    assert AdjacentMines(width, height, {}, c) == {};
  }

  /** `open(c)` with no mine around `c` fails when the `open(b)` its
      `auto_open` calls first fails, `b` being closed and the first square
      scanned around `c`. */
  lemma EntryFails(width: nat, height: nat, squares: map<Coord, Square>, c: Coord, b: Coord, fuel: nat)
    requires squares.Keys == Grid(width, height) && c in squares && b in squares
    requires MineCount(width, height, MineSet(squares), c) == 0
    requires CoordsAround(width, height, c) != [] && CoordsAround(width, height, c)[0] == b
    requires !OpenSquare(squares, c)[b].isOpened
    requires fuel < 2 || Open(width, height, OpenSquare(squares, c), b, fuel - 2).None?
    ensures Open(width, height, squares, c, fuel).None?
  {
  }

  /** `open(a)` on `board` fails whenever `open(b)` on `next` fails with
      two calls fewer to spare: `open(a)` turns `board` into `next` and
      reaches `open(b)` before it does anything else. */
  ghost predicate FailsThrough(width: nat, height: nat, board: map<Coord, Square>, a: Coord,
                               next: map<Coord, Square>, b: Coord)
    requires board.Keys == Grid(width, height) && a in board
    requires next.Keys == Grid(width, height) && b in next
  {
    forall fuel: nat {:trigger Open(width, height, board, a, fuel)} ::
      fuel < 2 || Open(width, height, next, b, fuel - 2).None? ==> Open(width, height, board, a, fuel).None?
  }

  /** `open(a)` on a flagged square with no mine around it leads straight
      to `open(b)` when `b` is closed and is the first square scanned around
      `a`: `a` stays closed, so the board does not change. */
  lemma FlaggedStep(width: nat, height: nat, board: map<Coord, Square>, a: Coord, b: Coord)
    requires board.Keys == Grid(width, height) && a in board && b in board
    requires MineCount(width, height, MineSet(board), a) == 0
    requires board[a].flagged && !board[b].isOpened
    requires CoordsAround(width, height, a) != [] && CoordsAround(width, height, a)[0] == b
    ensures FailsThrough(width, height, board, a, board, b)
  {
    forall fuel: nat | fuel < 2 || Open(width, height, board, b, fuel - 2).None?
      ensures Open(width, height, board, a, fuel).None?
    {
      EntryFails(width, height, board, a, b, fuel);
    }
  }

  /** Two squares, each of which `open` leads to the other first: `open` on
      either never finishes. */
  lemma {:induction false} PairLoops(width: nat, height: nat, board: map<Coord, Square>,
                                     a: Coord, b: Coord, fuel: nat)
    requires board.Keys == Grid(width, height) && a in board && b in board
    requires FailsThrough(width, height, board, a, board, b) && FailsThrough(width, height, board, b, board, a)
    ensures Open(width, height, board, a, fuel).None?
    decreases fuel
  {
    if fuel >= 2 {
      PairLoops(width, height, board, b, a, fuel - 2);
    }
  }

  /** `EntryFails` for every amount of fuel. */
  lemma EntryStep(width: nat, height: nat, squares: map<Coord, Square>, c: Coord, b: Coord)
    requires squares.Keys == Grid(width, height) && c in squares && b in squares
    requires MineCount(width, height, MineSet(squares), c) == 0
    requires CoordsAround(width, height, c) != [] && CoordsAround(width, height, c)[0] == b
    requires !OpenSquare(squares, c)[b].isOpened
    ensures FailsThrough(width, height, squares, c, OpenSquare(squares, c), b)
  {
    forall fuel: nat | fuel < 2 || Open(width, height, OpenSquare(squares, c), b, fuel - 2).None?
      ensures Open(width, height, squares, c, fuel).None?
    {
      EntryFails(width, height, squares, c, b, fuel);
    }
  }

  /** `open(c)` that leads to `open(a)` on a pair that loops never
      finishes either. */
  lemma EntersLoop(width: nat, height: nat, board0: map<Coord, Square>, c: Coord,
                   board: map<Coord, Square>, a: Coord, b: Coord, fuel: nat)
    requires board0.Keys == Grid(width, height) && c in board0
    requires board.Keys == Grid(width, height) && a in board && b in board
    requires FailsThrough(width, height, board0, c, board, a)
    requires FailsThrough(width, height, board, a, board, b) && FailsThrough(width, height, board, b, board, a)
    ensures Open(width, height, board0, c, fuel).None?
  {
    if fuel >= 2 {
      PairLoops(width, height, board, a, b, fuel - 2);
    }
  }

  /** A 3 x 1 board without mines whose squares (0, 0) and (1, 0) are
      flagged: `open((2, 0))` never finishes, however deep the call stack
      may grow. */
  lemma RowPairDiverges(board0: map<Coord, Square>, fuel: nat)
    requires board0.Keys == Grid(3, 1)
    requires board0[(0, 0)] == board0[(1, 0)] == Square(false, false, true) && board0[(2, 0)] == Untouched
    ensures Open(3, 1, board0, (2, 0), fuel).None?
  {
    assert forall c :: c in board0 ==> c == (0, 0) || c == (1, 0) || c == (2, 0);
    assert MineSet(board0) == {};
    RowAround((0, 0), [(1, 0)]);
    RowAround((1, 0), [(0, 0), (2, 0)]);
    RowAround((2, 0), [(1, 0)]);
    NoMineCount(3, 1, (0, 0));
    NoMineCount(3, 1, (1, 0));
    NoMineCount(3, 1, (2, 0));
    var board := OpenSquare(board0, (2, 0));
    FlaggedStep(3, 1, board, (0, 0), (1, 0));
    FlaggedStep(3, 1, board, (1, 0), (0, 0));
    EntryStep(3, 1, board0, (2, 0), (1, 0));
    EntersLoop(3, 1, board0, (2, 0), board, (1, 0), (0, 0), fuel);
  }

  /** Opening the unflagged square (2, 0) of `FlaggedPair` never finishes. */
  lemma FlaggedPairDiverges(fuel: nat)
    ensures Open(3, 1, FlaggedPair(), (2, 0), fuel).None?
  {
    RowPairDiverges(FlaggedPair(), fuel);
  }
}
