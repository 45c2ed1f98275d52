/** The `Game` class: one game on a `width` x `height` grid, held as a map
    from coordinates to squares that `toggle_flag` and `open` update in
    place. */
module Minesweeper {
  import opened Board
  import opened Flood

  /** A sample of `mines` distinct coordinates of the grid, as
      `random.sample(all_coords, mines)` draws it. */
  predicate IsMineSample(width: nat, height: nat, mines: nat, sample: seq<Coord>) {
    && |sample| == mines
    && (forall i :: 0 <= i < |sample| ==> InGrid(width, height, sample[i]))
    && (forall i, j :: 0 <= i < j < |sample| ==> sample[i] != sample[j])
  }

  /** One square per coordinate, no square both flagged and open, and
      `mines` mines. */
  predicate WellFormed(width: nat, height: nat, mines: nat, squares: map<Coord, Square>) {
    && squares.Keys == Grid(width, height)
    && (forall c :: c in squares ==> !(squares[c].flagged && squares[c].isOpened))
    && |MineSet(squares)| == mines
  }

  /** Opening squares keeps a board well formed: flagged squares stay closed. */
  lemma OpenRegionWellFormed(width: nat, height: nat, mines: nat, squares: map<Coord, Square>,
                             region: set<Coord>)
    requires WellFormed(width, height, mines, squares)
    ensures WellFormed(width, height, mines, OpenRegion(squares, region))
  {
    OpenRegionSets(squares, region);
  }

  class Game {
    const width: nat
    const height: nat
    const mines: nat
    var squares: map<Coord, Square>

    /** One square per coordinate, no square both flagged and open, and as
        many mines as the game was created with. */
    ghost predicate Valid()
      reads this
    {
      WellFormed(width, height, mines, squares)
    }

    /** `Game(width, height, mines)`, with the mine coordinates drawn by
        the caller. */
    constructor (width: nat, height: nat, mines: nat, sample: seq<Coord>)
      requires IsMineSample(width, height, mines, sample)
      ensures Valid()
      ensures this.width == width && this.height == height && this.mines == mines
      ensures forall c :: c in squares ==>
        !squares[c].isOpened && !squares[c].flagged && (squares[c].mine <==> c in sample)
      ensures MineSet(squares) == set c | c in sample
    {
      this.width := width;
      this.height := height;
      this.mines := mines;
      squares := map c | c in Grid(width, height) :: Untouched;
      new;
      for i := 0 to |sample|
        invariant squares.Keys == Grid(width, height)
        invariant forall c :: c in squares ==>
          !squares[c].isOpened && !squares[c].flagged && (squares[c].mine <==> c in sample[..i])
      {
        squares := squares[sample[i] := squares[sample[i]].(mine := true)];
      }
      assert sample[..|sample|] == sample;
      assert MineSet(squares) == set c | c in sample;
      DistinctCard(sample);
    }

    /** `game[c]`: the square at `c`; it is never both flagged and open. */
    function Get(c: Coord): (s: Square)
      reads this
      requires Valid() && InGrid(width, height, c)
      ensures s.flagged ==> !s.isOpened
    {
      squares[c]
    }

    /** `all_coords()`: every coordinate of the grid, one per square. */
    function AllCoords(): (r: set<Coord>)
      reads this
      requires Valid()
      ensures forall c :: c in r <==> InGrid(width, height, c)
      ensures |r| == width * height
    {
      GridSize(width, height);
      squares.Keys
    }

    /** `toggle_flag(c)`: flips the flag of a closed square; an open square
        is left as it is. Nothing else changes. */
    method ToggleFlag(c: Coord)
      requires Valid() && InGrid(width, height, c)
      modifies this
      ensures Valid()
      ensures squares == Toggled(old(squares), c)
      ensures Lost(squares) == old(Lost(squares)) && Won(squares) == old(Won(squares))
    {
      if !squares[c].isOpened {
        squares := squares[c := squares[c].(flagged := !squares[c].flagged)];
      }
      ToggledKeepsOutcome(old(squares), c);
    }

    /** `number_of_mines_around(c)`: counts the neighbours of `c` that hold a
        mine; `c` need not be on the grid. */
    method NumberOfMinesAround(c: Coord) returns (result: nat)
      requires Valid()
      ensures result == MineCount(width, height, MineSet(squares), c)
    {
      var around := CoordsAround(width, height, c);
      ghost var mineSet := MineSet(squares);
      ghost var isMine := (n: Coord) => n in mineSet;
      result := 0;
      for i := 0 to |around|
        invariant result == |Filter(around[..i], isMine)|
      {
        var n := around[i];
        assert n in squares && (squares[n].mine <==> n in mineSet) by {
          assert InGrid(width, height, n);
        }
        FilterPrefix(around, i, isMine);
        if squares[n].mine {
          result := result + 1;
        }
      }
      assert around[..|around|] == around;
      MinesAroundCount(width, height, mineSet, c);
    }

    /** `open(c)`. The square opens unless it is flagged; if no mine is
        around it, `auto_open` opens every closed neighbour the same way.
        Unlike the source, a square is visited at most once per call (see
        `OpenFrom`), so the cascade ends on every board. The squares it
        opens are exactly the unflagged squares of the flood region of `c`. */
    method Open(c: Coord) returns (ghost region: set<Coord>)
      requires Valid() && InGrid(width, height, c)
      modifies this
      ensures Valid()
      ensures IsRegion(width, height, MineSet(old(squares)), OpenedSet(old(squares)), c, region)
      ensures squares == OpenRegion(old(squares), region)
      // mines and flags stay, and nothing closes
      ensures forall x :: x in squares ==>
        && squares[x].mine == old(squares)[x].mine
        && squares[x].flagged == old(squares)[x].flagged
        && (old(squares)[x].isOpened ==> squares[x].isOpened)
      // the flag locks its square: `c` opens iff it is not flagged
      ensures squares[c].isOpened <==> !old(squares)[c].flagged
      // the cascade opens no mine
      ensures forall x :: x in squares && x != c && squares[x].isOpened && !old(squares)[x].isOpened ==>
        !squares[x].mine
      // a square with no mine around it has all its unflagged neighbours open afterwards
      ensures MineCount(width, height, MineSet(squares), c) == 0 ==>
        forall n :: n in CoordsAround(width, height, c) && !squares[n].flagged ==> squares[n].isOpened
      // opening an unflagged mine loses the game, and a lost game stays lost
      ensures old(squares)[c].mine && !old(squares)[c].flagged ==> Lost(squares)
      ensures old(Lost(squares)) ==> Lost(squares)
      // without mines, one click on a fresh board wins it
      ensures (old(MineSet(squares)) == {} && old(OpenedSet(squares)) == {}
               && forall x :: x in old(squares) ==> !old(squares)[x].flagged) ==> Won(squares)
    {
      ghost var before := squares;
      var visited := OpenFrom(c, {});
      region := visited;
      assert visited - {} == visited;
      OpenRegionSets(before, region);
      RegionIsSafe(width, height, MineSet(before), OpenedSet(before), c, region);
      if MineCount(width, height, MineSet(before), c) == 0 {
        BlankOpensNeighbours(width, height, before, c, region);
      }
      if Lost(before) {
        LossStays(before, region);
      }
      if MineSet(before) == {} && OpenedSet(before) == {} && (forall x :: x in before ==> !before[x].flagged) {
        NoMinesOneOpenWins(width, height, before, c, region);
      }
    }

    /** The recursive `open`, with `visited` holding the squares this cascade
        has already entered; a square in `visited` is not entered again.
        The squares it enters are added to `visited`, and of those the
        unflagged ones are opened. */
    method OpenFrom(c: Coord, visited: set<Coord>) returns (visited': set<Coord>)
      requires Valid() && InGrid(width, height, c)
      modifies this
      decreases Grid(width, height) - visited, 0
      ensures Valid()
      ensures visited <= visited' && c in visited'
      ensures squares == OpenRegion(old(squares), visited' - visited)
      ensures SpreadsAll(width, height, MineSet(old(squares)), OpenedSet(old(squares)), visited' - visited, visited')
      ensures Least(width, height, MineSet(old(squares)), OpenedSet(old(squares)), c, visited' - visited)
    {
      ghost var before := squares;
      if c in visited {
        visited' := visited;
        EmptyStep(width, height, before, c, visited);
        return;
      }
      visited' := visited + {c};
      if !squares[c].flagged {
        squares := squares[c := squares[c].(isOpened := true)];
      }
      OpenRegionSingle(before, c);
      OpenRegionWellFormed(width, height, mines, before, {c});
      ghost var opened1 := squares;
      var count := NumberOfMinesAround(c);
      if count == 0 {
        visited' := AutoOpen(c, visited');
        EnterStep(width, height, before, opened1, squares, c, visited, visited');
      } else {
        LeafStep(width, height, before, opened1, c, visited);
      }
    }

    /** `coords_around(c)`: the squares of the grid around `c`, each once,
        in scan order. These two facts fix the sequence: see
        `Board.AroundUnique`. `AutoOpen` obtains its scan through this
        method, so that its loop reasons about the neighbours through these
        two facts rather than through the definition of `CoordsAround`. */
    method ScanAround(c: Coord) returns (around: seq<Coord>)
      ensures forall n :: n in around <==> InGrid(width, height, n) && Adjacent(c, n)
      ensures Increasing(around)
    {
      around := CoordsAround(width, height, c);
      CoordsAroundOrdered(width, height, c);
    }

    /** `auto_open(c)`: calls `open` on every neighbour of `c` that is not
        open, in scan order. */
    method AutoOpen(c: Coord, visited: set<Coord>) returns (visited': set<Coord>)
      requires Valid() && InGrid(width, height, c) && c in visited
      requires MineCount(width, height, MineSet(squares), c) == 0
      modifies this
      decreases Grid(width, height) - visited, 1
      ensures Valid()
      ensures visited <= visited'
      ensures squares == OpenRegion(old(squares), visited' - visited)
      ensures Spreads(width, height, MineSet(old(squares)), OpenedSet(old(squares)), visited', c)
      ensures SpreadsAll(width, height, MineSet(old(squares)), OpenedSet(old(squares)), visited' - visited, visited')
      ensures Least(width, height, MineSet(old(squares)), OpenedSet(old(squares)), c, visited' - visited)
    {
      ghost var before := squares;
      var around := ScanAround(c);
      visited' := visited;
      EmptyStep(width, height, before, c, visited);
      for i := 0 to |around|
        invariant Valid() && visited <= visited'
        invariant squares == OpenRegion(before, visited' - visited)
        invariant forall j :: 0 <= j < i ==> around[j] in visited' || around[j] in OpenedSet(before)
        invariant SpreadsAll(width, height, MineSet(before), OpenedSet(before), visited' - visited, visited')
        invariant Least(width, height, MineSet(before), OpenedSet(before), c, visited' - visited)
      {
        var n := around[i];
        if !squares[n].isOpened {
          ghost var current, visitedNow := squares, visited';
          visited' := OpenFrom(n, visited');
          AutoStep(width, height, before, current, squares, c, n, visited, visitedNow, visited');
        } else {
          OpenedBefore(before, visited' - visited, n);
        }
      }
      ScanSpreads(width, height, MineSet(before), OpenedSet(before), visited', c, around);
    }

    /** `explosion_coords()`: some square that is a mine and open, or None
        when there is none. Which one is found depends on the iteration
        order of the squares, which is not fixed here. */
    method ExplosionCoords() returns (r: Option<Coord>)
      ensures r.Some? ==> r.value in squares && squares[r.value].mine && squares[r.value].isOpened
      ensures r.None? <==> !Lost(squares)
    {
      var remaining := squares.Keys;
      while remaining != {}
        invariant remaining <= squares.Keys
        invariant forall x :: x in squares && x !in remaining ==> !(squares[x].mine && squares[x].isOpened)
        decreases remaining
      {
        var x :| x in remaining;
        if squares[x].mine && squares[x].isOpened {
          return Some(x);
        }
        remaining := remaining - {x};
      }
      return None;
    }

    /** `exploded()`: whether some mine is open. */
    method Exploded() returns (b: bool)
      ensures b <==> exists c :: c in squares && squares[c].mine && squares[c].isOpened
    {
      var e := ExplosionCoords();
      b := e.Some?;
    }

    /** `win()`: every square is a mine or open, and nothing exploded. */
    method Win() returns (w: bool)
      ensures w <==> OpenedSet(squares) == squares.Keys - MineSet(squares)
    {
      WonIff(squares);
      var remaining := squares.Keys;
      while remaining != {}
        invariant remaining <= squares.Keys
        invariant forall x :: x in squares && x !in remaining ==> squares[x].mine || squares[x].isOpened
        decreases remaining
      {
        var x :| x in remaining;
        if !(squares[x].mine || squares[x].isOpened) {
          return false;
        }
        remaining := remaining - {x};
      }
      var exploded := Exploded();
      return !exploded;
    }

    /** `over()`: the game is lost or won. */
    method Over() returns (o: bool)
      ensures o <==> Lost(squares) || Won(squares)
      ensures o <==> Lost(squares) || OpenedSet(squares) == squares.Keys - MineSet(squares)
    {
      WonIff(squares);
      var exploded := Exploded();
      if exploded {
        return true;
      }
      o := Win();
    }
  }
}
