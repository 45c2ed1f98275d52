/** The flood fill that `open` and `auto_open` perform, stated on values.
    Opening `c` visits a region of squares: `c` itself and, from every
    visited square with no mine around it, each neighbour that was not
    already open. Every unflagged visited square ends up open. The region
    is characterised here as the least set closed under that step, so the
    outcome of `open` does not depend on the order of the scan. */
module Flood {
  import opened Board

  /** The cascade step at `v` is satisfied by `region`: if no mine is
      around `v`, each neighbour of `v` on the grid is in `region` or was
      open already. (Its count and its `coords_around` say the same; see
      `SpreadsScan`.) */
  ghost predicate Spreads(width: int, height: int, mines: set<Coord>, open: set<Coord>,
                          region: set<Coord>, v: Coord)
  {
    AdjacentMines(width, height, mines, v) == {} ==>
      forall n {:trigger Adjacent(v, n)} :: InGrid(width, height, n) && Adjacent(v, n) ==> n in region || n in open
  }

  /** `Spreads` in the terms `auto_open` uses: the count of `v` and the
      squares `coords_around(v)` yields. */
  lemma SpreadsScan(width: int, height: int, mines: set<Coord>, open: set<Coord>,
                    region: set<Coord>, v: Coord)
    ensures Spreads(width, height, mines, open, region, v) <==>
      (MineCount(width, height, mines, v) == 0 ==>
        forall n :: n in CoordsAround(width, height, v) ==> n in region || n in open)
  {
  }

  /** Every square of `entered` satisfies its cascade step within `region`. */
  ghost predicate SpreadsAll(width: int, height: int, mines: set<Coord>, open: set<Coord>,
                             entered: set<Coord>, region: set<Coord>)
  {
    forall v {:trigger Spreads(width, height, mines, open, region, v)} ::
      v in entered ==> Spreads(width, height, mines, open, region, v)
  }

  /** `region` is closed under the cascade step. */
  ghost predicate Closed(width: int, height: int, mines: set<Coord>, open: set<Coord>,
                         region: set<Coord>)
  {
    SpreadsAll(width, height, mines, open, region, region)
  }

  /** `entered` lies inside every closed set that holds `c`. */
  ghost predicate Least(width: int, height: int, mines: set<Coord>, open: set<Coord>,
                        c: Coord, entered: set<Coord>)
  {
    forall other {:trigger Closed(width, height, mines, open, other)} ::
      c in other && Closed(width, height, mines, open, other) ==> entered <= other
  }

  /** `region` is what opening `c` visits: the least closed set holding `c`. */
  ghost predicate IsRegion(width: int, height: int, mines: set<Coord>, open: set<Coord>,
                           c: Coord, region: set<Coord>)
  {
    && c in region
    && Closed(width, height, mines, open, region)
    && Least(width, height, mines, open, c, region)
  }

  /** The board after every unflagged square of `region` has been opened. */
  function OpenRegion(squares: map<Coord, Square>, region: set<Coord>): (r: map<Coord, Square>)
    ensures r.Keys == squares.Keys
    ensures forall x :: x in r ==>
      && r[x].mine == squares[x].mine
      && r[x].flagged == squares[x].flagged
      && (r[x].isOpened <==> squares[x].isOpened || (x in region && !squares[x].flagged))
  {
    map x | x in squares :: if x in region && !squares[x].flagged then squares[x].(isOpened := true) else squares[x]
  }

  /** Opening a single square, as the first statement of `open` does. */
  lemma OpenRegionSingle(squares: map<Coord, Square>, c: Coord)
    requires c in squares
    ensures OpenRegion(squares, {c}) ==
      if squares[c].flagged then squares else squares[c := squares[c].(isOpened := true)]
  {
    var r := OpenRegion(squares, {c});
    var s := if squares[c].flagged then squares else squares[c := squares[c].(isOpened := true)];
    assert r.Keys == s.Keys;
    forall x | x in r
      ensures r[x] == s[x]
    {
    }
  }

  lemma OpenRegionTwice(squares: map<Coord, Square>, a: set<Coord>, b: set<Coord>)
    ensures OpenRegion(OpenRegion(squares, a), b) == OpenRegion(squares, a + b)
  {
    var r := OpenRegion(OpenRegion(squares, a), b);
    var s := OpenRegion(squares, a + b);
    assert r.Keys == s.Keys;
    forall x | x in r
      ensures r[x] == s[x]
    {
    }
  }

  /** Opening a region keeps the mines, and adds to the open squares only
      squares of the region. */
  lemma OpenRegionSets(squares: map<Coord, Square>, region: set<Coord>)
    ensures MineSet(OpenRegion(squares, region)) == MineSet(squares)
    ensures OpenedSet(squares) <= OpenedSet(OpenRegion(squares, region)) <= OpenedSet(squares) + region
  {
  }

  /** A step satisfied before stays satisfied when the region grows and when
      squares open, as long as every newly open square is in the region. */
  lemma SpreadsWeaken(width: int, height: int, mines: set<Coord>, open: set<Coord>, open': set<Coord>,
                      region: set<Coord>, region': set<Coord>, v: Coord)
    requires Spreads(width, height, mines, open, region, v)
    requires region <= region' && open <= open' + region'
    ensures Spreads(width, height, mines, open', region', v)
  {
  }

  lemma ClosedWhenMoreOpen(width: int, height: int, mines: set<Coord>, open: set<Coord>, open': set<Coord>,
                           region: set<Coord>)
    requires Closed(width, height, mines, open, region)
    requires open <= open'
    ensures Closed(width, height, mines, open', region)
  {
    forall v | v in region
      ensures Spreads(width, height, mines, open', region, v)
    {
      SpreadsWeaken(width, height, mines, open, open', region, region, v);
    }
  }

  /** Entering `c` from `visited`: `c` joins the region, and the cascade of
      `auto_open(c)`, run after `c` was opened, supplies the rest. */
  lemma EnterRegion(width: int, height: int, mines: set<Coord>, open: set<Coord>, open1: set<Coord>,
                    c: Coord, visited: set<Coord>, visited': set<Coord>)
    requires c !in visited && visited + {c} <= visited'
    requires open <= open1 <= open + {c}
    requires Spreads(width, height, mines, open1, visited', c)
    requires SpreadsAll(width, height, mines, open1, visited' - (visited + {c}), visited')
    requires Least(width, height, mines, open1, c, visited' - (visited + {c}))
    ensures SpreadsAll(width, height, mines, open, visited' - visited, visited')
    ensures Least(width, height, mines, open, c, visited' - visited)
  {
    forall v | v in visited' - visited
      ensures Spreads(width, height, mines, open, visited', v)
    {
      SpreadsWeaken(width, height, mines, open1, open, visited', visited', v);
    }
    forall other | c in other && Closed(width, height, mines, open, other)
      ensures visited' - visited <= other
    {
      ClosedWhenMoreOpen(width, height, mines, open, open1, other);
    }
  }

  /** One turn of the loop of `auto_open(c)`: the closed neighbour `n` of
      the blank square `c` is entered, and what that call visits joins
      what the loop has visited so far. */
  lemma ExtendRegion(width: int, height: int, mines: set<Coord>, open: set<Coord>, open1: set<Coord>,
                     c: Coord, n: Coord, visited: set<Coord>, visited1: set<Coord>, visited2: set<Coord>)
    requires visited <= visited1 <= visited2
    requires open <= open1 <= open + (visited1 - visited)
    requires MineCount(width, height, mines, c) == 0
    requires InGrid(width, height, n) && Adjacent(c, n) && n !in open1
    requires SpreadsAll(width, height, mines, open, visited1 - visited, visited1)
    requires Least(width, height, mines, open, c, visited1 - visited)
    requires SpreadsAll(width, height, mines, open1, visited2 - visited1, visited2)
    requires Least(width, height, mines, open1, n, visited2 - visited1)
    ensures SpreadsAll(width, height, mines, open, visited2 - visited, visited2)
    ensures Least(width, height, mines, open, c, visited2 - visited)
  {
    forall v | v in visited2 - visited
      ensures Spreads(width, height, mines, open, visited2, v)
    {
      if v in visited1 - visited {
        SpreadsWeaken(width, height, mines, open, open, visited1, visited2, v);
      } else {
        SpreadsWeaken(width, height, mines, open1, open, visited2, visited2, v);
      }
    }
    forall other | c in other && Closed(width, height, mines, open, other)
      ensures visited2 - visited <= other
    {
      assert Spreads(width, height, mines, open, other, c);
      ClosedWhenMoreOpen(width, height, mines, open, open1, other);
    }
  }

  /** Opening the empty region leaves the board as it is. */
  lemma OpenNothing(squares: map<Coord, Square>)
    ensures OpenRegion(squares, {}) == squares
  {
    var r := OpenRegion(squares, {});
    assert r.Keys == squares.Keys;
    forall x | x in r
      ensures r[x] == squares[x]
    {
    }
  }

  /** `open(c)` when `c` was already entered: nothing changes. */
  lemma EmptyStep(width: int, height: int, before: map<Coord, Square>, c: Coord, visited: set<Coord>)
    ensures before == OpenRegion(before, visited - visited)
    ensures SpreadsAll(width, height, MineSet(before), OpenedSet(before), visited - visited, visited)
    ensures Least(width, height, MineSet(before), OpenedSet(before), c, visited - visited)
  {
    assert visited - visited == {};
    OpenNothing(before);
  }

  /** A square open after `region` was opened was open before or is in `region`. */
  lemma OpenedBefore(squares: map<Coord, Square>, region: set<Coord>, n: Coord)
    requires n in squares && OpenRegion(squares, region)[n].isOpened
    ensures n in OpenedSet(squares) || n in region
  {
  }

  /** The loop of `auto_open(c)` has reached every neighbour of `c`. */
  lemma ScanSpreads(width: int, height: int, mines: set<Coord>, open: set<Coord>, region: set<Coord>,
                    c: Coord, around: seq<Coord>)
    requires forall n :: InGrid(width, height, n) && Adjacent(c, n) ==> n in around
    requires forall j :: 0 <= j < |around| ==> around[j] in region || around[j] in open
    ensures Spreads(width, height, mines, open, region, c)
  {
  }

  /** The whole of `open(c)` when `c` is entered: `c` is opened first (giving
      `opened1`), and the cascade from it opens the rest of the region. */
  lemma EnterStep(width: int, height: int, before: map<Coord, Square>, opened1: map<Coord, Square>,
                  after: map<Coord, Square>, c: Coord, visited: set<Coord>, visited': set<Coord>)
    requires c !in visited && visited + {c} <= visited'
    requires opened1 == OpenRegion(before, {c})
    requires after == OpenRegion(opened1, visited' - (visited + {c}))
    requires Spreads(width, height, MineSet(opened1), OpenedSet(opened1), visited', c)
    requires SpreadsAll(width, height, MineSet(opened1), OpenedSet(opened1), visited' - (visited + {c}), visited')
    requires Least(width, height, MineSet(opened1), OpenedSet(opened1), c, visited' - (visited + {c}))
    ensures after == OpenRegion(before, visited' - visited)
    ensures SpreadsAll(width, height, MineSet(before), OpenedSet(before), visited' - visited, visited')
    ensures Least(width, height, MineSet(before), OpenedSet(before), c, visited' - visited)
  {
    OpenRegionTwice(before, {c}, visited' - (visited + {c}));
    assert {c} + (visited' - (visited + {c})) == visited' - visited;
    OpenRegionSets(before, {c});
    EnterRegion(width, height, MineSet(before), OpenedSet(before), OpenedSet(opened1), c, visited, visited');
  }

  /** `open(c)` when `c` has a mine around it: only `c` is entered. */
  lemma LeafStep(width: int, height: int, before: map<Coord, Square>, opened1: map<Coord, Square>,
                 c: Coord, visited: set<Coord>)
    requires c !in visited
    requires opened1 == OpenRegion(before, {c})
    requires MineCount(width, height, MineSet(opened1), c) != 0
    ensures opened1 == OpenRegion(before, (visited + {c}) - visited)
    ensures SpreadsAll(width, height, MineSet(before), OpenedSet(before), (visited + {c}) - visited, visited + {c})
    ensures Least(width, height, MineSet(before), OpenedSet(before), c, (visited + {c}) - visited)
  {
    var entered := (visited + {c}) - visited;
    assert entered == {c};
    OpenRegionSets(before, {c});
    forall v | v in entered
      ensures Spreads(width, height, MineSet(before), OpenedSet(before), visited + {c}, v)
    {
    }
  }

  /** One turn of the loop of `auto_open(c)` that calls `open(n)`: `current`
      is the board before the call, `after` the board after it. */
  lemma AutoStep(width: int, height: int, before: map<Coord, Square>, current: map<Coord, Square>,
                 after: map<Coord, Square>, c: Coord, n: Coord,
                 visited: set<Coord>, visitedNow: set<Coord>, visited': set<Coord>)
    requires visited <= visitedNow <= visited'
    requires current == OpenRegion(before, visitedNow - visited)
    requires after == OpenRegion(current, visited' - visitedNow)
    requires MineCount(width, height, MineSet(before), c) == 0
    requires InGrid(width, height, n) && Adjacent(c, n) && n in current && !current[n].isOpened
    requires SpreadsAll(width, height, MineSet(before), OpenedSet(before), visitedNow - visited, visitedNow)
    requires Least(width, height, MineSet(before), OpenedSet(before), c, visitedNow - visited)
    requires SpreadsAll(width, height, MineSet(current), OpenedSet(current), visited' - visitedNow, visited')
    requires Least(width, height, MineSet(current), OpenedSet(current), n, visited' - visitedNow)
    ensures after == OpenRegion(before, visited' - visited)
    ensures SpreadsAll(width, height, MineSet(before), OpenedSet(before), visited' - visited, visited')
    ensures Least(width, height, MineSet(before), OpenedSet(before), c, visited' - visited)
  {
    OpenRegionTwice(before, visitedNow - visited, visited' - visitedNow);
    assert (visitedNow - visited) + (visited' - visitedNow) == visited' - visited;
    OpenRegionSets(before, visitedNow - visited);
    ExtendRegion(width, height, MineSet(before), OpenedSet(before), OpenedSet(current),
                 c, n, visited, visitedNow, visited');
  }

  /** Opening `c` has one outcome: the flood region is unique. */
  lemma RegionUnique(width: int, height: int, mines: set<Coord>, open: set<Coord>,
                     c: Coord, region: set<Coord>, region': set<Coord>)
    requires IsRegion(width, height, mines, open, c, region)
    requires IsRegion(width, height, mines, open, c, region')
    ensures region == region'
  {
    assert region <= region';
    assert region' <= region;
  }

  /** Apart from `c` itself, the flood visits only squares that were closed
      and hold no mine: the cascade never opens a mine. */
  lemma {:induction false} RegionIsSafe(width: int, height: int, mines: set<Coord>, open: set<Coord>,
                                        c: Coord, region: set<Coord>)
    requires IsRegion(width, height, mines, open, c, region)
    ensures forall v :: v in region && v != c ==> v !in mines && v !in open
  {
    var safe := set v | v in region && (v == c || (v !in mines && v !in open));
    forall v | v in safe
      ensures Spreads(width, height, mines, open, safe, v)
    {
      if MineCount(width, height, mines, v) == 0 {
        forall n | n in CoordsAround(width, height, v)
          ensures n in safe || n in open
        {
          assert Spreads(width, height, mines, open, region, v);
          BlankHasSafeNeighbours(width, height, mines, v, n);
        }
      }
    }
    assert Closed(width, height, mines, open, safe);
  }

  /** One step towards `q` from `p`, diagonally when both coordinates differ. */
  function StepTowards(p: Coord, q: Coord): Coord {
    (p.0 + (if p.0 < q.0 then 1 else if p.0 > q.0 then -1 else 0),
     p.1 + (if p.1 < q.1 then 1 else if p.1 > q.1 then -1 else 0))
  }

  function Distance(p: Coord, q: Coord): nat {
    (if p.0 < q.0 then q.0 - p.0 else p.0 - q.0) + (if p.1 < q.1 then q.1 - p.1 else p.1 - q.1)
  }

  /** Without mines and open squares, the flood spreads from `p` to any `q`. */
  lemma {:induction false} FloodReaches(width: int, height: int, region: set<Coord>, p: Coord, q: Coord)
    requires Closed(width, height, {}, {}, region)
    requires p in region && InGrid(width, height, p) && InGrid(width, height, q)
    ensures q in region
    decreases Distance(p, q)
  {
    if p != q {
      var p' := StepTowards(p, q);
      assert AdjacentMines(width, height, {}, p) == {};
      assert Spreads(width, height, {}, {}, region, p);
      assert p' in CoordsAround(width, height, p);
      FloodReaches(width, height, region, p', q);
    }
  }

  /** On a board without mines where nothing is open and nothing flagged,
      opening any one square wins the game. */
  lemma NoMinesOneOpenWins(width: nat, height: nat, squares: map<Coord, Square>, c: Coord, region: set<Coord>)
    requires squares.Keys == Grid(width, height) && InGrid(width, height, c)
    requires MineSet(squares) == {} && OpenedSet(squares) == {}
    requires forall x :: x in squares ==> !squares[x].flagged
    requires IsRegion(width, height, MineSet(squares), OpenedSet(squares), c, region)
    ensures Won(OpenRegion(squares, region))
  {
    var r := OpenRegion(squares, region);
    forall x | x in r
      ensures r[x].isOpened && !r[x].mine
    {
      FloodReaches(width, height, region, c, x);
      assert x !in MineSet(squares);
    }
  }

  /** After opening the region of a square with no mine around it, each of
      its unflagged neighbours is open. */
  lemma BlankOpensNeighbours(width: nat, height: nat, squares: map<Coord, Square>, c: Coord,
                             region: set<Coord>)
    requires squares.Keys == Grid(width, height)
    requires IsRegion(width, height, MineSet(squares), OpenedSet(squares), c, region)
    requires MineCount(width, height, MineSet(squares), c) == 0
    ensures forall n :: n in CoordsAround(width, height, c) && !squares[n].flagged ==>
      OpenRegion(squares, region)[n].isOpened
  {
    assert Spreads(width, height, MineSet(squares), OpenedSet(squares), region, c);
  }

  /** Opening squares never undoes a loss: an open mine stays open. */
  lemma LossStays(squares: map<Coord, Square>, region: set<Coord>)
    requires Lost(squares)
    ensures Lost(OpenRegion(squares, region))
  {
    var x :| x in squares && squares[x].mine && squares[x].isOpened;
    assert OpenRegion(squares, region)[x].isOpened;
  }
}
