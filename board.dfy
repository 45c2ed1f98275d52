/** Value-level rules of the board: coordinates, squares, the neighbourhood
    scan of `coords_around`, mine counting and the two end-of-game
    predicates. The `Game` class in module Minesweeper reads its grid
    through these functions. */
module Board {

  type Coord = (int, int)

  /** One grid position. `isOpened` is the source's `opened` (a reserved word
      here); `Square()` builds all three booleans false. */
  datatype Square = Square(isOpened: bool, mine: bool, flagged: bool)

  datatype Option<T> = None | Some(value: T)

  /** A square as the constructor of the board first creates it. */
  const Untouched := Square(false, false, false)

  predicate InGrid(width: int, height: int, c: Coord) {
    0 <= c.0 < width && 0 <= c.1 < height
  }

  /** Every coordinate of a `width` x `height` board. */
  function Grid(width: nat, height: nat): (r: set<Coord>)
    ensures forall c :: c in r <==> InGrid(width, height, c)
  {
    set x, y | 0 <= x < width && 0 <= y < height :: (x, y)
  }

  function Column(x: int, height: nat): (r: set<Coord>)
    ensures forall c :: c in r <==> c.0 == x && 0 <= c.1 < height
  {
    set y | 0 <= y < height :: (x, y)
  }

  lemma {:induction false} ColumnSize(x: int, height: nat)
    ensures |Column(x, height)| == height
  {
    if height > 0 {
      ColumnSize(x, height - 1);
      assert Column(x, height) == Column(x, height - 1) + {(x, height - 1)};
    } else {
      assert Column(x, 0) == {};
    }
  }

  /** Dropping the last column of a board takes away `height` squares. */
  lemma GridSplit(width: nat, height: nat)
    requires width > 0
    ensures |Grid(width, height)| == |Grid(width - 1, height)| + height
  {
    var rest, column := Grid(width - 1, height), Column(width - 1, height);
    ColumnSize(width - 1, height);
    assert Grid(width, height) == rest + column;
    assert rest * column == {};
    assert |rest + column| == |rest| + |column|;
  }

  /** The board has one square per coordinate: `width * height` of them. */
  lemma {:induction false} GridSize(width: nat, height: nat)
    ensures |Grid(width, height)| == width * height
  {
    if width > 0 {
      GridSize(width - 1, height);
      GridSplit(width, height);
      MulPred(width, height);
    } else {
      assert Grid(0, height) == {};
    }
  }

  lemma MulPred(a: nat, b: nat)
    requires a > 0
    ensures (a - 1) * b + b == a * b
  {
  }

  /** `n` lies in the 3x3 block centred on `c` and is not `c` itself. */
  predicate Adjacent(c: Coord, n: Coord) {
    n != c && -1 <= n.0 - c.0 <= 1 && -1 <= n.1 - c.1 <= 1
  }

  /** The scan order of `coords_around`: by x offset first, then by y offset. */
  predicate Before(a: Coord, b: Coord) {
    a.0 < b.0 || (a.0 == b.0 && a.1 < b.1)
  }

  predicate Increasing(s: seq<Coord>) {
    forall i, j :: 0 <= i < j < |s| ==> Before(s[i], s[j])
  }

  /** The offset of the `k`-th square around a centre, in the order the two
      nested offset loops of `coords_around` visit them: x offset first,
      then y offset, each from -1 to 1, with (0, 0) skipped. */
  function Offset(k: int): Coord {
    if k < 3 then (-1, k - 1) else if k < 5 then (0, 2 * k - 7) else (1, k - 6)
  }

  function Neighbour(c: Coord, k: int): Coord {
    (c.0 + Offset(k).0, c.1 + Offset(k).1)
  }

  /** The eight offsets are the eight neighbours. */
  lemma AdjacentIsNeighbour(c: Coord, n: Coord)
    ensures Adjacent(c, n) <==> exists k :: 0 <= k < 8 && n == Neighbour(c, k)
  {
    if Adjacent(c, n) {
      var dx, dy := n.0 - c.0, n.1 - c.1;
      var k := if dx == -1 then dy + 1 else if dx == 0 then (if dy == -1 then 3 else 4) else dy + 6;
      assert n == Neighbour(c, k);
    }
  }

  /** The offsets come in scan order. */
  lemma OffsetOrdered(c: Coord, i: int, j: int)
    requires 0 <= i < j < 8
    ensures Before(Neighbour(c, i), Neighbour(c, j))
  {
  }

  /** The 3x3 block around `c` without `c`, in the order the two nested
      offset loops of `coords_around` visit it. */
  function Block(c: Coord): (r: seq<Coord>)
    ensures |r| == 8
    ensures forall n {:trigger n in r} :: n in r <==> Adjacent(c, n)
  {
    var r := seq(8, k => Neighbour(c, k));
    forall n
      ensures n in r <==> Adjacent(c, n)
    {
      AdjacentIsNeighbour(c, n);
      if Adjacent(c, n) {
        var k :| 0 <= k < 8 && n == Neighbour(c, k);
        assert r[k] == n;
      }
    }
    r
  }

  lemma BlockOrdered(c: Coord)
    ensures Increasing(Block(c))
  {
    forall i, j | 0 <= i < j < 8
      ensures Before(Block(c)[i], Block(c)[j])
    {
      OffsetOrdered(c, i, j);
    }
  }

  /** The elements of `s` that satisfy `p`, in their order in `s`. */
  function Filter(s: seq<Coord>, p: Coord -> bool): (r: seq<Coord>)
    ensures |r| <= |s|
    ensures forall x :: x in r <==> x in s && p(x)
  {
    if s == [] then [] else (if p(s[0]) then [s[0]] else []) + Filter(s[1..], p)
  }

  lemma {:induction false} FilterAppend(s: seq<Coord>, x: Coord, p: Coord -> bool)
    ensures Filter(s + [x], p) == Filter(s, p) + (if p(x) then [x] else [])
  {
    if s == [] {
      assert s + [x] == [x];
    } else {
      assert (s + [x])[1..] == s[1..] + [x];
      FilterAppend(s[1..], x, p);
    }
  }

  lemma FilterPrefix(s: seq<Coord>, i: nat, p: Coord -> bool)
    requires i < |s|
    ensures Filter(s[..i + 1], p) == Filter(s[..i], p) + (if p(s[i]) then [s[i]] else [])
  {
    assert s[..i + 1] == s[..i] + [s[i]];
    FilterAppend(s[..i], s[i], p);
  }

  lemma {:induction false} FilterIncreasing(s: seq<Coord>, p: Coord -> bool)
    requires Increasing(s)
    ensures Increasing(Filter(s, p))
  {
    if s != [] {
      FilterIncreasing(s[1..], p);
      var rest := Filter(s[1..], p);
      forall j | 0 <= j < |rest|
        ensures Before(s[0], rest[j])
      {
        assert rest[j] in s[1..];
        var k :| 0 <= k < |s[1..]| && s[1..][k] == rest[j];
        assert s[k + 1] == rest[j];
      }
    }
  }

  /** A sequence without repetitions has as many elements as its set. */
  lemma {:induction false} DistinctCard(s: seq<Coord>)
    requires forall i, j :: 0 <= i < j < |s| ==> s[i] != s[j]
    ensures |set x | x in s| == |s|
  {
    if s != [] {
      DistinctCard(s[1..]);
      assert (set x | x in s) == {s[0]} + (set x | x in s[1..]);
      forall k | 0 <= k < |s[1..]|
        ensures s[1..][k] != s[0]
      {
        assert s[k + 1] != s[0];
      }
    }
  }

  /** `coords_around(c)`: the in-grid squares of the 3x3 block around `c`,
      without `c`, each once, in scan order. */
  function CoordsAround(width: int, height: int, c: Coord): (r: seq<Coord>)
    ensures forall n :: n in r <==> InGrid(width, height, n) && Adjacent(c, n)
    ensures |r| <= 8
  {
    Filter(Block(c), n => InGrid(width, height, n))
  }

  /** `coords_around` yields its squares in scan order, each once. */
  lemma CoordsAroundOrdered(width: int, height: int, c: Coord)
    ensures Increasing(CoordsAround(width, height, c))
  {
    BlockOrdered(c);
    FilterIncreasing(Block(c), n => InGrid(width, height, n));
  }

  /** A strictly increasing sequence is fixed by its elements. */
  lemma {:induction false} IncreasingUnique(s: seq<Coord>, t: seq<Coord>)
    requires Increasing(s) && Increasing(t)
    requires forall x :: x in s <==> x in t
    ensures s == t
  {
    if s != [] {
      assert s[0] in s;
    }
    if t != [] {
      assert t[0] in t;
    }
    if s != [] && t != [] {
      assert s[0] in t;
      var k :| 0 <= k < |t| && t[k] == s[0];
      assert t[0] in s;
      var m :| 0 <= m < |s| && s[m] == t[0];
      assert s[0] == t[0];
      forall x
        ensures x in s[1..] <==> x in t[1..]
      {
        if x in s[1..] {
          var i :| 0 <= i < |s[1..]| && s[1..][i] == x;
          assert Before(s[0], s[i + 1]);
          assert x in t;
          var j :| 0 <= j < |t| && t[j] == x;
          assert t[1..][j - 1] == x;
        }
        if x in t[1..] {
          var i :| 0 <= i < |t[1..]| && t[1..][i] == x;
          assert Before(t[0], t[i + 1]);
          assert x in s;
          var j :| 0 <= j < |s| && s[j] == x;
          assert s[1..][j - 1] == x;
        }
      }
      IncreasingUnique(s[1..], t[1..]);
      assert s == [s[0]] + s[1..];
      assert t == [t[0]] + t[1..];
    }
  }

  /** Any scan of the squares around `c`, in order and each once, is
      `coords_around(c)`. */
  lemma AroundUnique(width: int, height: int, c: Coord, around: seq<Coord>)
    requires forall n :: n in around <==> InGrid(width, height, n) && Adjacent(c, n)
    requires Increasing(around)
    ensures around == CoordsAround(width, height, c)
  {
    CoordsAroundOrdered(width, height, c);
    IncreasingUnique(around, CoordsAround(width, height, c));
  }

  /** The coordinates whose square holds a mine. */
  function MineSet(squares: map<Coord, Square>): set<Coord> {
    set c | c in squares && squares[c].mine
  }

  /** The coordinates whose square is open. */
  function OpenedSet(squares: map<Coord, Square>): set<Coord> {
    set c | c in squares && squares[c].isOpened
  }

  /** The mines among the neighbours of `c`. */
  function AdjacentMines(width: int, height: int, mines: set<Coord>, c: Coord): set<Coord> {
    set n | n in mines && InGrid(width, height, n) && Adjacent(c, n)
  }

  /** `mines_around(c)`: the neighbours of `c` that hold a mine, in scan order. */
  function MinesAround(width: int, height: int, mines: set<Coord>, c: Coord): (r: seq<Coord>)
    ensures forall n :: n in r <==> n in AdjacentMines(width, height, mines, c)
  {
    Filter(CoordsAround(width, height, c), n => n in mines)
  }

  /** `mines_around(c)` yields each mine next to `c` once. */
  lemma MinesAroundCount(width: int, height: int, mines: set<Coord>, c: Coord)
    ensures Increasing(MinesAround(width, height, mines, c))
    ensures |MinesAround(width, height, mines, c)| == |AdjacentMines(width, height, mines, c)|
  {
    var s := MinesAround(width, height, mines, c);
    CoordsAroundOrdered(width, height, c);
    FilterIncreasing(CoordsAround(width, height, c), n => n in mines);
    DistinctCard(s);
    assert (set x | x in s) == AdjacentMines(width, height, mines, c);
  }

  /** `number_of_mines_around(c)`: how many neighbours of `c` hold a mine. */
  function MineCount(width: int, height: int, mines: set<Coord>, c: Coord): (r: nat)
    ensures r <= 8
  {
    MinesAroundCount(width, height, mines, c);
    |AdjacentMines(width, height, mines, c)|
  }

  /** A square whose count is zero has no mine next to it. */
  lemma BlankHasSafeNeighbours(width: int, height: int, mines: set<Coord>, c: Coord, n: Coord)
    requires MineCount(width, height, mines, c) == 0
    requires InGrid(width, height, n) && Adjacent(c, n)
    ensures n !in mines
  {
    var near := AdjacentMines(width, height, mines, c);
    assert |near| == 0;
    assert n in mines ==> n in near;
  }

  /** `exploded()`: some square is both a mine and open. */
  predicate Lost(squares: map<Coord, Square>)
    ensures Lost(squares) <==> MineSet(squares) * OpenedSet(squares) != {}
  {
    OpenMine(squares);
    exists c :: c in squares && squares[c].mine && squares[c].isOpened
  }

  /** An open mine is a square in both the mine set and the open set. */
  lemma OpenMine(squares: map<Coord, Square>)
    ensures (exists c :: c in squares && squares[c].mine && squares[c].isOpened)
      <==> MineSet(squares) * OpenedSet(squares) != {}
  {
    if MineSet(squares) * OpenedSet(squares) != {} {
      var x :| x in MineSet(squares) * OpenedSet(squares);
      assert x in squares && squares[x].mine && squares[x].isOpened;
    }
    if exists c :: c in squares && squares[c].mine && squares[c].isOpened {
      var x :| x in squares && squares[x].mine && squares[x].isOpened;
      assert x in MineSet(squares) * OpenedSet(squares);
    }
  }

  /** `win()`: every square is a mine or open, and nothing exploded. */
  predicate Won(squares: map<Coord, Square>)
    ensures Won(squares) <==> forall c :: c in squares ==> squares[c].mine != squares[c].isOpened
  {
    (forall c :: c in squares ==> squares[c].mine || squares[c].isOpened) && !Lost(squares)
  }

  /** A won board is exactly one whose open squares are its safe squares,
      and a board is never won and lost at once. */
  lemma WonIff(squares: map<Coord, Square>)
    ensures Won(squares) <==> OpenedSet(squares) == squares.Keys - MineSet(squares)
    ensures !(Won(squares) && Lost(squares))
  {
    if OpenedSet(squares) == squares.Keys - MineSet(squares) {
      forall c | c in squares
        ensures !(squares[c].mine && squares[c].isOpened)
      {
        if squares[c].isOpened {
          assert c in OpenedSet(squares);
        }
      }
      forall c | c in squares
        ensures squares[c].mine || squares[c].isOpened
      {
        if !squares[c].mine {
          assert c in squares.Keys - MineSet(squares);
        }
      }
    }
  }

  /** `toggle_flag(c)`: flips the flag of a closed square, leaves an open one. */
  function Toggled(squares: map<Coord, Square>, c: Coord): (r: map<Coord, Square>)
    requires c in squares
    ensures r.Keys == squares.Keys
    ensures forall x :: x in r ==>
      r[x].isOpened == squares[x].isOpened && r[x].mine == squares[x].mine
      && (r[x].flagged != squares[x].flagged <==> x == c && !squares[c].isOpened)
  {
    if squares[c].isOpened then squares
    else squares[c := squares[c].(flagged := !squares[c].flagged)]
  }

  /** Toggling the same square twice restores the board. */
  lemma ToggledTwice(squares: map<Coord, Square>, c: Coord)
    requires c in squares
    ensures Toggled(Toggled(squares, c), c) == squares
  {
  }

  /** A flag changes neither the mines, nor what is open, nor the outcome. */
  lemma ToggledKeepsOutcome(squares: map<Coord, Square>, c: Coord)
    requires c in squares
    ensures MineSet(Toggled(squares, c)) == MineSet(squares)
    ensures OpenedSet(Toggled(squares, c)) == OpenedSet(squares)
    ensures Lost(Toggled(squares, c)) == Lost(squares)
    ensures Won(Toggled(squares, c)) == Won(squares)
  {
    var t := Toggled(squares, c);
    if Lost(squares) {
      var x :| x in squares && squares[x].mine && squares[x].isOpened;
      assert t[x].mine && t[x].isOpened;
    }
    if Lost(t) {
      var x :| x in t && t[x].mine && t[x].isOpened;
      assert squares[x].mine && squares[x].isOpened;
    }
  }
}
