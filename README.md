# Minesweeper rules engine in Dafny

This project models the rules engine of a small Tkinter Minesweeper game,
the `Square` and `Game` classes of `minesweeper.py`. It leaves out the GUI.

A game is a `width` x `height` grid. The grid is a dictionary from `(x, y)`
to a square with three booleans: `opened`, `mine` and `flagged`. The
operations are:

- the constructor, which places `mines` mines;
- `toggle_flag`;
- the recursive flood fill `open`/`auto_open`;
- the neighbourhood queries `coords_around`, `mines_around` and
  `number_of_mines_around`;
- the end-of-game queries `explosion_coords`, `exploded`, `win` and `over`.

The project has four modules.

- `Board` (`board.dfy`): values.
  - The `Square` datatype: the `Square` class of minesweeper.py:12-17, with
    its three fields. `opened` is called `isOpened`, because `opened` is a
    reserved word in Dafny.
  - The grid and its size.
  - The neighbourhood scan of `coords_around`, in the order its two nested
    offset loops visit squares. It is proved to hold each in-grid neighbour
    exactly once, in scan order, and to be the only sequence that does.
  - Mine counting.
  - `toggle_flag` as a function on boards.
  - The loss and win predicates.
- `Flood` (`flood.dfy`): what a call of `open(c)` visits, characterised
  without any scan order.
  - The region of `c` is the least set that holds `c` and is closed under
    the cascade step: "a visited square with no mine around it visits every
    neighbour that was not open".
  - Opening the region opens every unflagged square in it.
  - Lemmas prove that the region is unique, that the cascade opens no mine
    besides `c`, and that on a mine-free fresh board one click wins.
- `Minesweeper` (`minesweeper.dfy`): the `Game` class.
  - The fields are `width`, `height`, `mines` and `squares: map<Coord, Square>`.
  - The constructor, `ToggleFlag`, `Open` and `AutoOpen` update `squares`.
  - The loops of `number_of_mines_around`, `explosion_coords` and `win` are
    methods proved against the functions of `Board`.
  - `Open` keeps a set of the squares the cascade has entered, so that it
    ends on every board. It is proved to open exactly the unflagged squares
    of the flood region.
- `AsWritten` (`as_written.dfy`): `open`/`auto_open` exactly as the
  source recurses, with no visited set.
  - `fuel` bounds the number of nested calls (Python's recursion limit).
  - `None` stands for the `RecursionError`. The squares opened before it
    was raised are not kept (see Left out).
  - Wherever this recursion finishes, it leaves the same board as
    `Minesweeper.Game.Open`.
  - It does not always finish; see Findings.

## Model

| member | source | states |
|---|---|---|
| Board.Grid | minesweeper.py:32 | `all_coords` of the constructor: exactly the coordinates with `0 <= x < width` and `0 <= y < height` |
| Board.GridSize | minesweeper.py:32 | the grid has `width * height` coordinates |
| Board.CoordsAround | minesweeper.py:56-67 | `coords_around(c)` yields exactly the in-grid squares of the 3x3 block around `c`, never `c` itself, at most 8 of them |
| Board.CoordsAroundOrdered | minesweeper.py:58-67 | the squares come strictly in x-offset-then-y-offset scan order, so none repeats |
| Board.IncreasingUnique | minesweeper.py:58-67 | two strictly scan-ordered sequences with the same members are equal |
| Board.AroundUnique | minesweeper.py:56-67 | any sequence holding exactly the in-grid neighbours of `c`, in scan order, is `coords_around(c)` |
| Board.MinesAround | minesweeper.py:69-72 | `mines_around(c)` yields exactly the neighbours of `c` that hold a mine |
| Board.MinesAroundCount | minesweeper.py:69-78 | `mines_around(c)` yields each of those mines once, in scan order, so its length is the number of adjacent mines |
| Board.MineCount | minesweeper.py:74-78 | the number of mines around a square is at most 8 |
| Board.BlankHasSafeNeighbours | minesweeper.py:48-54 | a square whose count is 0 has no mine on any in-grid neighbour |
| Board.Lost | minesweeper.py:83-90 | `exploded()`: some square is both a mine and open, that is, the mine set and the open set meet |
| Board.Won | minesweeper.py:92-96 | `win()`: every square is a mine or open and none is both, that is, each square is exactly one of mine and open |
| Board.WonIff | minesweeper.py:92-96 | `win()` holds iff the open squares are exactly the squares without a mine; a board is never won and exploded at once |
| Board.Toggled | minesweeper.py:41-43 | `toggle_flag(c)` flips the flag of `c` only when `c` is closed, and changes no other field of any square |
| Board.ToggledTwice | minesweeper.py:41-43 | toggling the same square twice restores the board |
| Board.ToggledKeepsOutcome | minesweeper.py:41-43 | a flag changes neither the mines, the open squares, `exploded()` nor `win()` |
| Flood.SpreadsScan | minesweeper.py:48-54 | the cascade step is what `open` does at a square with count 0: each square of `coords_around` is visited or was already open |
| Flood.OpenRegion | minesweeper.py:46-47 | opening a set of squares opens its unflagged squares and changes no mine or flag |
| Flood.RegionUnique | minesweeper.py:45-54 | the flood region of `c` is unique, so the result of `open` does not depend on the order of the scan |
| Flood.RegionIsSafe | minesweeper.py:48-54 | apart from `c`, the flood enters only closed squares without a mine |
| Flood.FloodReaches | minesweeper.py:48-54 | with no mine and nothing open, the flood from any square reaches every square of the grid |
| Flood.NoMinesOneOpenWins | minesweeper.py:45-54 | on a fresh board without mines or flags, opening any one square wins |
| Flood.BlankOpensNeighbours | minesweeper.py:48-54 | after opening a square with count 0, each of its unflagged neighbours is open |
| Flood.LossStays | minesweeper.py:83-90 | opening squares never makes `exploded()` false again |
| Flood.EnterStep | minesweeper.py:45-49 | `open(c)` = open `c`, then its `auto_open`: together they open the region of `c` |
| Flood.LeafStep | minesweeper.py:45-48 | `open(c)` with a mine around `c` opens `c` alone, and that is its region |
| Flood.AutoStep | minesweeper.py:51-54 | one turn of the loop of `auto_open` that calls `open` adds that call's region to what the loop has opened |
| Minesweeper.OpenRegionWellFormed | minesweeper.py:45-54 | opening keeps the board well formed: one square per coordinate, flagged squares closed, the same mines |
| Minesweeper.Game.constructor | minesweeper.py:28-36 | a new game has one square per grid coordinate; none is open or flagged; the mines are exactly the sampled coordinates, `mines` of them |
| Minesweeper.Game.Get | minesweeper.py:38-39 | `game[c]` is the square at `c`, never both flagged and open |
| Minesweeper.Game.AllCoords | minesweeper.py:80-81 | `all_coords()` is exactly the grid, `width * height` coordinates |
| Minesweeper.Game.ToggleFlag | minesweeper.py:41-43 | the board becomes `Toggled` of the old board; the game stays valid; `exploded()` and `win()` do not change |
| Minesweeper.Game.NumberOfMinesAround | minesweeper.py:74-78 | the counter loop returns the number of mines around `c` and changes nothing |
| Minesweeper.Game.Open | minesweeper.py:45-54 | the new board is the old one with the flood region of `c` opened. No mine or flag changes and nothing closes. `c` opens iff it is not flagged. The cascade opens no mine. A count of 0 leaves every unflagged neighbour open. Opening an unflagged mine loses, and a loss stays. A mine-free fresh board is won in one click |
| Minesweeper.Game.OpenFrom | minesweeper.py:45-49 | `open(c)` with the set of squares already entered: it adds the region of `c` not yet entered and opens its unflagged squares |
| Minesweeper.Game.ScanAround | minesweeper.py:56-67 | `coords_around(c)`: every in-grid neighbour of `c`, each once, in scan order |
| Minesweeper.Game.AutoOpen | minesweeper.py:51-54 | `auto_open(c)` opens, for every closed neighbour, that neighbour's region, and leaves every neighbour of `c` entered or open |
| Minesweeper.Game.ExplosionCoords | minesweeper.py:83-87 | returns an open mine if there is one, and None iff there is none |
| Minesweeper.Game.Exploded | minesweeper.py:89-90 | `exploded()` holds iff some square is both a mine and open |
| Minesweeper.Game.Win | minesweeper.py:92-96 | `win()` holds iff the open squares are exactly the squares without a mine |
| Minesweeper.Game.Over | minesweeper.py:98-99 | `over()` holds iff the game is exploded or won |
| AsWritten.OpenSquare | minesweeper.py:46-47 | the first statement of `open(c)` opens `c` unless it is flagged, and changes no mine |
| AsWritten.Open | minesweeper.py:45-49 | the source's `open`, given a call budget: when it finishes, the grid and the mines are unchanged |
| AsWritten.AutoOpen | minesweeper.py:51-54 | the source's `auto_open` loop, given a call budget: when it finishes, the grid and the mines are unchanged |
| AsWritten.OpenEnters | minesweeper.py:45-54 | when the source's `open(c)` finishes, the squares it entered are the flood region of `c`, and its board is that region opened |
| AsWritten.AutoEnters | minesweeper.py:51-54 | when the loop of `auto_open` finishes, the squares it entered are the least closed set reaching every closed square it scans |
| AsWritten.AsWrittenAgrees | minesweeper.py:45-54 | wherever the source's recursion finishes, it leaves the board `Minesweeper.Game.Open` computes |
| AsWritten.FlaggedPair | minesweeper.py:41-43 | a fresh 3 x 1 mine-free board after `toggle_flag((0, 0))` and `toggle_flag((1, 0))` |
| AsWritten.RowAround | minesweeper.py:56-67 | on a 3 x 1 board, `coords_around` yields the row neighbours, left to right |
| AsWritten.EntryFails | minesweeper.py:45-54 | `open(c)` with count 0 fails if the `open(b)` that its `auto_open` calls first fails |
| AsWritten.FlaggedStep | minesweeper.py:45-54 | on a flagged square `a` with count 0, `open(a)` leaves the board as it is and calls `open(b)` first |
| AsWritten.PairLoops | minesweeper.py:45-54 | two squares whose `open` each call the other first: `open` on either fails however large the budget |
| AsWritten.EntersLoop | minesweeper.py:45-54 | an `open` that first reaches such a pair fails however large the budget |
| AsWritten.RowPairDiverges | minesweeper.py:45-54 | on a 3 x 1 mine-free board flagged at (0, 0) and (1, 0), `open((2, 0))` fails however large the budget |
| AsWritten.FlaggedPairDiverges | minesweeper.py:45-54 | the same, for the board that `FlaggedPair` builds |

## Left out

- The Tkinter GUI (`PlayingArea`, the menus, the help and about boxes, `main`): it is user interface only. Its range check on clicks becomes the requirement that `c` is on the grid in `Open` and `ToggleFlag`.
- `random.sample` in the constructor: the constructor takes the sampled coordinates as a parameter. It requires `mines` distinct grid coordinates, which is where `random.sample` would raise `ValueError`. Uniformity is not modelled.
- `Square.__repr__`: debug formatting only.
- Iteration order of the dictionary in `all_coords`: `ExplosionCoords` and `Win` scan the squares in an arbitrary order. Which open mine `ExplosionCoords` returns is therefore not fixed, only that it returns one.
- Python objects and aliasing: a `Square` is a value in a map that the methods reassign. Nothing outside the game holds a square.
- Looking up a coordinate outside the grid raises `KeyError` in the source. The model requires `c` to be on the grid instead.
- AsWritten.Open: the depth of Python's call stack is a fuel count. The exact recursion limit, and which frames count towards it, is not modelled.
- AsWritten.Open: the board that a failed call leaves behind is not modelled. A failed call returns `None`, not the partly opened board. In the source, `open` sets `opened` before it recurses, so the squares opened before the `RecursionError` stay open. The error escapes the click handler, and Tkinter reports it and goes on. On the Findings input, (2, 0) stays open.
- Game constructor defaults: the defaults `width=9, height=9, mines=10` are not modelled; the caller always passes all three.
- Negative dimensions: `width` and `height` are `nat` here. Python also accepts negative values and then builds an empty grid, because a `range` of a negative number is empty.
- Minesweeper.Game.Open: it differs from the source on purpose. A square already entered by the current cascade is not entered again, so the call ends on every board (see Findings).

## Findings

| source | as written | input that shows it | evidently intended | confidence | as-written member | corrected member |
|---|---|---|---|---|---|---|
| minesweeper.py:45-54 | `open` cascades from a flagged square with no mine around it, but does not open it. `auto_open` re-enters every neighbour that is not open. Two adjacent flagged squares with no mine around them therefore call `open` on each other until `RecursionError`. The GUI's left click calls `open` on any square, flagged or not (minesweeper.py:203-205). | a 3 x 1 board without mines; `toggle_flag((0, 0))`, `toggle_flag((1, 0))`, then `open((2, 0))` | `open` finishes and opens the unflagged squares of the flood region of the square clicked | not executed | AsWritten.FlaggedPairDiverges | Minesweeper.Game.Open |

`AsWritten.FlaggedPairDiverges` proves that on this input the source's
recursion fails for every call budget. `Minesweeper.Game.Open` ends on every
board, because it does not enter a square twice. It is proved to open the
flood region. `AsWritten.AsWrittenAgrees` proves that wherever the source
finishes, it leaves the same board.
