# Full House engine in Dafny

This project models the game engine of Full House (`fullhouse_engine.py`). Full House is a one-player puzzle on a square board. Some cells of the board are black (blocked).

- The player first picks a start cell.
- Then the player repeatedly chooses a direction. The path slides from its last turn point as far as it can go in that direction: over free cells, until it reaches the edge, a black cell or a cell the path already occupies.
- The puzzle is solved when no free cell is left.

The engine's `Scacchiera` keeps the board as a `dimensione × dimensione` matrix of cell codes (free, black, occupied). It also keeps the turn points of the path (`posizioni`) and the direction of each move (`direzioni`). It answers clicks and undos and solves a puzzle by exhaustive backtracking.

The project has four modules:

- `Geometry` (geometry.dfy) covers the direction and position algebra:
  - `Direzione` becomes the four-valued `Dir`, and `Posizione` becomes the `Pos` datatype;
  - `Opposta` becomes `Opposite`, `Contigua` becomes `Step` and `Posizione.Direzione` becomes `DirectionTo`;
  - `DIREZIONI` becomes `Directions`, in the order north, east, south, west.
- `Rules` (rules.dfy) states the rules on board values (`Game`):
  - which cells a path occupies (`Covered`);
  - which cells are traversable (`Open`, the engine's `Percorribile`);
  - how far a slide goes (`Run`);
  - the effects of a slide, a click and an undo (`Slid`, `Clicked`, `Undone`);
  - which states clicks can reach (`Legal`);
  - the two queries, `IsSolved` and `Stuck`.
- `Search` (search.dfy) gives the solver's specification.
  - `Explored` is the list of solutions `Esplora` records from a state, and `AllSolutions` is the list `Risolvi` records, in its order: start column `x` outer, row `y` inner, and within a state the directions in `Directions` order.
  - `Replay` replays a recorded `(start, directions…)` solution through clicks from the empty board.
- `Engine` (engine.dfy) holds the class `Board`, the imperative engine itself.
  - Its fields are an `array2<Cell>` indexed `cells[x, y]` like `matrice[x][y]`, plus the sequences `path`, `dirs` and `solutions`.
  - `Board.Valid()` is the invariant. It says the array stores exactly the cells the value `Model()` describes: a cell is occupied iff the path covers it, black iff it is in `blocked`, and free otherwise. It also says `Model()` is `Legal`.
  - Each method is proved against the `Rules` or `Search` function of the same operation.
  - The loops of `Percorri` and `Annulla` carry their invariants.
  - The recursion of `Esplora`/`Risolvi` restores the board after every branch.

A click is accepted only on a traversable cell. Once a start cell exists, the click must also be aligned with the last turn point. The slide then goes as far as it can in that direction: it may stop before or past the clicked cell. Every traversable aligned cell in one direction therefore has the same effect (`Rules.ClickedAccepts`).

## Model

| member | source | states |
|---|---|---|
| Geometry.Opposite | fullhouse_engine.py:32-41 | the opposite direction has the negated delta pair and differs from the original |
| Geometry.OppositeIsInvolution | fullhouse_engine.py:32-41 | Opposta applied twice is the identity; NORD↔SUD and EST↔OVEST |
| Geometry.StepThenBack | fullhouse_engine.py:79-82 | moving to the neighbour in direction d and then in the opposite direction returns to the start |
| Geometry.DirectionTo | fullhouse_engine.py:88-101 | None exactly when the cell is the position itself or shares neither coordinate with it; otherwise the direction whose ray reaches the cell after Dist ≥ 1 steps |
| Geometry.DirectionToRay | fullhouse_engine.py:88-101 | the cell k ≥ 1 steps away in direction d is reported as lying in direction d, so the direction is unique |
| Rules.RunIsMaximal | fullhouse_engine.py:174-188 | every cell the slide passes over is traversable, and the cell just past the last one is not |
| Rules.RunIsExact | fullhouse_engine.py:174-188 | any count with a traversable run of that length followed by a non-traversable cell is the slide length |
| Rules.SlidCovers | fullhouse_engine.py:179-188 | after a slide, the occupied cells are the old ones plus exactly the cells of the run from the last turn point |
| Rules.SlidCellsWereFree | fullhouse_engine.py:177-188 | every cell a slide occupies was free (in bounds, not black, not occupied) before it |
| Rules.Clicked | fullhouse_engine.py:195-208 | an accepted click was on a traversable cell; it extends the path by one turn point, keeps the earlier ones, and leaves the size and the black cells alone |
| Rules.ClickedAccepts | fullhouse_engine.py:195-208 | after the start cell, a click is accepted iff the cell is traversable, aligned with and distinct from the last turn point, and the first cell in its direction is traversable; the result is the maximal slide in that direction |
| Rules.ClickedIsLegal | fullhouse_engine.py:195-208 | a click on a reachable state reaches a reachable state and strictly reduces the number of free cells |
| Rules.Undone | fullhouse_engine.py:211-225 | an undo succeeds iff the path is non-empty, and then it drops exactly the last turn point |
| Rules.UndoneClicked | fullhouse_engine.py:211-225 | undoing an accepted click restores exactly the state before the click |
| Rules.PopCells | fullhouse_engine.py:215-220 | undoing a move frees exactly the cells from the popped turn point back to, excluding, the new last turn point |
| Rules.UndoneIsLegal | fullhouse_engine.py:211-225 | undo maps a reachable state to a reachable state |
| Rules.UndoAllEmpties | fullhouse_engine.py:211-225 | one undo per turn point takes a reachable state back to the empty board |
| Rules.SolvedIsStuck | fullhouse_engine.py:157-169 | on a solved board no neighbour of the last turn point is traversable, and no slide moves |
| Rules.StuckIffNoSlide | fullhouse_engine.py:165-169 | a dead end holds iff every direction's slide has length zero |
| Search.ClickNeighbour | fullhouse_engine.py:232-235 | clicking the neighbour in the direction of a state's last move, from the state before it, reproduces that move |
| Search.ReplayReproduces | fullhouse_engine.py:229-230 | every reachable state is what its start cell and direction list replay to from the empty board |
| Search.ExploredSound | fullhouse_engine.py:228-235 | every solution Esplora records from a state starts at the state's start cell, extends its directions, and replays to a solved board |
| Search.AllSolutionsSound | fullhouse_engine.py:238-250 | every solution Risolvi returns replays from the empty board to a solved board |
| Engine.Board.constructor | fullhouse_engine.py:105-108 | keeps the size and black cells and produces an empty, valid board |
| Engine.Board.Reset | fullhouse_engine.py:111-118 | empties the path and makes a fresh grid in which exactly the black cells are black and all others free |
| Engine.Board.TraversableIsOpen | fullhouse_engine.py:141-146 | the array test (in bounds and stored free) agrees with traversability on the board value |
| Engine.Board.Occupy | fullhouse_engine.py:149-150 | marks the cell occupied and changes no other cell |
| Engine.Board.Release | fullhouse_engine.py:153-154 | marks the cell free and changes no other cell |
| Engine.Board.Solved | fullhouse_engine.py:157-162 | returns true iff no cell of the board is traversable |
| Engine.Board.DeadEnd | fullhouse_engine.py:165-169 | returns true iff none of the four neighbours of the last turn point is traversable |
| Engine.Board.Slide | fullhouse_engine.py:174-188 | returns the length of the maximal run and leaves the board in the slid state, with the direction and end cell appended only when the run is non-empty |
| Engine.Board.Advance | fullhouse_engine.py:177-188 | the loop occupies exactly the cells of the ray up to the returned count, all of which were free, and stops before a non-free or off-board cell |
| Engine.Board.Click | fullhouse_engine.py:195-208 | reports acceptance exactly as the click rule does; an accepted click leaves the clicked state, a refused one changes nothing |
| Engine.Board.Undo | fullhouse_engine.py:211-225 | succeeds iff the path is non-empty and leaves the undone state; otherwise changes nothing |
| Engine.Board.Retreat | fullhouse_engine.py:215-220 | the walk-back loop frees exactly the cells from the popped end back to, excluding, the remaining last turn point, and changes no other cell |
| Engine.Board.Explore | fullhouse_engine.py:228-235 | appends exactly the solutions Esplora finds from the current state and returns the board to that state |
| Engine.Board.TryDirection | fullhouse_engine.py:232-235 | one iteration of the direction loop appends that branch's solutions and restores the board |
| Engine.Board.Solve | fullhouse_engine.py:238-250 | returns and stores every solution the search records, in its order (start column outer, row inner), and leaves the board empty, with exactly the black cells black |
| Engine.Board.TryColumn | fullhouse_engine.py:241-249 | one column of start cells appends that column's solutions and keeps the board empty |
| Engine.Board.TryStart | fullhouse_engine.py:247-249 | one start cell appends the solutions from it and keeps the board empty |

## Left out

- The graphical interface `fullhouse.py` (painting, hit testing, dialogs, timed replay, edit mode) is not part of this model. It is presentation code over a GUI library.
- The puzzle catalogue `fullhouse_problemi.py` is not part of this model. It is static data.
- The `__repr__` methods (fullhouse_engine.py:44-55, 121-137) only format debugging strings and are not modelled.
- The `raise` branches for unknown directions (fullhouse_engine.py:41, 81) are not modelled. `Dir` has exactly four values, so they cannot be reached.
- The commented-out code in `Risolvi` (fullhouse_engine.py:243-246) is not modelled.
- Black cells are required to lie inside the board (`requires` on the constructor, `Reset` and `Solve`). With an out-of-range black cell, Python would wrap a negative index or raise `IndexError` at fullhouse_engine.py:118. Neither behaviour is modelled.
- Positions and directions are values. `Posizione.__eq__` and `Direzione.__eq__` compare coordinates and deltas, and Dafny's datatype equality does the same.
- Engine.Board.Advance, Engine.Board.Retreat, Engine.Board.TryDirection, Engine.Board.TryColumn and Engine.Board.TryStart are not separate operations in the engine. They are the loops of `Percorri` and `Annulla`, and the bodies of the loops of `Esplora` and `Risolvi`, written as methods so that each has its own contract.
- `soluzioni` entries are tuples `(start, d1, …, dk)`. They are modelled as `Solution(start, [d1, …, dk])`.
- The `Test` scenario (fullhouse_engine.py:253-286) is not proved on its concrete board. Its grid check (lines 274-280) is the general postcondition of `Reset` and of the constructor. The claim that the 5×5 puzzle has exactly one solution, the listed one (lines 284-286), would need the verifier to unfold the whole search on concrete data, which is beyond its budget. The general soundness lemma (`Search.AllSolutionsSound`) is proved instead.
- Engine.Board.DeadEnd, Engine.Board.Slide and Engine.Board.Explore require a non-empty path. On an empty path Python raises `IndexError` (fullhouse_engine.py:167, 176, 230/233); no caller in the engine reaches that case, and the error is not modelled.
- Engine.Board.constructor starts `solutions` as the empty list, whereas `__init__` creates no `soluzioni` attribute until `Risolvi` sets it (fullhouse_engine.py:240). Its black-cell argument has no default; Python's default `posizioni_nere = ()` corresponds to passing `[]`.
- Search.AllSolutionsSound: soundness only. The model defines the exact list `Risolvi` returns (`Search.AllSolutions`, which `Engine.Board.Solve` is proved to return), but it does not prove that every solution replay appears in that list.
