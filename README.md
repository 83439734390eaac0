# Diagonal Sudoku solver, modelled in Dafny

This project models the solving core of a diagonal-Sudoku solver written in
Python (`solution.py`). The core is constraint propagation followed by depth-first search.
The board maps each of the 81 cells to the set of digits still possible
there. Four strategies act on it:

- **eliminate**: a determined cell strikes its digit from its peers.
- **only choice**: a digit with a single place in a unit is put there.
- **naked twins**: two peers with the same two candidates strike those
  digits from every cell that is a peer of both.
- **reduce**: eliminate and only choice alternate until a pass determines
  no new cell. Reduce fails as soon as a cell has no candidate left.

Search reduces the board, applies naked twins once and then branches. The
branch cell is the first undetermined cell with the fewest candidates. Its
digits are tried in ascending order, each on a copy of the board.

Module layout, one file each:

- `topology.dfy` (`Topology`): cells are numbered row-major, so A1 is 0
  and I9 is 80. There are 29 units: rows, columns, boxes and the two
  diagonals. The peer relation is defined by coordinates and proved equal
  to "shares a unit".
- `boards.dfy` (`Boards`): the board (`seq<set<int>>`), "refines" (only
  strikes candidates), counts of determined cells and of candidates, and
  what a solution of the puzzle is.
- `elimination.dfy`, `only_choice.dfy`, `naked_twins.dfy`: one strategy
  each. Each is a method shaped like the Python loops: eliminate and only
  choice work in place on an `array`, and naked twins writes to a copy.
  Each method is proved equal to a specification function that folds over
  cells, or over units and digits, in the solver's own order. The
  strategy's properties are lemmas about that function.
- `reduce.dfy` (`Reduction`): the fixed-point loop, in place, with its
  termination measure (the count of determined cells).
- `search.dfy` (`Search`): branch-cell selection, the recursive search and
  `Solve`. The Python search has three kinds of result, and the datatype
  `Outcome` keeps them apart:
  - `Solved(board)`: a board comes back.
  - `Unsolvable`: Python `False`, returned when reduction empties a cell.
  - `NoAnswer`: Python `None`, returned when every branch fails.

Where the code and a plain reading of its documentation differ, the model
follows the code:

- Eliminate only acts for cells that were determined when the pass
  started. Such a cell acts only if it is still determined when the pass
  reaches it.
- Only choice writes its assignments in place. Later units in the same
  pass see them.
- A search whose branches all fail returns `None`, not `False`. `False`
  comes back only when the reduction of that node's own board empties a
  cell (`Search.SearchUnsolvable`).
- Naked twins can empty a cell: three cells that are pairwise peers and
  hold the same pair do this (`NakedTwinsStrategy.NakedTwinsEmptiesTriple`).
  An emptied cell has zero candidates, so it is chosen as the branch cell.
  There is then no digit to try, and search returns `None` rather than
  `False` (`Search.SearchEmptyAfterTwins`).

## Model

| member | source | states |
|---|---|---|
| Topology.UnitList | solution.py:5-13 | 29 units of nine cells each; unit 27 is the main diagonal A1..I9 and unit 28 the anti-diagonal A9..I1 |
| Topology.UnitCells | solution.py:5-13 | each unit lists nine distinct cells, and they are exactly the cells in that row, column, box or diagonal |
| Topology.UnitsOfCell | solution.py:17 | the units of a cell are its row, its column, its box and each diagonal it lies on; only the centre cell lies on both diagonals |
| Topology.PeersShareUnit | solution.py:18 | two cells are peers exactly when they are different and some unit holds both; the relation is symmetric and irreflexive |
| Topology.PeersHaveUnit | solution.py:18 | for any two peers, returns a unit that holds both |
| Topology.UnitMembersArePeers | solution.py:18 | any two different cells of one unit are peers |
| Boards.SolutionPeersDiffer | solution.py:16-18 | a complete valid grid gives different digits to any two peers |
| Elimination.StrikeFromPeers | solution.py:79-82 | the loop over the peers of one cell removes that cell's candidates from every peer and from no other cell |
| Elimination.Eliminate | solution.py:61-84 | the in-place pass leaves exactly the board of the specification fold: only cells determined at the start act, each only if it is still determined when reached, in row-major order |
| Elimination.EliminateRefines | solution.py:61-84 | eliminate only strikes candidates |
| Elimination.EliminateClearsPeers | solution.py:77-82 | a cell determined before and after the pass keeps its digit, and none of its peers still allows that digit |
| Elimination.EliminateCompletes | solution.py:77-82 | if the pass determines no new cell, every determined cell of the result is disjoint from all of its peers |
| Elimination.EliminateNoop | solution.py:61-84 | on a board where no peer of a determined cell allows its digit, the pass changes nothing |
| Elimination.EliminateIdempotent | solution.py:61-84 | if the pass determines no new cell, a second pass changes nothing |
| Elimination.EliminateKeepsSolution | solution.py:61-84 | the pass never strikes the digit that a solution allowed by the board puts in a cell |
| OnlyChoiceStrategy.PlacesSpec | solution.py:106 | the places of a digit are exactly the cells of the unit that allow it, and the list is empty when none does |
| OnlyChoiceStrategy.PlacesSingle | solution.py:106 | in a unit with no repeated cell, when only cell x allows the digit, its places list is exactly [x] |
| OnlyChoiceStrategy.PlacesOne | solution.py:106-107 | a single place is a cell of the unit that allows the digit, and no other cell of the unit allows it |
| OnlyChoiceStrategy.ChooseSingle | solution.py:105-108 | when exactly one cell x of the unit allows d, the step sets x to {d} and changes nothing else |
| OnlyChoiceStrategy.ChooseNone | solution.py:105-108 | when no cell, or two different cells, of the unit allow d, the step changes nothing |
| OnlyChoiceStrategy.ChooseNarrows | solution.py:105-108 | one step only sets a cell to a single digit it already allowed |
| OnlyChoiceStrategy.ChooseUnitsNarrowed | solution.py:104-108 | a pass over any prefix of the unit list only sets cells to single digits they allowed, leaving every other cell untouched |
| OnlyChoiceStrategy.OnlyChoiceInUnit | solution.py:105-108 | the in-place digit loop for one unit leaves exactly the board of the specification fold over digits 1..9 |
| OnlyChoiceStrategy.OnlyChoice | solution.py:87-109 | the in-place pass over all 29 units, in unit-list order, leaves exactly the board of the specification fold |
| OnlyChoiceStrategy.OnlyChoiceNarrows | solution.py:87-109 | only choice never empties a non-empty cell, only strikes candidates, keeps digits within 1..9 and never lowers the count of determined cells |
| OnlyChoiceStrategy.ChooseKeepsSolution | solution.py:105-108 | one step never strikes the digit that a solution allowed by the board puts in a cell |
| OnlyChoiceStrategy.OnlyChoiceKeepsSolution | solution.py:87-109 | the whole pass never strikes the digit that a solution allowed by the board puts in a cell |
| NakedTwinsStrategy.StrikeCommonPeers | solution.py:56-58 | the loop over common peers of a twin pair removes the pair's digits from exactly those cells |
| NakedTwinsStrategy.CoveredStep | solution.py:52-56 | widening the range of partners of anchor a by cell b adds exactly the pair (a, b) when they are twins |
| NakedTwinsStrategy.StrikeTwinsOf | solution.py:52-58 | the partner loop of anchor a, which skips visited cells, strikes a's pair from every cell that is a common peer of a and of some later twin of a |
| NakedTwinsStrategy.NakedTwins | solution.py:21-59 | the method equals the specification and refines its input; twins are matched on the unmodified input, and removals go to the copy |
| NakedTwinsStrategy.NakedTwinsRefines | solution.py:21-59 | naked twins only strikes candidates |
| NakedTwinsStrategy.StruckCovers | solution.py:48-58 | each twin pair anchored below n strikes its digits from its common peers |
| NakedTwinsStrategy.StruckHasReason | solution.py:48-58 | every struck digit belongs to a twin pair whose cells are both peers of the cell |
| NakedTwinsStrategy.NakedTwinsEffect | solution.py:21-59 | a candidate is struck from a cell if and only if some pair of naked twins, both peers of that cell, holds it |
| NakedTwinsStrategy.NakedTwinsUntouched | solution.py:47-59 | a cell that is not a common peer of any twin pair comes back unchanged |
| NakedTwinsStrategy.TwinsExcludeSolution | solution.py:24-27 | in a solution allowed by the board, no common peer of a twin pair holds either of the pair's digits |
| NakedTwinsStrategy.NakedTwinsKeepsSolution | solution.py:21-59 | naked twins never strikes the digit that a solution allowed by the board puts in a cell |
| NakedTwinsStrategy.NakedTwinsEmptiesTriple | solution.py:48-58 | three pairwise-peer cells holding the same pair make each of them empty |
| NakedTwinsStrategy.NoTwinHoldsOne | solution.py:52-58 | on a board whose only two-candidate cells are A1, A2 = {1, 2} and A3, A4 = {2, 3}, no twin pair around A1 or A2 holds 1 |
| NakedTwinsStrategy.NakedTwinsClashingPeers | solution.py:48-58 | with twins {1, 2} in A1, A2 and twins {2, 3} in A3, A4, naked twins leaves the peers A1 and A2 both determined to 1 |
| Reduction.CountDetermined | solution.py:129 | the number of cells with exactly one candidate |
| Reduction.AnyEmpty | solution.py:142 | true exactly when some cell has no candidate |
| Reduction.PassKeepsDetermined | solution.py:126-140 | a pass that empties no cell never lowers the count of determined cells, so the loop terminates |
| Reduction.PassStalled | solution.py:140 | a pass that empties no cell and keeps the count determines no open cell |
| Reduction.StalledPassIsFixed | solution.py:126-144 | after a stalled pass, only choice changed nothing, and a further pass of either strategy changes nothing |
| Reduction.ReducePuzzle | solution.py:112-144 | the in-place loop returns false exactly when the specification does, and leaves the board the specification reaches |
| Reduction.ReduceRefines | solution.py:112-144 | reduction only strikes candidates |
| Reduction.ReduceOutcome | solution.py:112-144 | the result is ok exactly when no cell is empty, and an ok board is a fixed point of both eliminate and only choice |
| Reduction.ReduceKeepsSolution | solution.py:112-144 | if the board allows a solution, reduction succeeds and its board still allows that solution |
| Search.SelectMinUpToSpec | solution.py:167-175 | the selection loop's invariant: the chosen cell is the first undetermined cell with fewest candidates so far; the bound stays 10 exactly when no cell so far has 0..9 candidates without being determined |
| Search.SelectMinSpec | solution.py:167-178 | on a board of digits 1..9, the bound stays 10 exactly when all cells are determined; otherwise the chosen cell is the first undetermined cell with the fewest candidates |
| Search.SelectMinEmpty | solution.py:167-175 | on a board with an empty cell, an empty cell is chosen, with bound 0 |
| Search.ChooseBranchCell | solution.py:167-175 | the selection loop computes the specification's branch cell and bound |
| Search.PreparedRefines | solution.py:163-166 | reduction followed by naked twins only strikes candidates |
| Search.SetCell | solution.py:181-182 | setting an open cell to one of its candidates refines the board and lowers its candidate total, which is the measure the recursion decreases on |
| Search.CopyBoard | solution.py:181 | a fresh array holding the board |
| Search.Search | solution.py:147-185 | the recursive method returns the specified outcome and leaves the caller's board reduced in place |
| Search.Branch | solution.py:179-185 | the branch loop returns the specified outcome, searching each candidate in ascending order on its own copy |
| Search.Solve | solution.py:188-205 | a returned board is fully determined and refines the givens; False comes back exactly when reduction of the givens fails; a board comes back whenever the givens allow a solution |
| Search.SearchSolved | solution.py:147-185 | any board search returns is fully determined and refines the board it started from |
| Search.TrySolved | solution.py:179-185 | any board the branch loop returns is fully determined and refines the branched board |
| Search.TryNeverUnsolvable | solution.py:179-185 | the branch loop never returns False: it returns a board or None |
| Search.SearchUnsolvable | solution.py:162-185 | search returns False if and only if reduction of its own board fails |
| Search.SearchComplete | solution.py:147-185 | whenever the board allows a solution, search returns a board |
| Search.TryComplete | solution.py:179-185 | the branch loop started at or below the solution's digit for the branch cell returns a board |
| Search.TryEmpty | solution.py:179-185 | the branch loop on a cell with no candidate returns None |
| Search.EmptyBranch | solution.py:167-185 | on a board with an empty cell, search branches on an empty cell and returns None |
| Search.SearchEmptyAfterTwins | solution.py:166-185 | when naked twins empties a cell of a successfully reduced board, search returns None, not False |
| Search.SolvedGridReturned | solution.py:147-185 | search on a complete valid grid returns that grid unchanged |

## Left out

- Parsing a grid string into a board (`grid2values`), `display`, the
  `utils` helpers (`cross`, `extract_units`, `extract_peers`, the row and
  column labels) and the `__main__` block are not part of this model.
  `Search.Solve` takes the board that parsing would produce.
- Candidate strings are modelled as sets of digits. Deleting digits from
  a string one at a time becomes set difference. The model relies on the
  solver's strings always listing digits in ascending order, so branch
  digits are tried as 1..9.
- The model takes the iteration order of the board dictionary and of
  `boxes` to be row-major. `grid2values` is not part of this model and is
  assumed to build the board in `boxes` order; `values.copy()` keeps that
  order.
- Search.Solve: it does not state that a returned board is a valid
  solution. Naked twins runs after the last eliminate pass, so two peers
  can be narrowed to the same digit
  (`NakedTwinsStrategy.NakedTwinsClashingPeers`). Only what the solver's documentation
  promises is proved: every cell is determined, and the board refines the
  givens.
- Python's dictionary copies, and the aliasing between the caller's
  dictionary and the one reduced in place, are modelled by arrays and
  immutable sequences. Only the reduction of the board passed in is
  visible to the caller.
