# A verified model of the sudoku solver's core

This project models two layers of the C sudoku solver and generator.

**Preemptive sets.** These come from `preemptive_set.c` / `preemptive_set.h`.
- A *preemptive set* (`pset_t`) is a 64-bit word.
- Bit `i` stands for the colour `color_table[i]`. The table holds `1`-`9`, `A`-`Z`, `a`-`z`, `@&*`.
- The model keeps the word as a `bv64` (`PSets.PSet`). It reads the word through the abstraction `PSets.Elems`, the set of positions of its one bits.
- Every library operation is stated as the set operation it performs on that abstraction.

**The sudoku engine.** This comes from `sudoku.c`.
- A grid of side `n` is a flat sequence of `n*n` psets. Cell `(i, j)` sits at index `i*n + j`, the same encoding `grid_choice` returns.
- `subgrid_map` applies a group function to the rows, then the columns, then the blocks.
- `subgrid_heuristics` runs three propagation heuristics in order: `cross_hatching`, `lone_number` and `n_possible`.
- `grid_heuristics` repeats the sweep to a fixpoint, then classifies the grid as `SOLVED`, `CONSISTENT` or `UNCONSISTENT`.
- `grid_choice` picks the branching cell with the fewest candidates.
- `grid_solver` counts solutions by backtracking, in strict or non-strict mode, with ordered or random choices.
- `grid_generate` clears cells of a solved grid, in strict mode only while the solution stays unique.

The modules follow the program:

| module | models |
|---|---|
| `Bits` | one-bit facts about 64-bit words (helpers) |
| `PSets` | `preemptive_set.c`, `color_table`, `FULL`, `MAX_COLORS` |
| `Grids` | grid sizes, cell indices, the rows/columns/blocks of `subgrid_map`, `grid_valid_size`, `check_input_char` |
| `Subgrids` | `subgrid_count`, `subgrid_consistency` |
| `Heuristics` | `cross_hatching`, `lone_number`, `n_possible`, `subgrid_heuristics` |
| `Propagation` | `subgrid_map`, `grid_heuristics`, `grid_consistency`, `grid_solved`, `grid_choice` |
| `Solver` | `grid_solver` |
| `Generator` | `grid_generate` |

How the C constructs are represented:
- **Solutions.** A *solution* (`Propagation.IsSolution`) fills the grid with colours below `n`, each group holding each of them once.
- **Mode flags.** The global flags `strict` and `generate` become a `Solver.Mode` parameter.
- **Randomness.** Each `rand()` call becomes `rnd(k)`. `rnd` is an arbitrary function parameter, and `k` counts the calls made so far. Every property below holds for every `rnd`.
- **Mutation.** The C code changes cells through pointers; the model works on values. A group is gathered into a sequence, rewritten, and scattered back. Each function returns the new grid together with the flag the C function returns.

## Model

| member | source | states |
|---|---|---|
| PSets.ColorIndexInverse | include/preemptive_set.h:12-16 | a character has a colour index exactly when it is in the colour table, and the index is its position there |
| PSets.ColorTableDistinct | include/preemptive_set.h:12-16 | the 64 colour symbols are pairwise distinct |
| PSets.HashOutsideAlphabet | include/preemptive_set.h:12-16 | `#` is not a colour symbol |
| PSets.ElemsInjective | include/preemptive_set.h:18 | two words with the same colours are the same word |
| PSets.FromChar | src/preemptive_set.c:5-27 | `char2pset(c)` holds exactly the position of `c` in the table, and nothing for any other character |
| PSets.OutsideAlphabet | src/preemptive_set.c:64-74 | for a character outside the table, `char2pset` is empty and `pset_set` / `pset_discard` leave the set unchanged |
| PSets.ToStr | src/preemptive_set.c:29-47 | `pset2str` lists the symbols of the set's colours, one per colour, and its length is the cardinality |
| PSets.ListBelowSorted | src/preemptive_set.c:35-44 | the listed symbols appear in increasing colour order |
| PSets.ListBelowCovers | src/preemptive_set.c:35-44 | every colour of the set appears in the listing |
| PSets.FullRange | src/preemptive_set.c:49-56 | `pset_full(r)` holds exactly the colours below `min(r, 64)` |
| PSets.FullRangeCap | src/preemptive_set.c:52-55 | a range of 64 or more gives `FULL`, whose negation is empty |
| PSets.FullRangeCard | src/preemptive_set.c:49-56 | `pset_full(r)` has `min(r, 64)` colours |
| PSets.Empty | src/preemptive_set.c:58-62 | `pset_empty` holds no colour |
| PSets.SetColor | src/preemptive_set.c:64-68 | `pset_set` adds the character's colour, if any |
| PSets.Discard | src/preemptive_set.c:70-74 | `pset_discard` removes the character's colour, if any |
| PSets.Subtract | src/preemptive_set.c:76-80 | `pset_substract` is set difference |
| PSets.Equals | src/preemptive_set.c:82-86 | `pset_equals` holds exactly when the two sets have the same colours |
| PSets.Negate | src/preemptive_set.c:88-92 | `pset_negate` is the complement within the 64 colours |
| PSets.NegateInvolution | src/preemptive_set.c:88-92 | negating twice gives back the set |
| PSets.And | src/preemptive_set.c:94-98 | `pset_and` is intersection |
| PSets.Or | src/preemptive_set.c:100-104 | `pset_or` is union |
| PSets.Xor | src/preemptive_set.c:106-110 | `pset_xor` is symmetric difference |
| PSets.IsIncluded | src/preemptive_set.c:112-117 | `pset_is_included(a, b)` holds exactly when every colour of `a` is in `b`, the empty set included |
| PSets.IncludedIff | src/preemptive_set.c:115-116 | the word test `(a & b) == a` is set inclusion |
| PSets.IsSingleton | src/preemptive_set.c:119-131 | `pset_is_singleton` holds exactly for sets of one colour, so not for the empty set |
| PSets.SingletonIff | src/preemptive_set.c:122-130 | `s != 0 && (s & (s - 1)) == 0` holds exactly when `s` has one colour |
| PSets.Cardinality | src/preemptive_set.c:133-159 | `pset_cardinality` is the number of colours, at most 64 |
| PSets.Leftmost | src/preemptive_set.c:161-171 | `pset_leftmost` is the singleton of the lowest colour, a subset of the set, and empty for the empty set |
| PSets.NLeftmost | src/preemptive_set.c:173-187 | `pset_n_leftmost(s, n)`: `s` itself for `n <= 0`; for `1 <= n <= card(s)`, the singleton of the colour with `n - 1` colours below it; empty for larger `n` |
| Grids.GridValidSize | src/sudoku.c:996-1009 | a side is accepted exactly when it is the square of a number from 1 to 8 |
| Grids.SquareSidesAre | src/sudoku.c:1001-1002 | the table of valid sides is the set of squares 1, 4, …, 64 |
| Grids.CheckInputChar | src/sudoku.c:476-494 | a character is accepted exactly when it is `_` or one of the first `n` colour symbols |
| Grids.BlockSize | src/sudoku.c:531 | for a valid side the block side is its exact square root |
| Grids.GroupsOK | src/sudoku.c:507-552 | each of the `3n` groups lists `n` distinct cells of the grid |
| Grids.CellInItsLines | src/sudoku.c:508-528 | row `i` holds cell `(i, j)` at place `j`, and column `j` holds it at place `i` |
| Grids.CellInItsBlock | src/sudoku.c:534-547 | cell `(i, j)` sits in block `(i / b, j / b)` at place `(i % b) * b + j % b` |
| Grids.BlockPosition | src/sudoku.c:539-546 | block `(i / b, j / b)`, place `(i % b) * b + j % b` gives back row `i` and column `j` |
| Grids.ScatterCells | src/sudoku.c:511 | writing a group back changes exactly that group's cells |
| Grids.ScatterGather | src/sudoku.c:511 | writing a group back unchanged leaves the grid unchanged |
| Subgrids.SubgridCount | src/sudoku.c:971-981 | `subgrid_count` is the number of cells equal to the given pset |
| Subgrids.ColorsOf | src/sudoku.c:946-948 | the first loop collects the union of the group's cells |
| Subgrids.TwinFree | src/sudoku.c:952-962 | the second loop succeeds exactly when no two singleton cells hold the same colour |
| Subgrids.AllNonEmpty | src/sudoku.c:965-966 | the third loop succeeds exactly when no cell is empty |
| Subgrids.SubgridConsistency | src/sudoku.c:940-969 | a group is consistent exactly when its union is the colours below its size, no two singletons agree and no cell is empty |
| Subgrids.ConsistentIfFilled | src/sudoku.c:940-969 | a group that admits a filling with each colour once is consistent |
| Subgrids.FilledIfConsistent | src/sudoku.c:940-969 | a consistent group of singletons holds each colour exactly once |
| Heuristics.ShrinksSum | src/sudoku.c:771-781 | a pass that only shrinks cells cannot raise the total count of candidates, and lowers it when it changes anything |
| Heuristics.Revise | src/sudoku.c:811-823 | each rule leaves a cell alone or replaces a non-singleton by a strict subset |
| Heuristics.CrossHatching | src/sudoku.c:802-826 | every non-singleton loses the colours of the group's singletons; the result is true exactly when nothing changed |
| Heuristics.HatchKeeps | src/sudoku.c:814-823 | a filling with distinct colours that fits the group still fits after cross-hatching |
| Heuristics.LoneScan | src/sudoku.c:840-852 | the scan yields the colours held by exactly one cell and those held by two or more |
| Heuristics.LoneNumber | src/sudoku.c:828-869 | a non-singleton is cut to its lone colours when it has some but not only those; the result is true exactly when nothing changed |
| Heuristics.LoneKeeps | src/sudoku.c:854-866 | a filling that uses every colour still fits after the lone-number rule |
| Heuristics.NPossible | src/sudoku.c:871-901 | `n_possible` only shrinks non-singletons, keeps every distinct-colour filling, and returns true exactly when nothing changed |
| Heuristics.NPossibleQuiet | src/sudoku.c:882-884 | when no cell's pset is held by as many cells as it has colours, `n_possible` changes nothing and returns true |
| Heuristics.NPossibleFirst | src/sudoku.c:882-898 | when the first firing cell holds pset `p`, every other non-singleton cell not equal to `p` ends up within its old candidates minus the colours of `p` |
| Heuristics.ElimKeeps | src/sudoku.c:882-898 | when `k` cells equal a pset of `k` colours, removing those colours from the other cells keeps every distinct-colour filling |
| Heuristics.SubgridHeuristics | src/sudoku.c:787-800 | the three heuristics in table order only shrink cells, keep every solution of the group, and report true exactly when nothing changed |
| Propagation.Sweep | src/sudoku.c:496-557 | one heuristics sweep only shrinks cells, keeps every solution, and returns true exactly when the grid is unchanged |
| Propagation.MapFrom | src/sudoku.c:505-556 | applying the group function from group `t` on keeps the grid's size |
| Propagation.SubgridMap | src/sudoku.c:496-557 | `subgrid_map` keeps the grid's size |
| Propagation.MapStable | src/sudoku.c:513-517 | the heuristics map returns true exactly when the incoming result was true and the grid came back unchanged |
| Propagation.MapRunsAll | src/sudoku.c:513-517 | every group function runs whatever the results so far: the cells do not depend on the running result, and the final result is the running result and-ed with the rest |
| Propagation.MapReadOnly | src/sudoku.c:496-557 | mapping the consistency check leaves the grid unchanged |
| Propagation.MapConsistency | src/sudoku.c:496-557 | mapping the consistency check is true exactly when every row, column and block is consistent |
| Propagation.GridConsistency | src/sudoku.c:934-938 | `grid_consistency` holds exactly when every group is consistent |
| Propagation.GridSolved | src/sudoku.c:983-993 | `grid_solved` holds exactly when every cell is a singleton |
| Propagation.ConsistentIfAdmits | src/sudoku.c:934-938 | a grid that still allows a solution is consistent |
| Propagation.SolvedIsSolution | src/sudoku.c:643-645 | a consistent all-singleton grid spells out a solution |
| Propagation.SolvedUnique | src/sudoku.c:643-645 | an all-singleton grid allows at most one solution |
| Propagation.Fixpoint | src/sudoku.c:768-781 | the fixpoint loop ends on a grid a further sweep leaves unchanged; it only shrinks cells and keeps every solution |
| Propagation.GridHeuristics | src/sudoku.c:765-785 | the grid returned is a fixpoint of the sweep that only shrinks cells and keeps every solution; the status is `SOLVED` exactly when it is consistent and all-singleton, `UNCONSISTENT` exactly when it is inconsistent |
| Propagation.GridChoice | src/sudoku.c:903-932 | `-1` exactly when no cell has two candidates; otherwise the first cell in row-major order with the fewest candidates among those with two or more |
| Propagation.ChoiceExists | src/sudoku.c:650-651 | a consistent grid that is not solved always has a branching cell |
| Solver.PickNext | src/sudoku.c:674-683 | the tried colour is one colour of the remaining candidates, the lowest one unless choices are random |
| Solver.LoopNext | src/sudoku.c:745-746 | removing the tried colour keeps the loop state and only shrinks the remaining candidates |
| Solver.RestCard | src/sudoku.c:746 | each iteration removes exactly one candidate from the remaining ones |
| Solver.FixShrinks | src/sudoku.c:685 | fixing the branching cell to one of its colours lowers the grid's total number of candidates |
| Solver.Solve | src/sudoku.c:632-763 | `grid_solver` returns a grid of the input's size |
| Solver.Branch | src/sudoku.c:672-761 | the loop over the branching cell's colours returns a grid of the input's size |
| Solver.After | src/sudoku.c:706-759 | the step after one recursive call returns a grid of the input's size |
| Solver.SolveSound | src/sudoku.c:632-763 | whenever the solver reports a solution, the grid it leaves is all-singleton, consistent and within the input's candidates |
| Solver.SolveFinds | src/sudoku.c:632-763 | if the input allows a solution, the solver reports at least one |
| Solver.SolveAtMostOne | src/sudoku.c:706-736 | in non-strict mode the solver reports at most one solution |
| Solver.SolveTwoSound | src/sudoku.c:706-736 | a report of two or more solutions means the input allows two different solutions |
| Solver.SolveFindsTwo | src/sudoku.c:712-736 | in strict mode, an input that allows two different solutions is reported with at least two |
| Solver.SolveCount | src/sudoku.c:632-763 | the report is at least one exactly when a solution exists, and in strict mode at least two exactly when two exist |
| Generator.Percent | src/sudoku.c:411-422 | the share to clear is 100 for side 1, 40-59 up to 16, 30-39 up to 49 and 20-24 above |
| Generator.PercentBand | src/sudoku.c:411-422 | every value of each band is reached by some draw of `rand()` |
| Generator.RemoveLimit | src/sudoku.c:424 | the limit is the truncated `n * n * percent / 100`, never above the cell count |
| Generator.FullGrid | src/sudoku.c:397-400 | the starting grid gives every cell every colour below the side |
| Generator.ProbeFrom | src/sudoku.c:429-440 | the probe stops on an unchecked cell, and every cell it stepped over was checked |
| Generator.ReachesLap | src/sudoku.c:435-440 | when some cell is unchecked, the probe meets one within one lap of the grid |
| Generator.Clear | src/sudoku.c:446 | clearing gives the cell every colour and leaves the other cells alone |
| Generator.Settle | src/sudoku.c:442-466 | the visited cell is marked checked; the clearing is kept and counted when not strict, or when the solver reports exactly one solution for the cleared grid, and dropped otherwise |
| Generator.Pass | src/sudoku.c:426-466 | one pass checks exactly one cell that was unchecked and changes no other cell; that cell, if it changes, holds every colour, and a change is counted in `removed_cells`; in non-strict mode the pass always counts its clearing |
| Generator.PassVisitsOne | src/sudoku.c:426-466 | a pass leaves exactly one fewer unchecked cell |
| Generator.SettleChanges | src/sudoku.c:442-466 | settling changes at most the visited cell, and changes it only when the clearing is counted |
| Generator.SettleUnique | src/sudoku.c:442-456 | in strict mode a grid with exactly one solution keeps exactly one after settling a cell |
| Generator.PassUnique | src/sudoku.c:426-466 | in strict mode a grid with exactly one solution keeps exactly one after a pass |
| Generator.LoopUnique | src/sudoku.c:426-471 | in strict mode the removal loop keeps exactly one solution |
| Generator.RemovalLoop | src/sudoku.c:426-471 | the loop stops with the limit reached or every cell checked, and never counts more than the limit; it changes only cells it checks, each to every colour, and no more cells than it counts; in non-strict mode, with enough unchecked cells, it counts exactly up to the limit |
| Generator.Generate | src/sudoku.c:387-474 | the puzzle is the solved full grid with some cells reset to every colour; it differs from the solved grid in no more cells than `removed_cells`, which is at most the limit drawn from `rand()`, below it only when every cell was checked, and equal to it in non-strict mode |
| Generator.AllUnchecked | src/sudoku.c:402-404 | at the start every one of the `n * n` cells is unchecked |
| Generator.GenerateUnique | src/sudoku.c:387-474 | in strict mode the generated puzzle has exactly one solution |
| Generator.StillFrom | src/sudoku.c:468-470 | the loop from cell `c` on ends true exactly when the flag was true or some cell from `c` on is unchecked |
| Generator.StillChoices | src/sudoku.c:468-470 | the update of `still_choices` is true exactly when it was true before or some cell is unchecked |
| Generator.StillChoicesNeverFalse | src/sudoku.c:468-470 | starting from `true` (its value at line 392), the update never yields false, whatever the checked cells |
| Generator.StillChoicesStuck | src/sudoku.c:435-440 | with every cell checked, the probe reaches no unchecked cell at any distance from any start |

## Left out

- Command-line handling, file opening, the text parser, error reporting with `exit`, usage and version text (`sudoku.c` lines 106-222, 266-385, 1011-1082). These are I/O. Only the pure `check_input_char` and `grid_valid_size` are modelled.
- All printing: `grid_print`, `grid_print_solved`, `subgrid_print`, `pset2str`'s terminating NUL, and the verbose traces inside the solver (lines 559-630, 687-704, 740-741). These are output only.
- Memory management: `grid_alloc`, `grid_free`, `grid_copy` and the row swapping at lines 727-733 and 753-758. Grids are immutable values, so a copy is the value itself.
- `srand`/`rand`. Each call is the value of a function parameter at a running call index. Seeding, and the distribution of the values, are not modelled.
- `(int)sqrt(grid_size)` at line 531. It is floating point; the model computes the exact root of a valid side instead.
- PSets.FullRange: requires a range of at least 1. `pset_full(0)` shifts a 64-bit word by 64, which C leaves undefined. The parameter is an `unsigned short`, so ranges stop below 65536.
- PSets.Cardinality: counts the colours one bit at a time instead of the SWAR Hamming-weight arithmetic at lines 141-158. The result is the same number, but the arithmetic itself is not modelled.
- Grids.BlockSize: is defined only for the eight valid sides, which `grid_valid_size` guarantees before any block is formed.
- Propagation.MapFrom, Propagation.SubgridMap: their own ensures give only the grid's size. What the map computes is stated per group function, by Propagation.Sweep, Propagation.MapStable, Propagation.MapRunsAll and Propagation.MapConsistency.
- Solver.PickNext: in random mode it states only that one remaining colour is tried. It does not say which one, because that depends on the value `rand()` returns.
- Solver.SolveCount: says when the count is at least 1 and at least 2, not its exact value. In strict mode a count of 1 followed by a branch reporting 2 returns 3, although the comment at lines 37-39 promises at most 2.
- Solver.Solve, Solver.Branch, Solver.After: their own ensures give only the grid's size. The count they report and the grid they leave are stated by Solver.SolveSound, Solver.SolveFinds, Solver.SolveAtMostOne, Solver.SolveTwoSound, Solver.SolveFindsTwo and Solver.SolveCount.
- Generator.Generate: does not state uniqueness itself; Generator.GenerateUnique does.
- Generator.GenerateUnique: requires that the full grid allows a solution, so that the first solve succeeds. That the empty grid of every valid side has a solution is a fact about sudoku, not about this program, and is not proved.
- Generator.ProbeFrom: carries a step budget only to make the walk terminate. Its requires ensures that the budget always suffices: an unchecked cell lies within it.
- Generator.RemovalLoop: stops once every cell is checked, as the code evidently intends. The loop as written does not (see Findings).
- The non-strict generate branch (line 459) and the strict branch share one model, Generator.Settle, selected by the `strict` parameter.

## Findings

| source | as written | input that shows it | evidently intended | confidence | as-written member | corrected member |
|---|---|---|---|---|---|---|
| src/sudoku.c:392, 426, 435-440, 468-470 | `still_choices` starts `true` and is only ever or-ed with other values, so it never becomes false. Once every cell is checked, the next pass's probe at 435-440 spins forever. | strict generation in which the uniqueness check rejects so many cells that all `n*n` cells are checked while `removed_cells < remove_limit` | the loop stops once no unchecked cell is left | medium (not executed; reaching the state needs an unlucky run of the uniqueness checks) | Generator.StillChoicesStuck | Generator.RemovalLoop |
