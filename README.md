# Sudoku constraint core in Dafny

This project models the constraint part of the `SudokuSolver` class in
`sudoku_solver.py` and proves what it computes. The board is a 9x9 grid
of integers in which 0 marks an empty cell. The solver keeps a
dictionary that maps each `(row, column)` cell to its list of candidate
values.

- `__init__` copies the grid and starts with an empty dictionary.
- `section_divide(i, j)` lists the other eight cells of the 3x3 box of
  `(i, j)`.
- `initial_constraint_propagation(i, j)` strikes from `[1..9]` every
  value seen in the row, the column and the rest of the box.
- `init_domains` fills the dictionary with those lists.
- `forward_check(i, j, val)` removes `val` from the lists of the row, the
  column and the box. It returns the cells it changed, in visiting order.
- `find_empty(i, j)` scans row-major for the next empty cell.

The model follows the class's own form. `Solver.SudokuSolver` is a class
with a `grid: array2<int>` and a `domains: map<Cell, seq<int>>` field.
Its methods run the same loops as the Python code, and they are proved
against specification functions in three modules:

- `Lists` holds the Python list operations. `RemoveFirst` is
  `list.remove`; `Without` and `Except` are order-preserving filters.
- `Sudoku` holds cells, rows, columns and boxes. It defines the box scan
  of `section_divide` (`Section`) and the candidate list of a cell
  (`Candidates`): the filled value, or the ascending list of values 1..9
  that no other cell of the row, column or box holds.
- `Pruning` holds `forward_check` as a fold over its scan order
  (`PruneAlong`). It also proves the fold's net effect on duplicate-free
  domains.

The model keeps the code's quirks:

- `forward_check` visits `(i, j)` itself twice, once in the row scan and
  once in the column scan. Its own domain therefore loses `val` too.
- `find_empty` returns `None` only when it starts at row 9 or below.
  From any other start, if no empty cell follows, the scan steps onto the
  missing tenth row, and Python raises `IndexError`. The model returns an
  explicit `IndexError` value there.

## Model

| member | source | states |
|---|---|---|
| Solver.SudokuSolver.constructor | sudoku_solver.py:7-10 | the grid is a freshly allocated array equal to the argument cell by cell; `size` is 9 and `domains` is empty |
| Solver.SudokuSolver.SectionDivide | sudoku_solver.py:44-55 | for any integers `i, j`, the double loop over the box, skipping `(i, j)`, returns `Section(i, j)` |
| Sudoku.BoxStart | sudoku_solver.py:46-49 | the integer form of the ceiling formula is `3 * (k / 3)`: a multiple of 3 with `s <= k < s + 3` |
| Sudoku.Section | sudoku_solver.py:44-55 | for a cell on the board the section has exactly 8 cells |
| Sudoku.SectionShape | sudoku_solver.py:44-55 | for `0 <= i, j <= 8` the section lists every cell of the box of `(i, j)` except `(i, j)`; no cell outside the box and not `(i, j)` itself; strictly increasing in row-major order, hence without repeats |
| Sudoku.BoxRowsScan | sudoku_solver.py:50-54 | the nested loops produce the cells of the flat box scan, in the same order |
| Sudoku.BoxScanSplit | sudoku_solver.py:50-54 | the flat box scan is the box's nine cells with the one at the position of `(i, j)` left out |
| Sudoku.BoxCellsShape | sudoku_solver.py:50-54 | the nine cells visited by the double loop lie in the box, in row-major order, each at its box offset |
| Sudoku.BoxCellSelf | sudoku_solver.py:52-53 | the double loop meets `(i, j)` at exactly one step, its box offset |
| Sudoku.Row | sudoku_solver.py:29-32 | the row scan visits 9 distinct cells, exactly those of row `i` |
| Sudoku.Column | sudoku_solver.py:33-36 | the column scan visits 9 distinct cells, exactly those of column `j` |
| Sudoku.UnitsCover | sudoku_solver.py:29-41 | the three scans together visit 26 cells, which are exactly the cells sharing a row, column or box with `(i, j)`, that cell included |
| Sudoku.UnitsAt | sudoku_solver.py:29-41 | position by position: row cells at 0..8, column cells at 9..17, the section at 18..25, all on the board |
| Sudoku.Seen | sudoku_solver.py:29-41 | the set of values met is exactly the values some other cell of the units of `(i, j)` holds |
| Sudoku.FreeMembers | sudoku_solver.py:28-42 | the values left are exactly those from `v` to 9 not in the seen set |
| Sudoku.FreeBounds | sudoku_solver.py:28 | every value left lies between `v` and 9 |
| Sudoku.FreeAscending | sudoku_solver.py:28-42 | the values left are strictly ascending |
| Sudoku.CandidatesSpec | sudoku_solver.py:24-42 | a filled cell yields `[grid[i][j]]`; an empty cell yields a strictly ascending list holding `v` iff `1 <= v <= 9` and no other cell of its row, column or box holds `v`; never a repeat |
| Solver.SudokuSolver.InitialConstraintPropagation | sudoku_solver.py:24-42 | the three striking loops return exactly `Candidates(grid, i, j)` |
| Solver.SudokuSolver.StrikeStep | sudoku_solver.py:30-32 | one visit keeps the loop state: the list stays ascending and holds exactly the values 1..9 that no visited cell holds |
| Solver.SudokuSolver.ClearAppend | sudoku_solver.py:29-41 | visiting one more cell adds exactly the condition that it does not hold the value |
| Solver.SudokuSolver.UnitsClear | sudoku_solver.py:28-42 | for an empty cell, a value is absent from all 26 visited cells iff no other cell of the units holds it |
| Solver.InitStep | sudoku_solver.py:20-22 | storing the candidates of `(i, j)` extends the loop state by one cell in row-major order |
| Solver.InitDone | sudoku_solver.py:19-22 | after 81 steps every board cell holds its candidates, other keys are unchanged, and every domain is duplicate-free |
| Solver.SudokuSolver.InitDomains | sudoku_solver.py:19-22 | every board cell maps to its candidate list on the unchanged grid; keys off the board keep their lists; no other key is added; all domains are duplicate-free |
| Lists.RemoveFirstCount | sudoku_solver.py:32 | `list.remove` shortens the list by one and takes away exactly one occurrence of the value |
| Lists.RemoveFirstNoDup | sudoku_solver.py:32 | on a duplicate-free list, `list.remove` is the order-preserving filter |
| Lists.WithoutNoDup | sudoku_solver.py:61 | filtering keeps a list duplicate-free |
| Lists.WithoutAscending | sudoku_solver.py:32 | filtering keeps a list strictly ascending |
| Lists.AscendingUnique | sudoku_solver.py:28-42 | two strictly ascending lists with the same elements are equal |
| Pruning.PruneAlong | sudoku_solver.py:59-70 | a scan changes no key of the dictionary |
| Pruning.PendingStep | sudoku_solver.py:60-62 | one visit keeps the loop state of `forward_check`: strike `val` and record the cell iff the current domain holds it |
| Pruning.Holders | sudoku_solver.py:58-71 | the holders of `val` along a scan are exactly the scanned cells whose domain holds `val`, without repeats if the scan has none |
| Pruning.VisitShape | sudoku_solver.py:58-71 | the row, then the new column cells, then the new box cells list each cell sharing a unit with `(i, j)` exactly once |
| Pruning.PruneAppend | sudoku_solver.py:59-70 | scanning `a` and then `b` is scanning `a + b`; the recorded cells concatenate |
| Pruning.HoldersAppend | sudoku_solver.py:58-71 | the holders along `a + b` are the holders along `a` followed by those along `b` |
| Pruning.HoldersSkip | sudoku_solver.py:63-70 | cells already pruned contribute nothing to a later scan; the others count as on the original domains |
| Pruning.PruneDistinct | sudoku_solver.py:60-62 | a scan over distinct cells with duplicate-free domains replaces each visited domain by its filter and records exactly the holders |
| Pruning.PhasesCompose | sudoku_solver.py:58-71 | the three loops in sequence are the single scan over row, column and section |
| Pruning.PhasesDomains | sudoku_solver.py:59-70 | after each of the three loops, the cells visited so far have lost `val` and the rest are unchanged; each loop records the holders of its own scan |
| Pruning.ColumnAffected | sudoku_solver.py:63-66 | the column loop records the holders of `val` among the column cells outside the row |
| Pruning.BoxAffected | sudoku_solver.py:67-70 | the box loop records the holders of `val` among the box cells outside the row and the column |
| Pruning.ForwardCheckDomains | sudoku_solver.py:59-70 | on duplicate-free domains, every cell sharing a unit with `(i, j)` ends with its list without `val`, in order; every other entry is unchanged |
| Pruning.ForwardCheckAffected | sudoku_solver.py:58-71 | on duplicate-free domains, the returned cells are the holders of `val` in visiting order: row, new column cells, new box cells |
| Pruning.ForwardCheckEffect | sudoku_solver.py:57-71 | both of the above, and no key is added or removed |
| Pruning.ForwardCheckProperties | sudoku_solver.py:57-71 | `val` leaves the whole row, column and box, `(i, j)` included; other values stay; cells outside the units are untouched; the returned cells are exactly the former holders, without repeats; domains stay duplicate-free |
| Solver.SudokuSolver.ForwardCheck | sudoku_solver.py:57-71 | the three loops leave `domains` and return the cells exactly as the fold `Pruning.ForwardCheck` does; on duplicate-free domains they have the effect stated in `ForwardCheckEffect` and keep the domains duplicate-free; only `domains` may change, so the grid is untouched |
| Solver.SudokuSolver.FindEmpty | sudoku_solver.py:73-83 | an `Empty(x, y)` result is an empty board cell at or after the start, with every cell in between filled; a column past 8 restarts at the next row; `None` iff the start row is 9 or more; `IndexError` iff the start row is on the board and no empty cell follows |

## Left out

- `display` (sudoku_solver.py:12-17) only prints, so it is not modelled.
- `solver` (sudoku_solver.py:85-88) is cut off in the middle of a statement, so it has no behaviour to state.
- The `docutils` import (sudoku_solver.py:3) is unused.
- `sudoku_gui.py` is user interface only and is not part of this model.
- `math.ceil` on float division (sudoku_solver.py:46-47) is replaced by the exact integer ceiling. Float rounding for huge indices is not modelled.
- Solver.SudokuSolver.constructor: takes a rectangular `array2`, so Python's ragged lists of rows are not modelled. The copy is fresh, so the model cannot alias a caller's row.
- Solver.SudokuSolver.InitialConstraintPropagation: requires a 9x9 grid and `0 <= i, j <= 8`. Python raises `IndexError` on a smaller grid or a larger index, and reads from the end for a negative index. Neither case is modelled.
- Solver.SudokuSolver.InitDomains: requires a 9x9 grid, for the same reason.
- Solver.SudokuSolver.ForwardCheck: requires that every visited cell has a dictionary entry. Python raises `KeyError` part-way through otherwise. After `InitDomains` every board cell has an entry.
- Solver.SudokuSolver.FindEmpty: requires `i, j >= 0`. Python's reading from the end for negative indices is not modelled.
- Domains are values (`seq<int>` in a `map`), so two keys can never share one Python list. The Python code never makes them share one: every call of `initial_constraint_propagation` builds a new list.
- Pruning.ForwardCheckEffect: the closed-form effect assumes duplicate-free domains, which `InitDomains` guarantees. For arbitrary domains, only the fold `Pruning.ForwardCheck` describes the result.
