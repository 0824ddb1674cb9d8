/** The `SudokuSolver` class: the copied grid, the domain dictionary that
    `init_domains` fills and `forward_check` prunes, and the scans over them. */
module Solver {
  import opened Lists
  import opened Sudoku
  import opened Pruning

  /** What `find_empty` ends with: an empty cell, `None`, or the IndexError
      Python raises when the scan steps onto the missing tenth row. */
  datatype Search = Empty(x: int, y: int) | NotFound | IndexError

  /** Row-major position where `find_empty(i, j)` starts: a column index past
      the last one moves the scan to the start of the next row. */
  function ScanStart(i: int, j: int): int {
    if j > 8 then 9 * (i + 1) else 9 * i + j
  }

  /** Loop state of `init_domains`: the first `n` cells in row-major order
      hold their candidate lists, every other key of `d0` is as it was, and
      no other key was added. */
  ghost predicate Initialized(g: Grid, d: Domains, d0: Domains, n: int)
    requires IsGrid(g)
  {
    && (forall c {:trigger c in d} :: InBounds(c) && Index(c) < n ==> c in d && d[c] == Candidates(g, c.0, c.1))
    && (forall c :: c in d0 && !(InBounds(c) && Index(c) < n) ==> c in d && d[c] == d0[c])
    && (forall c :: c in d ==> c in d0 || (InBounds(c) && Index(c) < n))
  }

  lemma InitStep(g: Grid, d: Domains, d0: Domains, i: int, j: int, dom: seq<int>)
    requires IsGrid(g) && InBounds((i, j)) && Initialized(g, d, d0, 9 * i + j)
    requires dom == Candidates(g, i, j)
    ensures Initialized(g, d[(i, j) := dom], d0, 9 * i + j + 1)
  {
    var d' := d[(i, j) := dom];
    forall c | InBounds(c) && Index(c) < 9 * i + j + 1
      ensures c in d' && d'[c] == Candidates(g, c.0, c.1)
    {
      if Index(c) == 9 * i + j {
        assert c == (i, j);
      }
    }
    forall c | c in d0 && !(InBounds(c) && Index(c) < 9 * i + j + 1)
      ensures c in d' && d'[c] == d0[c]
    {
      assert c != (i, j);
    }
  }

  lemma InitDone(g: Grid, d: Domains, d0: Domains)
    requires IsGrid(g) && Initialized(g, d, d0, 81)
    ensures forall c {:trigger c in d} :: InBounds(c) ==> c in d && d[c] == Candidates(g, c.0, c.1)
    ensures forall c :: c in d0 && !InBounds(c) ==> c in d && d[c] == d0[c]
    ensures forall c :: c in d ==> c in d0 || InBounds(c)
    ensures DupFree(d)
  {
    forall c | InBounds(c) ensures c in d && NoDup(d[c]) {
      assert Index(c) < 81;
      CandidatesSpec(g, c.0, c.1);
    }
  }

  class SudokuSolver {
    var grid: array2<int>
    var size: int
    var domains: Domains

    /** The methods index the grid as 9 rows of 9 cells. */
    ghost predicate Valid()
      reads this`grid
    {
      grid.Length0 == 9 && grid.Length1 == 9
    }

    /** The grid as a list of rows. */
    ghost function Board(): (g: Grid)
      reads this`grid, grid
      requires Valid()
      ensures IsGrid(g)
      ensures forall r, c :: 0 <= r < 9 && 0 <= c < 9 ==> g[r][c] == grid[r, c]
    {
      var a := grid;
      seq(9, (r: int) reads a requires 0 <= r < 9 =>
        seq(9, (c: int) reads a requires 0 <= c < 9 => a[r, c]))
    }

    /** Every cell of `cells` is on the board and none holds `v`. */
    ghost predicate Clear(cells: seq<Cell>, v: int)
      reads this`grid, grid
      requires Valid()
    {
      forall c {:trigger c in cells} :: c in cells ==> InBounds(c) && grid[c.0, c.1] != v
    }

    /** `__init__`: the solver works on its own copy of the grid and starts
        with an empty domain dictionary. */
    constructor (g: array2<int>)
      ensures fresh(grid)
      ensures grid.Length0 == g.Length0 && grid.Length1 == g.Length1
      ensures forall r, c :: 0 <= r < g.Length0 && 0 <= c < g.Length1 ==> grid[r, c] == g[r, c]
      ensures Valid() <==> g.Length0 == 9 && g.Length1 == 9
      ensures size == 9 && domains == map[]
    {
      grid := new int[g.Length0, g.Length1]((r, c) reads g =>
        if 0 <= r < g.Length0 && 0 <= c < g.Length1 then g[r, c] else 0);
      size := 9;
      domains := map[];
    }

    /** `section_divide(i, j)`: the other eight cells of the box of `(i, j)`,
        built by the double loop over the box. */
    method SectionDivide(i: int, j: int) returns (cells: seq<Cell>)
      ensures cells == Section(i, j)
    {
      var startI, startJ := BoxStart(i), BoxStart(j);
      cells := [];
      for k := 0 to 3
        invariant cells == BoxRows(i, j, k)
      {
        for l := 0 to 3
          invariant cells == BoxRows(i, j, k) + BoxRow(i, j, k, l)
        {
          if !(startI + k == i && startJ + l == j) {
            cells := cells + [(startI + k, startJ + l)];
          }
        }
      }
    }

    /** `initial_constraint_propagation(i, j)`: the candidate list of `(i, j)`,
        obtained by striking from [1..9] the values met in the row, the column
        and the rest of the box. */
    method InitialConstraintPropagation(i: int, j: int) returns (domain: seq<int>)
      requires Valid() && InBounds((i, j))
      ensures domain == Candidates(Board(), i, j)
    {
      if grid[i, j] != 0 {
        return [grid[i, j]];
      }
      ghost var units := UnitsAt(i, j);
      var current := [1, 2, 3, 4, 5, 6, 7, 8, 9];
      for k := 0 to 9
        invariant Struck(current, units[..k])
      {
        assert units[k] == (i, k);
        StrikeStep(current, units[..k], units[k]);
        TakeStep(units, k);
        var x := grid[i, k];
        if x != 0 {
          if x in current {
            current := RemoveFirst(current, x);
          }
        }
      }
      for k := 0 to 9
        invariant Struck(current, units[..9 + k])
      {
        assert units[9 + k] == (k, j);
        StrikeStep(current, units[..9 + k], units[9 + k]);
        TakeStep(units, 9 + k);
        var x := grid[k, j];
        if x != 0 {
          if x in current {
            current := RemoveFirst(current, x);
          }
        }
      }
      var sections := SectionDivide(i, j);
      for n := 0 to |sections|
        invariant Struck(current, units[..18 + n])
      {
        var c := sections[n];
        assert units[18 + n] == c;
        StrikeStep(current, units[..18 + n], units[18 + n]);
        TakeStep(units, 18 + n);
        var x := grid[c.0, c.1];
        if x != 0 {
          if x in current {
            current := RemoveFirst(current, x);
          }
        }
      }
      assert units[..26] == units;
      UnitsClear(units, i, j);
      CandidatesSpec(Board(), i, j);
      AscendingUnique(current, Candidates(Board(), i, j));
      domain := current;
    }

    /** Loop state of `initial_constraint_propagation`: `current` lists, in
        ascending order, the values 1..9 that no cell of `cells` holds. */
    ghost predicate Struck(current: seq<int>, cells: seq<Cell>)
      reads this`grid, grid
      requires Valid()
    {
      Ascending(current) && forall v :: v in current <==> 1 <= v <= 9 && Clear(cells, v)
    }

    /** Looking at one more cell: its value, when nonzero and still listed,
        is struck off. */
    lemma StrikeStep(current: seq<int>, cells: seq<Cell>, c: Cell)
      requires Valid() && InBounds(c) && Struck(current, cells)
      ensures var x := grid[c.0, c.1];
        Struck(if x != 0 && x in current then RemoveFirst(current, x) else current, cells + [c])
    {
      var x := grid[c.0, c.1];
      ClearAppend(cells, c);
      if x != 0 && x in current {
        RemoveFirstNoDup(current, x);
        WithoutAscending(current, x);
      }
    }

    lemma ClearAppend(cells: seq<Cell>, c: Cell)
      requires Valid() && InBounds(c)
      ensures forall v :: Clear(cells + [c], v) <==> Clear(cells, v) && grid[c.0, c.1] != v
    {
      assert c in cells + [c];
      assert forall x :: x in cells ==> x in cells + [c];
    }

    /** For an empty cell, a value is absent from every cell of a scan over
        its row, column and box exactly when no other cell of those units
        holds it. */
    lemma UnitsClear(units: seq<Cell>, i: int, j: int)
      requires Valid() && InBounds((i, j)) && grid[i, j] == 0
      requires forall c :: c in units <==> InBounds(c) && SharesUnit(c, i, j)
      ensures forall v :: 1 <= v <= 9 ==> (Clear(units, v) <==> !Taken(Board(), i, j, v))
    {
      forall v | 1 <= v <= 9 ensures Clear(units, v) <==> !Taken(Board(), i, j, v) {
        if !Clear(units, v) {
          var c :| c in units && !(InBounds(c) && grid[c.0, c.1] != v);
          assert InBounds(c) && SharesUnit(c, i, j) && c != (i, j) && Board()[c.0][c.1] == v;
        }
        if Taken(Board(), i, j, v) {
          var c :| InBounds(c) && SharesUnit(c, i, j) && c != (i, j) && Board()[c.0][c.1] == v;
          assert c in units;
        }
      }
    }

    /** `init_domains`: every cell of the board gets its candidate list; keys
        outside the board, if any, are left as they were. */
    method InitDomains()
      requires Valid()
      modifies this`domains
      ensures forall c {:trigger c in domains} :: InBounds(c) ==> c in domains && domains[c] == Candidates(Board(), c.0, c.1)
      ensures forall c :: c in old(domains) && !InBounds(c) ==> c in domains && domains[c] == old(domains)[c]
      ensures forall c :: c in domains ==> c in old(domains) || InBounds(c)
      ensures DupFree(domains)
    {
      ghost var d0, g := domains, Board();
      for i := 0 to 9
        invariant g == Board() && Initialized(g, domains, d0, 9 * i)
      {
        for j := 0 to 9
          invariant g == Board() && Initialized(g, domains, d0, 9 * i + j)
        {
          var d := InitialConstraintPropagation(i, j);
          InitStep(g, domains, d0, i, j, d);
          domains := domains[(i, j) := d];
        }
      }
      InitDone(g, domains, d0);
    }

    /** `forward_check(i, j, val)`: strike `val` from the domains of row `i`,
        of column `j` (both scans include `(i, j)` itself) and of the rest of
        the box, and return the cells struck, in visiting order. */
    method ForwardCheck(i: int, j: int, val: int) returns (affected: seq<Cell>)
      requires Valid() && InBounds((i, j)) && Covers(domains, Units(i, j))
      modifies this`domains
      ensures Pruned(domains, affected) == Pruning.ForwardCheck(old(domains), i, j, val)
      ensures DupFree(old(domains)) ==>
        && domains.Keys == old(domains).Keys
        && (forall c :: c in domains ==>
              domains[c] == if InBounds(c) && SharesUnit(c, i, j) then Without(old(domains)[c], val) else old(domains)[c])
        && affected == Holders(old(domains), Visit(i, j), val)
        && DupFree(domains)
    {
      ghost var d0 := domains;
      ghost var goal := Pruning.ForwardCheck(domains, i, j, val);
      ghost var units := Units(i, j);
      affected := [];
      for k := 0 to 9
        invariant Pending(domains, affected, units, k, val, goal)
      {
        assert units[k] == (i, k);
        PendingStep(domains, affected, units, k, val, goal);
        if val in domains[(i, k)] {
          domains := domains[(i, k) := RemoveFirst(domains[(i, k)], val)];
          affected := affected + [(i, k)];
        }
      }
      for k := 0 to 9
        invariant Pending(domains, affected, units, 9 + k, val, goal)
      {
        assert units[9 + k] == (k, j);
        PendingStep(domains, affected, units, 9 + k, val, goal);
        if val in domains[(k, j)] {
          domains := domains[(k, j) := RemoveFirst(domains[(k, j)], val)];
          affected := affected + [(k, j)];
        }
      }
      var sections := SectionDivide(i, j);
      for n := 0 to |sections|
        invariant Pending(domains, affected, units, 18 + n, val, goal)
      {
        var c := sections[n];
        assert units[18 + n] == c;
        PendingStep(domains, affected, units, 18 + n, val, goal);
        if val in domains[c] {
          domains := domains[c := RemoveFirst(domains[c], val)];
          affected := affected + [c];
        }
      }
      assert units[26..] == [];
      if DupFree(d0) {
        ForwardCheckEffect(d0, i, j, val);
        ForwardCheckProperties(d0, i, j, val);
      }
    }

    /** `find_empty(i, j)`: the first empty cell at or after `(i, j)` in
        row-major order. */
    method FindEmpty(i: int, j: int) returns (r: Search)
      requires Valid() && 0 <= i && 0 <= j
      ensures r == NotFound <==> i >= 9
      ensures r.Empty? ==> InBounds((r.x, r.y)) && grid[r.x, r.y] == 0
      ensures r.Empty? ==> ScanStart(i, j) <= Index((r.x, r.y))
      ensures r.Empty? ==> forall p :: ScanStart(i, j) <= p < Index((r.x, r.y)) ==> grid[p / 9, p % 9] != 0
      ensures r == IndexError <==> i < 9 && forall p :: ScanStart(i, j) <= p < 81 ==> grid[p / 9, p % 9] != 0
    {
      var x, y := i, j;
      while x < 9
        invariant i <= x && 0 <= y && (i < 9 ==> x < 9)
        invariant x < 9 ==> ScanStart(i, j) <= ScanStart(x, y)
        invariant forall p :: ScanStart(i, j) <= p < ScanStart(x, y) ==> 0 <= p < 81 && grid[p / 9, p % 9] != 0
        decreases 9 - x, 9 - y
      {
        if y > 8 {
          y := 0;
          x := x + 1;
        }
        if x == 9 {
          return IndexError;
        }
        if grid[x, y] == 0 {
          assert (9 * x + y) / 9 == x && (9 * x + y) % 9 == y;
          return Empty(x, y);
        }
        y := y + 1;
      }
      return NotFound;
    }
  }
}
