/** The 9x9 board: cells, rows, columns and boxes, the box scan that
    `section_divide` performs, and the candidate list that
    `initial_constraint_propagation` derives for a cell. */
module Sudoku {
  import opened Lists

  /** A (row, column) coordinate, the key of the solver's domain dictionary. */
  type Cell = (int, int)

  /** The board as a list of rows; 0 marks an empty cell. */
  type Grid = seq<seq<int>>

  predicate IsGrid(g: Grid) {
    |g| == 9 && forall r :: 0 <= r < 9 ==> |g[r]| == 9
  }

  predicate InBounds(c: Cell) {
    0 <= c.0 < 9 && 0 <= c.1 < 9
  }

  /** Position of a cell in row-major order. */
  function Index(c: Cell): int {
    9 * c.0 + c.1
  }

  predicate SameBox(c: Cell, d: Cell) {
    c.0 / 3 == d.0 / 3 && c.1 / 3 == d.1 / 3
  }

  /** `c` lies in row `i`, in column `j` or in the box of `(i, j)`; the cell
      `(i, j)` itself is included. */
  predicate SharesUnit(c: Cell, i: int, j: int) {
    c.0 == i || c.1 == j || SameBox(c, (i, j))
  }

  /** First row (or column) of the box holding index `k`, computed the way
      `section_divide` does it: one less than the ceiling of `(k + 1) / 3`,
      times three. The ceiling is taken exactly on integers, for every `k`. */
  function BoxStart(k: int): (s: int)
    ensures s == 3 * (k / 3)
    ensures s % 3 == 0 && s <= k < s + 3
  {
    ((k + 1 + 2) / 3 - 1) * 3
  }

  /** The cells of row `i`, left to right. */
  function Row(i: int): (r: seq<Cell>)
    ensures |r| == 9 && NoDup(r)
    ensures forall c {:trigger c in r} :: c in r <==> c.0 == i && 0 <= c.1 < 9
  {
    var r := seq(9, (k: int) => (i, k));
    assert forall c: Cell :: c.0 == i && 0 <= c.1 < 9 ==> r[c.1] == c;
    r
  }

  /** The cells of column `j`, top to bottom. */
  function Column(j: int): (r: seq<Cell>)
    ensures |r| == 9 && NoDup(r)
    ensures forall c {:trigger c in r} :: c in r <==> c.1 == j && 0 <= c.0 < 9
  {
    var r := seq(9, (k: int) => (k, j));
    assert forall c: Cell :: c.1 == j && 0 <= c.0 < 9 ==> r[c.0] == c;
    r
  }

  /** The `n`-th cell of the box holding `(i, j)`, in the order of the
      double loop of `section_divide` over the box's rows and columns. */
  function BoxCell(i: int, j: int, n: int): Cell
    requires InBounds((i, j))
  {
    (BoxStart(i) + n / 3, BoxStart(j) + n % 3)
  }

  /** The nine cells of the box holding `(i, j)`, in scan order. */
  function BoxCells(i: int, j: int): seq<Cell>
    requires InBounds((i, j))
  {
    seq(9, n => BoxCell(i, j, n))
  }

  /** Where a cell of the box sits in `BoxCells`. */
  function BoxOffset(c: Cell): int {
    3 * (c.0 % 3) + c.1 % 3
  }

  /** `b` lists the box of `(i, j)` in row-major order, each cell at its
      `BoxOffset`. */
  ghost predicate BoxShaped(b: seq<Cell>, i: int, j: int) {
    && |b| == 9
    && (forall n :: 0 <= n < 9 ==> InBounds(b[n]) && SameBox(b[n], (i, j)))
    && (forall n, m :: 0 <= n < m < 9 ==> Index(b[n]) < Index(b[m]))
    && (forall c :: InBounds(c) && SameBox(c, (i, j)) ==> 0 <= BoxOffset(c) < 9 && b[BoxOffset(c)] == c)
  }

  lemma BoxCellsShape(i: int, j: int)
    requires InBounds((i, j))
    ensures BoxShaped(BoxCells(i, j), i, j)
  {
    BoxCellsInBox(i, j);
    BoxCellsOrdered(i, j);
    BoxCellsComplete(i, j);
  }

  lemma BoxCellsInBox(i: int, j: int)
    requires InBounds((i, j))
    ensures forall n :: 0 <= n < 9 ==> InBounds(BoxCells(i, j)[n]) && SameBox(BoxCells(i, j)[n], (i, j))
  {
  }

  lemma BoxCellsOrdered(i: int, j: int)
    requires InBounds((i, j))
    ensures forall n, m :: 0 <= n < m < 9 ==> Index(BoxCells(i, j)[n]) < Index(BoxCells(i, j)[m])
  {
    forall n, m | 0 <= n < m < 9 ensures Index(BoxCells(i, j)[n]) < Index(BoxCells(i, j)[m]) {
      assert n / 3 < m / 3 || (n / 3 == m / 3 && n % 3 < m % 3);
    }
  }

  lemma BoxCellsComplete(i: int, j: int)
    requires InBounds((i, j))
    ensures forall c :: InBounds(c) && SameBox(c, (i, j)) ==> 0 <= BoxOffset(c) < 9 && BoxCells(i, j)[BoxOffset(c)] == c
  {
    forall c | InBounds(c) && SameBox(c, (i, j))
      ensures 0 <= BoxOffset(c) < 9 && BoxCells(i, j)[BoxOffset(c)] == c
    {
      var a, b := c.0 % 3, c.1 % 3;
      Digits(a, b);
      assert BoxStart(i) == 3 * (c.0 / 3) && BoxStart(j) == 3 * (c.1 / 3);
      assert c.0 == 3 * (c.0 / 3) + a && c.1 == 3 * (c.1 / 3) + b;
      assert BoxCells(i, j)[3 * a + b] == BoxCell(i, j, 3 * a + b);
    }
  }

  /** A box offset splits back into its row and column. */
  lemma Digits(a: int, b: int)
    requires 0 <= a < 3 && 0 <= b < 3
    ensures (3 * a + b) / 3 == a && (3 * a + b) % 3 == b
  {
  }

  /** The cell the double loop of `section_divide` reaches at box row `k`,
      box column `l`, which is step `n` of the box scan. */
  lemma BoxCellAt(i: int, j: int, k: int, l: int, n: int)
    requires InBounds((i, j)) && 0 <= k < 3 && 0 <= l < 3 && n == 3 * k + l
    ensures BoxCell(i, j, n) == (BoxStart(i) + k, BoxStart(j) + l)
  {
  }

  /** The only position of the box scan holding `(i, j)` is `BoxOffset((i, j))`. */
  lemma BoxCellSelf(i: int, j: int, n: int)
    requires InBounds((i, j)) && 0 <= n < 9
    ensures BoxCell(i, j, n) == (i, j) <==> n == BoxOffset((i, j))
  {
  }

  /** `[c]`, or nothing when `c` is the cell `x` being skipped. */
  function Unless(c: Cell, x: Cell): seq<Cell> {
    if c == x then [] else [c]
  }

  /** The first `n` steps of the box scan of `section_divide`, skipping
      `(i, j)`. */
  function BoxScan(i: int, j: int, n: int): seq<Cell>
    requires InBounds((i, j)) && 0 <= n <= 9
  {
    if n == 0 then []
    else
      BoxScan(i, j, n - 1) + Unless(BoxCell(i, j, n - 1), (i, j))
  }

  lemma {:induction false} BoxScanSplit(i: int, j: int, n: int)
    requires InBounds((i, j)) && 0 <= n <= 9
    ensures BoxScan(i, j, n) == PrefixSkipping(BoxCells(i, j), BoxOffset((i, j)), n)
  {
    if n > 0 {
      BoxScanSplit(i, j, n - 1);
      BoxCellSelf(i, j, n - 1);
      PrefixSkippingStep(BoxCells(i, j), BoxOffset((i, j)), n - 1);
    }
  }

  /** The inner loop of `section_divide`: the first `l` cells of box row
      `k`, without `(i, j)`. */
  function BoxRow(i: int, j: int, k: int, l: int): seq<Cell>
    requires 0 <= l <= 3
  {
    if l == 0 then []
    else
      BoxRow(i, j, k, l - 1) + Unless((BoxStart(i) + k, BoxStart(j) + (l - 1)), (i, j))
  }

  /** The outer loop of `section_divide`: the first `k` box rows. */
  function BoxRows(i: int, j: int, k: int): seq<Cell>
    requires 0 <= k <= 3
  {
    if k == 0 then [] else BoxRows(i, j, k - 1) + BoxRow(i, j, k - 1, 3)
  }

  /** Step `n` of the box scan reaches box row `k`, box column `l`. */
  lemma BoxScanStep(i: int, j: int, k: int, l: int, n: int)
    requires InBounds((i, j)) && 0 <= k < 3 && 0 <= l < 3 && n == 3 * k + l + 1
    ensures BoxScan(i, j, n) == BoxScan(i, j, n - 1) + Unless((BoxStart(i) + k, BoxStart(j) + l), (i, j))
  {
    BoxCellAt(i, j, k, l, n - 1);
  }

  /** The nested loops visit the box cells in the order of `BoxScan`: after
      box row `k`, column `l`, they have made the first `n` steps. */
  lemma {:induction false} BoxRowScan(i: int, j: int, k: int, l: int, n: int)
    requires InBounds((i, j)) && 0 <= k < 3 && 0 <= l <= 3 && n == 3 * k + l
    requires BoxRows(i, j, k) == BoxScan(i, j, 3 * k)
    ensures BoxRows(i, j, k) + BoxRow(i, j, k, l) == BoxScan(i, j, n)
  {
    if l > 0 {
      BoxRowScan(i, j, k, l - 1, n - 1);
      BoxScanStep(i, j, k, l - 1, n);
      Extend(BoxRows(i, j, k), BoxRow(i, j, k, l - 1), Unless((BoxStart(i) + k, BoxStart(j) + (l - 1)), (i, j)),
        BoxScan(i, j, n - 1), BoxRow(i, j, k, l), BoxScan(i, j, n));
    } else {
      assert BoxRows(i, j, k) + BoxRow(i, j, k, 0) == BoxRows(i, j, k);
    }
  }

  lemma {:induction false} BoxRowsScan(i: int, j: int, k: int)
    requires InBounds((i, j)) && 0 <= k <= 3
    ensures BoxRows(i, j, k) == BoxScan(i, j, 3 * k)
  {
    if k > 0 {
      BoxRowsScan(i, j, k - 1);
      BoxRowScan(i, j, k - 1, 3, 3 * k);
    }
  }

  /** What `section_divide(i, j)` returns: the cells of the box of `(i, j)`
      other than `(i, j)`, in row-major order. */
  function Section(i: int, j: int): (r: seq<Cell>)
    ensures InBounds((i, j)) ==> |r| == 8
  {
    var r := BoxRows(i, j, 3);
    assert InBounds((i, j)) ==> |r| == 8 by {
      if InBounds((i, j)) {
        BoxRowsScan(i, j, 3);
        BoxScanSplit(i, j, 9);
      }
    }
    r
  }

  /** `r` holds, in row-major order, exactly the cells of the box of
      `(i, j)` other than `(i, j)`. */
  ghost predicate SectionShaped(r: seq<Cell>, i: int, j: int) {
    && |r| == 8
    && (forall n :: 0 <= n < 8 ==> InBounds(r[n]) && SameBox(r[n], (i, j)) && r[n] != (i, j))
    && (forall c :: InBounds(c) && SameBox(c, (i, j)) && c != (i, j) ==> c in r)
    && (forall n, m :: 0 <= n < m < 8 ==> Index(r[n]) < Index(r[m]))
  }

  /** `Section(i, j)` holds, in row-major order and once each, exactly the
      cells of the box of `(i, j)` other than `(i, j)`. */
  lemma SectionShape(i: int, j: int)
    requires InBounds((i, j))
    ensures SectionShaped(Section(i, j), i, j)
    ensures NoDup(Section(i, j))
  {
    BoxCellsShape(i, j);
    BoxRowsScan(i, j, 3);
    BoxScanSplit(i, j, 9);
    SplitShape(BoxCells(i, j), i, j);
  }

  /** Dropping `(i, j)` from the box scan keeps the other eight cells, in order. */
  lemma SplitShape(b: seq<Cell>, i: int, j: int)
    requires InBounds((i, j)) && BoxShaped(b, i, j)
    ensures SectionShaped(PrefixSkipping(b, BoxOffset((i, j)), 9), i, j)
  {
    var p := BoxOffset((i, j));
    var r := PrefixSkipping(b, p, 9);
    assert b[p + 1..9] == b[p + 1..];
    SkipIndexing(b, p);
    SplitOrdered(b, r, p);
    SplitInBox(b, r, p, i, j);
    SplitComplete(b, r, p, i, j);
  }

  lemma SplitOrdered(b: seq<Cell>, r: seq<Cell>, p: int)
    requires |b| == 9 && 0 <= p < 9 && |r| == 8
    requires forall n :: 0 <= n < 8 ==> r[n] == b[if n < p then n else n + 1]
    requires forall n, m :: 0 <= n < m < 9 ==> Index(b[n]) < Index(b[m])
    ensures forall n, m :: 0 <= n < m < 8 ==> Index(r[n]) < Index(r[m])
  {
  }

  lemma SplitInBox(b: seq<Cell>, r: seq<Cell>, p: int, i: int, j: int)
    requires |b| == 9 && 0 <= p < 9 && |r| == 8 && b[p] == (i, j)
    requires forall n :: 0 <= n < 8 ==> r[n] == b[if n < p then n else n + 1]
    requires forall n :: 0 <= n < 9 ==> InBounds(b[n]) && SameBox(b[n], (i, j))
    requires forall n, m :: 0 <= n < m < 9 ==> Index(b[n]) < Index(b[m])
    ensures forall n :: 0 <= n < 8 ==> InBounds(r[n]) && SameBox(r[n], (i, j)) && r[n] != (i, j)
  {
    forall n | 0 <= n < 8 ensures r[n] != (i, j) {
      var m := if n < p then n else n + 1;
      assert Index(b[m]) != Index(b[p]);
    }
  }

  lemma SplitComplete(b: seq<Cell>, r: seq<Cell>, p: int, i: int, j: int)
    requires |b| == 9 && 0 <= p < 9 && |r| == 8 && b[p] == (i, j)
    requires forall n :: 0 <= n < 8 ==> r[n] == b[if n < p then n else n + 1]
    requires forall c :: InBounds(c) && SameBox(c, (i, j)) ==> 0 <= BoxOffset(c) < 9 && b[BoxOffset(c)] == c
    ensures forall c :: InBounds(c) && SameBox(c, (i, j)) && c != (i, j) ==> c in r
  {
    forall c | InBounds(c) && SameBox(c, (i, j)) && c != (i, j) ensures c in r {
      var q := BoxOffset(c);
      assert q != p;
      if q < p {
        assert r[q] == c;
      } else {
        assert r[q - 1] == c;
      }
    }
  }

  /** Every cell `initial_constraint_propagation` and `forward_check` look
      at, in their order: the row, the column, then the rest of the box.
      The cell `(i, j)` occurs twice, once in the row and once in the column. */
  function Units(i: int, j: int): seq<Cell>
    requires InBounds((i, j))
  {
    Row(i) + Column(j) + Section(i, j)
  }

  /** The scan `Units(i, j)` cell by cell: position `k` of the row, then of
      the column, then the rest of the box; it covers the three units. */
  lemma UnitsAt(i: int, j: int) returns (u: seq<Cell>)
    requires InBounds((i, j))
    ensures |u| == 26
    ensures forall k :: 0 <= k < 9 ==> u[k] == (i, k) && u[9 + k] == (k, j)
    ensures forall n :: 0 <= n < 8 ==> u[18 + n] == Section(i, j)[n]
    ensures forall n :: 0 <= n < 26 ==> InBounds(u[n])
    ensures forall c {:trigger c in u} :: c in u <==> InBounds(c) && SharesUnit(c, i, j)
  {
    u := Units(i, j);
    UnitsCover(i, j);
    assert forall n :: 0 <= n < 26 ==> u[n] in u;
  }

  /** The scan covers exactly the cells that share a unit with `(i, j)`. */
  lemma UnitsCover(i: int, j: int)
    requires InBounds((i, j))
    ensures |Units(i, j)| == 26
    ensures forall c {:trigger c in Units(i, j)} :: c in Units(i, j) <==> InBounds(c) && SharesUnit(c, i, j)
  {
    SectionShape(i, j);
    forall c | InBounds(c) && SharesUnit(c, i, j) ensures c in Units(i, j) {
      if c.0 == i {
        assert c in Row(i);
      } else if c.1 == j {
        assert c in Column(j);
      } else {
        assert c in Section(i, j);
      }
    }
    forall c | c in Units(i, j) ensures InBounds(c) && SharesUnit(c, i, j) {
      if c in Section(i, j) {
        var n :| 0 <= n < 8 && Section(i, j)[n] == c;
      }
    }
  }

  /** Some cell other than `(i, j)` in its row, column or box holds `v`. */
  ghost predicate Taken(g: Grid, i: int, j: int, v: int)
    requires IsGrid(g)
  {
    exists c {:trigger g[c.0][c.1]} :: InBounds(c) && SharesUnit(c, i, j) && c != (i, j) && g[c.0][c.1] == v
  }

  /** The values held by the other cells of the row, column and box of
      `(i, j)`. */
  ghost function Seen(g: Grid, i: int, j: int): (t: set<int>)
    requires IsGrid(g)
    ensures forall v :: v in t <==> Taken(g, i, j, v)
  {
    var t := set r, c {:trigger g[r][c]} | 0 <= r < 9 && 0 <= c < 9 && SharesUnit((r, c), i, j) && (r, c) != (i, j) :: g[r][c];
    assert forall v :: Taken(g, i, j, v) ==> v in t by {
      forall v | Taken(g, i, j, v) ensures v in t {
        var c :| InBounds(c) && SharesUnit(c, i, j) && c != (i, j) && g[c.0][c.1] == v;
        assert (c.0, c.1) == c;
      }
    }
    t
  }

  /** The values from `v` up to 9 that are not in `t`, in ascending order. */
  function Free(t: set<int>, v: int): seq<int>
    requires 1 <= v <= 10
    decreases 10 - v
  {
    if v == 10 then [] else (if v in t then [] else [v]) + Free(t, v + 1)
  }

  lemma {:induction false} FreeMembers(t: set<int>, v: int)
    requires 1 <= v <= 10
    ensures forall x {:trigger x in Free(t, v)} :: x in Free(t, v) <==> v <= x <= 9 && x !in t
    decreases 10 - v
  {
    if v < 10 {
      var rest := Free(t, v + 1);
      FreeMembers(t, v + 1);
      var head := if v in t then [] else [v];
      var r := head + rest;
      assert Free(t, v) == r;
      forall x ensures x in r <==> v <= x <= 9 && x !in t {
        assert x in r <==> x in head || x in rest;
      }
    }
  }

  lemma {:induction false} FreeBounds(t: set<int>, v: int)
    requires 1 <= v <= 10
    ensures forall k :: 0 <= k < |Free(t, v)| ==> v <= Free(t, v)[k] <= 9
    decreases 10 - v
  {
    if v < 10 {
      FreeBounds(t, v + 1);
      ConsBetween(if v in t then [] else [v], v, Free(t, v + 1), v, 9);
    }
  }

  lemma {:induction false} FreeAscending(t: set<int>, v: int)
    requires 1 <= v <= 10
    ensures Ascending(Free(t, v))
    decreases 10 - v
  {
    if v < 10 {
      FreeAscending(t, v + 1);
      FreeBounds(t, v + 1);
      ConsAscending(if v in t then [] else [v], v, Free(t, v + 1));
    }
  }

  /** The domain of `(i, j)` before any assignment: the cell's own value
      when it is filled, otherwise the values 1..9 that no other cell of its
      row, column or box holds, in ascending order. */
  ghost function Candidates(g: Grid, i: int, j: int): seq<int>
    requires IsGrid(g) && InBounds((i, j))
  {
    if g[i][j] != 0 then [g[i][j]] else Free(Seen(g, i, j), 1)
  }

  lemma CandidatesSpec(g: Grid, i: int, j: int)
    requires IsGrid(g) && InBounds((i, j))
    ensures g[i][j] != 0 ==> Candidates(g, i, j) == [g[i][j]]
    ensures g[i][j] == 0 ==> Ascending(Candidates(g, i, j))
    ensures g[i][j] == 0 ==> forall v :: v in Candidates(g, i, j) <==> 1 <= v <= 9 && !Taken(g, i, j, v)
    ensures NoDup(Candidates(g, i, j))
  {
    if g[i][j] == 0 {
      FreeMembers(Seen(g, i, j), 1);
      FreeAscending(Seen(g, i, j), 1);
    }
  }
}
