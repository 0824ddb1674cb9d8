/** `forward_check` as a function of the domain dictionary: the order in
    which it visits the row, the column and the rest of the box, what each
    visit removes, and the net effect when every domain is duplicate-free. */
module Pruning {
  import opened Lists
  import opened Sudoku

  /** The solver's `domains` dictionary from cells to candidate lists. */
  type Domains = map<Cell, seq<int>>

  /** The dictionary after a forward check, and the cells it changed. */
  datatype Pruned = Pruned(domains: Domains, affected: seq<Cell>)

  predicate Covers(d: Domains, cells: seq<Cell>) {
    forall c :: c in cells ==> c in d
  }

  /** Every cell of the board has a domain, and no domain repeats a value. */
  ghost predicate DupFree(d: Domains) {
    forall c :: InBounds(c) ==> c in d && NoDup(d[c])
  }

  /** Visit `cells` in order; wherever the current domain holds `val`, drop
      its first occurrence and record the cell. A cell visited twice is
      tested again against its already-pruned domain. */
  function PruneAlong(d: Domains, cells: seq<Cell>, val: int): (r: Pruned)
    requires Covers(d, cells)
    ensures r.domains.Keys == d.Keys
    decreases |cells|
  {
    if cells == [] then Pruned(d, [])
    else
      var c := cells[0];
      assert forall x :: x in cells[1..] ==> x in cells;
      if val in d[c] then
        var rest := PruneAlong(d[c := RemoveFirst(d[c], val)], cells[1..], val);
        Pruned(rest.domains, [c] + rest.affected)
      else
        PruneAlong(d, cells[1..], val)
  }

  /** Loop state of `forward_check` part way through the scan `cells`:
      visiting `cells[pos..]` from `d` and appending what it records to
      `acc` ends in `goal`. */
  predicate Pending(d: Domains, acc: seq<Cell>, cells: seq<Cell>, pos: int, val: int, goal: Pruned) {
    && 0 <= pos <= |cells|
    && Covers(d, cells)
    && var rest := PruneAlong(d, cells[pos..], val);
       rest.domains == goal.domains && acc + rest.affected == goal.affected
  }

  /** One visit of the scan: test the domain of `cells[pos]` for `val`, strike
      it and record the cell. */
  lemma PendingStep(d: Domains, acc: seq<Cell>, cells: seq<Cell>, pos: int, val: int, goal: Pruned)
    requires pos < |cells| && Pending(d, acc, cells, pos, val, goal)
    ensures var c := cells[pos];
      if val in d[c] then Pending(d[c := RemoveFirst(d[c], val)], acc + [c], cells, pos + 1, val, goal)
      else Pending(d, acc, cells, pos + 1, val, goal)
  {
    var c := cells[pos];
    assert forall x :: x in cells[pos..] ==> x in cells;
    assert cells[pos..][0] == c && cells[pos..][1..] == cells[pos + 1..];
    if val in d[c] {
      var rest := PruneAlong(d[c := RemoveFirst(d[c], val)], cells[pos + 1..], val);
      AppendAssoc(acc, [c], rest.affected);
    }
  }

  /** What `forward_check(i, j, val)` does to the dictionary and returns. */
  function ForwardCheck(d: Domains, i: int, j: int, val: int): Pruned
    requires InBounds((i, j)) && Covers(d, Units(i, j))
  {
    PruneAlong(d, Units(i, j), val)
  }

  /** The cells of `cells` whose domain in `d` holds `val`, in order. */
  function Holders(d: Domains, cells: seq<Cell>, val: int): (r: seq<Cell>)
    requires Covers(d, cells)
    ensures forall c :: c in r <==> c in cells && val in d[c]
    ensures NoDup(cells) ==> NoDup(r)
  {
    if cells == [] then []
    else
      assert cells == [cells[0]] + cells[1..];
      var rest := Holders(d, cells[1..], val);
      if val in d[cells[0]] then
        assert NoDup(cells) ==> cells[0] !in cells[1..] by { ConsNoDup(cells[0], cells[1..]); }
        ConsNoDup(cells[0], rest);
        [cells[0]] + rest
      else
        assert NoDup(cells) ==> NoDup(cells[1..]) by { ConsNoDup(cells[0], cells[1..]); }
        rest
  }

  /** The scan order of `forward_check` visiting every cell once: the row,
      then the column without the cells already seen, then the box without
      the cells already seen. */
  function Visit(i: int, j: int): seq<Cell>
    requires InBounds((i, j))
  {
    Row(i) + Except(Column(j), Row(i)) + Except(Section(i, j), Row(i) + Column(j))
  }

  /** `Visit` lists every cell of the row, column and box of `(i, j)`
      exactly once. */
  lemma VisitShape(i: int, j: int)
    requires InBounds((i, j))
    ensures NoDup(Visit(i, j))
    ensures forall c :: c in Visit(i, j) <==> InBounds(c) && SharesUnit(c, i, j)
  {
    var row, col, sec := Row(i), Column(j), Section(i, j);
    SectionShape(i, j);
    var a, b := Except(col, row), Except(sec, row + col);
    AppendNoDup(row, a);
    AppendNoDup(row + a, b);
    UnitsCover(i, j);
    forall c ensures c in Visit(i, j) <==> c in Units(i, j) {
      assert c in Visit(i, j) <==> c in row || c in a || c in b;
      assert c in Units(i, j) <==> c in row || c in col || c in sec;
    }
  }

  lemma {:induction false} PruneAppend(d: Domains, a: seq<Cell>, b: seq<Cell>, val: int)
    requires Covers(d, a + b)
    ensures Covers(d, a) && Covers(PruneAlong(d, a, val).domains, b)
    ensures var p := PruneAlong(d, a, val); var q := PruneAlong(p.domains, b, val);
      PruneAlong(d, a + b, val) == Pruned(q.domains, p.affected + q.affected)
  {
    assert forall x :: x in a ==> x in a + b;
    assert forall x :: x in b ==> x in a + b;
    if a == [] {
      assert a + b == b;
    } else {
      var c := a[0];
      AppendSplit(a, b);
      var d' := if val in d[c] then d[c := RemoveFirst(d[c], val)] else d;
      PruneAppend(d', a[1..], b, val);
      var p' := PruneAlong(d', a[1..], val);
      var q := PruneAlong(p'.domains, b, val);
      AppendAssoc([c], p'.affected, q.affected);
    }
  }

  lemma {:induction false} HoldersAppend(d: Domains, a: seq<Cell>, b: seq<Cell>, val: int)
    requires Covers(d, a) && Covers(d, b)
    ensures Covers(d, a + b)
    ensures Holders(d, a + b, val) == Holders(d, a, val) + Holders(d, b, val)
  {
    assert forall x :: x in a + b ==> x in a || x in b;
    if a == [] {
      assert a + b == b;
    } else {
      AppendSplit(a, b);
      HoldersAppend(d, a[1..], b, val);
      var x, y := Holders(d, a[1..], val), Holders(d, b, val);
      AppendAssoc([a[0]], x, y);
    }
  }

  /** Cells of `cells` that occur in `t` no longer hold `val` in `d2`; the
      others have the same domain as in `d`. */
  lemma {:induction false} HoldersSkip(d2: Domains, d: Domains, cells: seq<Cell>, t: seq<Cell>, val: int)
    requires Covers(d2, cells) && Covers(d, cells)
    requires forall c :: c in cells && c in t ==> val !in d2[c]
    requires forall c :: c in cells && c !in t ==> d2[c] == d[c]
    ensures Covers(d, Except(cells, t))
    ensures Holders(d2, cells, val) == Holders(d, Except(cells, t), val)
  {
    if cells != [] {
      assert forall x :: x in cells[1..] ==> x in cells;
      HoldersSkip(d2, d, cells[1..], t, val);
    }
  }

  lemma {:induction false} HoldersAgree(d2: Domains, d: Domains, cells: seq<Cell>, val: int)
    requires Covers(d2, cells) && Covers(d, cells)
    requires forall c :: c in cells ==> d2[c] == d[c]
    ensures Holders(d2, cells, val) == Holders(d, cells, val)
  {
    if cells != [] {
      assert forall x :: x in cells[1..] ==> x in cells;
      HoldersAgree(d2, d, cells[1..], val);
    }
  }

  /** Visiting cells that are all different, each with a duplicate-free
      domain, removes `val` from each of them and records exactly those
      that held it. */
  lemma {:induction false} PruneDistinct(d: Domains, cells: seq<Cell>, val: int)
    requires Covers(d, cells) && NoDup(cells)
    requires forall c :: c in cells ==> NoDup(d[c])
    ensures var r := PruneAlong(d, cells, val);
      && (forall c :: c in d ==> r.domains[c] == if c in cells then Without(d[c], val) else d[c])
      && r.affected == Holders(d, cells, val)
  {
    if cells != [] {
      var c, t := cells[0], cells[1..];
      assert cells == [c] + t;
      ConsNoDup(c, t);
      assert forall x :: x in t ==> x in cells && x != c;
      if val in d[c] {
        var d' := d[c := RemoveFirst(d[c], val)];
        RemoveFirstNoDup(d[c], val);
        PruneDistinct(d', t, val);
        HoldersAgree(d', d, t, val);
      } else {
        WithoutAbsent(d[c], val);
        PruneDistinct(d, t, val);
      }
    }
  }

  /** The three phases of `forward_check`: the domains after the row scan,
      after the column scan and after the box scan. */
  function Phases(d: Domains, i: int, j: int, val: int): (r: (Pruned, Pruned, Pruned))
    requires InBounds((i, j)) && Covers(d, Units(i, j))
    ensures Covers(r.0.domains, Column(j)) && Covers(r.1.domains, Section(i, j))
  {
    assert forall c :: c in Row(i) || c in Column(j) || c in Section(i, j) ==> c in Units(i, j);
    var p1 := PruneAlong(d, Row(i), val);
    var p2 := PruneAlong(p1.domains, Column(j), val);
    var p3 := PruneAlong(p2.domains, Section(i, j), val);
    (p1, p2, p3)
  }

  lemma PhasesCompose(d: Domains, i: int, j: int, val: int)
    requires InBounds((i, j)) && Covers(d, Units(i, j))
    ensures var (p1, p2, p3) := Phases(d, i, j, val);
      ForwardCheck(d, i, j, val) == Pruned(p3.domains, p1.affected + p2.affected + p3.affected)
  {
    assert Units(i, j) == (Row(i) + Column(j)) + Section(i, j);
    PruneAppend(d, Row(i) + Column(j), Section(i, j), val);
    PruneAppend(d, Row(i), Column(j), val);
  }

  /** After each phase, the cells visited so far have lost `val` and the rest
      are as they were. */
  lemma PhasesDomains(d: Domains, i: int, j: int, val: int)
    requires InBounds((i, j)) && DupFree(d)
    ensures Covers(d, Units(i, j))
    ensures var (p1, p2, p3) := Phases(d, i, j, val);
      && (forall c :: c in d ==> p1.domains[c] == if c in Row(i) then Without(d[c], val) else d[c])
      && (forall c :: c in d ==> p2.domains[c] == if c in Row(i) || c in Column(j) then Without(d[c], val) else d[c])
      && (forall c :: c in d ==> p3.domains[c] == if c in Units(i, j) then Without(d[c], val) else d[c])
      && p1.affected == Holders(d, Row(i), val)
      && p2.affected == Holders(p1.domains, Column(j), val)
      && p3.affected == Holders(p2.domains, Section(i, j), val)
  {
    UnitsCover(i, j);
    SectionShape(i, j);
    var (p1, p2, p3) := Phases(d, i, j, val);
    var row, col, sec := Row(i), Column(j), Section(i, j);
    PruneDistinct(d, row, val);
    forall c | c in col ensures NoDup(p1.domains[c]) {
      if c in row { WithoutNoDup(d[c], val); }
    }
    PruneDistinct(p1.domains, col, val);
    forall c | c in d ensures p2.domains[c] == if c in row || c in col then Without(d[c], val) else d[c] {
      if c in row && c in col { WithoutAbsent(Without(d[c], val), val); }
    }
    forall c | c in sec ensures NoDup(p2.domains[c]) {
      if c in row || c in col { WithoutNoDup(d[c], val); }
    }
    PruneDistinct(p2.domains, sec, val);
    forall c | c in d ensures p3.domains[c] == if c in Units(i, j) then Without(d[c], val) else d[c] {
      if (c in row || c in col) && c in sec { WithoutAbsent(Without(d[c], val), val); }
    }
  }

  /** The dictionary after `forward_check`: the units of `(i, j)` have lost
      `val`. */
  lemma ForwardCheckDomains(d: Domains, i: int, j: int, val: int)
    requires InBounds((i, j)) && DupFree(d)
    ensures Covers(d, Units(i, j))
    ensures var r := ForwardCheck(d, i, j, val);
      forall c :: c in d ==> r.domains[c] == if InBounds(c) && SharesUnit(c, i, j) then Without(d[c], val) else d[c]
  {
    UnitsCover(i, j);
    PhasesCompose(d, i, j, val);
    PhasesDomains(d, i, j, val);
  }

  /** The column phase records the holders of `val` among the column cells
      outside the row: the row cells have already lost `val`. */
  lemma ColumnAffected(d: Domains, i: int, j: int, val: int)
    requires InBounds((i, j)) && DupFree(d)
    ensures Covers(d, Units(i, j)) && Covers(d, Except(Column(j), Row(i)))
    ensures Phases(d, i, j, val).1.affected == Holders(d, Except(Column(j), Row(i)), val)
  {
    var row, col := Row(i), Column(j);
    PhasesDomains(d, i, j, val);
    var d1 := Phases(d, i, j, val).0.domains;
    assert forall c :: c in col ==> c in Units(i, j);
    forall c | c in col && c in row ensures val !in d1[c] {
      assert d1[c] == Without(d[c], val);
    }
    HoldersSkip(d1, d, col, row, val);
  }

  /** The box phase records the holders of `val` among the box cells outside
      the row and the column. */
  lemma BoxAffected(d: Domains, i: int, j: int, val: int)
    requires InBounds((i, j)) && DupFree(d)
    ensures Covers(d, Units(i, j)) && Covers(d, Except(Section(i, j), Row(i) + Column(j)))
    ensures Phases(d, i, j, val).2.affected == Holders(d, Except(Section(i, j), Row(i) + Column(j)), val)
  {
    var row, col, sec := Row(i), Column(j), Section(i, j);
    PhasesDomains(d, i, j, val);
    var d2 := Phases(d, i, j, val).1.domains;
    assert forall c :: c in sec ==> c in Units(i, j);
    forall c | c in sec && c in row + col ensures val !in d2[c] {
      assert c in row || c in col;
      assert d2[c] == Without(d[c], val);
    }
    forall c | c in sec && c !in row + col ensures d2[c] == d[c] {
      assert !(c in row || c in col);
    }
    HoldersSkip(d2, d, sec, row + col, val);
  }

  /** The cells `forward_check` records, phase by phase, are the holders of
      `val` along `Visit`. */
  lemma ForwardCheckAffected(d: Domains, i: int, j: int, val: int)
    requires InBounds((i, j)) && DupFree(d)
    ensures Covers(d, Units(i, j)) && Covers(d, Visit(i, j))
    ensures ForwardCheck(d, i, j, val).affected == Holders(d, Visit(i, j), val)
  {
    var row, col, sec := Row(i), Column(j), Section(i, j);
    UnitsCover(i, j);
    PhasesCompose(d, i, j, val);
    PhasesDomains(d, i, j, val);
    ColumnAffected(d, i, j, val);
    BoxAffected(d, i, j, val);
    HoldersAppend(d, row, Except(col, row), val);
    HoldersAppend(d, row + Except(col, row), Except(sec, row + col), val);
  }

  /** On duplicate-free domains, `forward_check(i, j, val)` replaces the
      domain of every cell of row `i`, column `j` and the box of `(i, j)`,
      the cell `(i, j)` included, by the same list without `val`; leaves every
      other entry alone; and returns, in the order of `Visit`, exactly the
      visited cells whose domain held `val`. */
  lemma ForwardCheckEffect(d: Domains, i: int, j: int, val: int)
    requires InBounds((i, j)) && DupFree(d)
    ensures Covers(d, Units(i, j)) && Covers(d, Visit(i, j))
    ensures var r := ForwardCheck(d, i, j, val);
      && r.domains.Keys == d.Keys
      && (forall c :: c in d ==> r.domains[c] == if InBounds(c) && SharesUnit(c, i, j) then Without(d[c], val) else d[c])
      && r.affected == Holders(d, Visit(i, j), val)
  {
    ForwardCheckDomains(d, i, j, val);
    ForwardCheckAffected(d, i, j, val);
  }

  /** The promises of `forward_check` on duplicate-free domains, one by one. */
  lemma ForwardCheckProperties(d: Domains, i: int, j: int, val: int)
    requires InBounds((i, j)) && DupFree(d)
    ensures Covers(d, Units(i, j))
    ensures var r := ForwardCheck(d, i, j, val);
      // `val` is gone from the whole row and column, (i, j) included, and the box
      && (forall c :: InBounds(c) && SharesUnit(c, i, j) ==> val !in r.domains[c])
      // a pruned domain keeps its other values
      && (forall c, v :: InBounds(c) && SharesUnit(c, i, j) && v != val ==> (v in r.domains[c] <==> v in d[c]))
      // cells outside those units keep their domains
      && (forall c :: c in d && !(InBounds(c) && SharesUnit(c, i, j)) ==> r.domains[c] == d[c])
      // the affected cells: no repeats, exactly those that held `val`
      && NoDup(r.affected)
      && (forall c :: c in r.affected <==> InBounds(c) && SharesUnit(c, i, j) && val in d[c])
      // domains stay duplicate-free
      && DupFree(r.domains)
  {
    ForwardCheckEffect(d, i, j, val);
    VisitShape(i, j);
    var r := ForwardCheck(d, i, j, val);
    forall c | InBounds(c) ensures c in r.domains && NoDup(r.domains[c]) {
      if SharesUnit(c, i, j) { WithoutNoDup(d[c], val); }
    }
  }
}
