/** The bulk-save diff of the two editable variants: the grid as it was last
    sent (the baseline) is inner-joined with the grid as the user left it on
    seven key columns, and a pair is an edit when its ACTION_right differs.
    Missing cells are `None` and, as in a pandas merge, match each other. */
module ChangeDetection {
  import opened Wrappers
  import opened Comparison

  /** EXT_ID_left, NAME, EXT_ID_right, Status, Action, Delete, ACTION_left. */
  datatype Key = Key(
    extLeft: Option<string>, name: string, extRight: Option<string>,
    status: string, action: string, delete: Option<string>, actionLeft: string)

  function KeyOf(row: GridRow): Key {
    Key(row.extLeft, row.name, row.extRight, row.status, row.action, row.delete, row.actionLeft)
  }

  /** An edited row of the new grid and the ACTION_right its baseline partner held. */
  datatype Change = Change(row: GridRow, previous: string)

  /** The edits pairing the baseline row `o` with rows of `table`, in table order. */
  function Partners(o: GridRow, table: seq<GridRow>): (r: seq<Change>)
    ensures forall c :: c in r <==>
              c.previous == o.actionRight && c.row in table && KeyOf(c.row) == KeyOf(o) && c.row.actionRight != o.actionRight
  {
    if table == [] then []
    else
      assert forall x :: x in table <==> x == table[0] || x in table[1..];
      var n := table[0];
      (if KeyOf(n) == KeyOf(o) && n.actionRight != o.actionRight then [Change(n, o.actionRight)] else [])
      + Partners(o, table[1..])
  }

  /** `old.merge(new, on=<seven keys>)` filtered to a changed ACTION_right,
      in baseline order. */
  function Detect(baseline: seq<GridRow>, table: seq<GridRow>): (r: seq<Change>)
    ensures forall c :: c in r <==>
              && c.row in table
              && c.row.actionRight != c.previous
              && exists o :: o in baseline && KeyOf(o) == KeyOf(c.row) && o.actionRight == c.previous
  {
    if baseline == [] then []
    else
      assert forall x :: x in baseline <==> x == baseline[0] || x in baseline[1..];
      Partners(baseline[0], table) + Detect(baseline[1..], table)
  }

  /** No two rows of the grid share the seven key columns. */
  predicate UniqueKeys(g: seq<GridRow>) {
    forall i, j :: 0 <= i < j < |g| ==> KeyOf(g[i]) != KeyOf(g[j])
  }

  /** A sequence with no members is empty. */
  lemma NoMembersEmpty(r: seq<Change>)
    requires forall c :: c !in r
    ensures r == []
  {
    forall c ensures multiset(r)[c] == 0 {
      assert c !in r;
    }
    assert multiset(r) == multiset{};
    assert |r| == |multiset(r)|;
  }

  /** When the key columns identify rows, an unedited grid yields no writes. */
  lemma SelfDiffEmpty(g: seq<GridRow>)
    requires UniqueKeys(g)
    ensures Detect(g, g) == []
  {
    var r := Detect(g, g);
    assert forall c :: c !in r;
    NoMembersEmpty(r);
  }

  /** With two rows sharing every key column but not ACTION_right, the
      unedited grid already reports an edit for each of them. */
  lemma DuplicateKeysReportEdits(a: GridRow, b: GridRow)
    requires KeyOf(a) == KeyOf(b) && a.actionRight != b.actionRight
    ensures Change(b, a.actionRight) in Detect([a, b], [a, b]) && Change(a, b.actionRight) in Detect([a, b], [a, b])
  {
    assert a in [a, b] && b in [a, b];
  }

  /** A row whose key columns the user changed has no baseline partner, so no
      edit is reported for it, whatever its ACTION_right says. */
  lemma EditedKeysAreNotSaved(baseline: seq<GridRow>, table: seq<GridRow>, n: GridRow)
    requires forall o :: o in baseline ==> KeyOf(o) != KeyOf(n)
    ensures forall c :: c in Detect(baseline, table) ==> c.row != n
  {
  }
}
