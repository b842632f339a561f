/** The English, containerised variant (ComparePermissionsDocker.py): the
    cached fetch, the Delete cell offered by target domain, the name filter,
    the bulk save of edited target actions, and the Action/Delete clicks. */
module DockerApp {
  import opened Wrappers
  import opened Store
  import opened Comparison
  import opened ChangeDetection
  import opened SnapshotCache
  import opened Session
  import Text

  const Words: Labels := Labels("Common", "Only in Left", "Only in Right", "Different", "Update", "Delete")

  const Rule: DeleteRule := ByTargetDomain

  /** The CLASS this variant's inserts write. */
  const InsertClass: Option<string> := Some(TaskPermission)

  /** The store and the process-wide snapshot cache. */
  datatype State = State(db: Db, cache: Cache)

  /** Every row of this variant's grid carries one of the four status words;
      "Update" is offered exactly for the left-only and different rows, and
      "Delete" exactly when the row's target domain is usable, whatever its
      status. */
  lemma FlagsOfRows(left: Snapshot, right: Snapshot)
    ensures forall row :: row in Compare(Words, Rule, left, right) ==>
              && row.status in {"Common", "Only in Left", "Only in Right", "Different"}
              && (row.action == "Update" <==> row.status in {"Only in Left", "Different"})
              && (row.action != "Update" ==> row.action == Sentinel)
              && (row.delete == Some("Delete") <==> ValidTargetDomain(row.extRight))
              && (row.delete != Some("Delete") ==> row.delete == Some(Sentinel))
  {
    var rows := Compare(Words, Rule, left, right);
    forall row | row in rows
      ensures && row.status in {"Common", "Only in Left", "Only in Right", "Different"}
              && (row.action == "Update" <==> row.status in {"Only in Left", "Different"})
              && (row.action != "Update" ==> row.action == Sentinel)
              && (row.delete == Some("Delete") <==> ValidTargetDomain(row.extRight))
              && (row.delete != Some("Delete") ==> row.delete == Some(Sentinel))
    {
      var i :| 0 <= i < |rows| && rows[i] == row;
      assert row.status == StatusLabel(Words, Classify(row.actionLeft, row.actionRight));
    }
  }

  /** `compare_permissions`: a connection is opened first (even when both
      snapshots are cached), then the two snapshots come through the cache.
      On a coherent cache the answer is the uncached comparison and the cache
      stays coherent. */
  function ComparePermissions(st: State, left: seq<string>, right: seq<string>)
    : (r: (Result<seq<GridRow>, StoreError>, Cache))
    ensures !st.db.online ==> r == (Failure(ConnectionError), st.cache)
    ensures Coherent(st.cache, st.db.rows) ==>
              r.0 == CompareDomains(Words, Rule, st.db, left, right) && Coherent(r.1, st.db.rows)
  {
    if !st.db.online then (Failure(ConnectionError), st.cache)
    else
      var l := Get(st.cache, st.db, left);
      assert Coherent(st.cache, st.db.rows) ==> l.result == Fetch(st.db, left) && Coherent(l.cache, st.db.rows) by {
        if Coherent(st.cache, st.db.rows) { GetIsTransparent(st.cache, st.db, left); }
      }
      match l.result
      case Failure(e) => (Failure(e), l.cache)
      case Success(ls) =>
        var r := Get(l.cache, st.db, right);
        assert Coherent(l.cache, st.db.rows) ==> r.result == Fetch(st.db, right) && Coherent(r.cache, st.db.rows) by {
          if Coherent(l.cache, st.db.rows) { GetIsTransparent(l.cache, st.db, right); }
        }
        match r.result
        case Failure(e) => (Failure(e), r.cache)
        case Success(rs) => (Success(Compare(Words, Rule, ls, rs)), r.cache)
  }

  /** `NAME.str.contains(filter, case=False)`, taking the filter literally. */
  predicate NameMatches(row: GridRow, filter: string) {
    Text.Contains(Text.Lower(row.name), Text.Lower(filter))
  }

  /** The name filter: an empty filter keeps every row, otherwise exactly the
      rows whose name contains it, ignoring case, in grid order. */
  function NameFilter(rows: seq<GridRow>, filter: string): (r: seq<GridRow>)
    ensures forall x :: x in r <==> x in rows && NameMatches(x, filter)
    ensures filter == "" ==> r == rows
    ensures |r| <= |rows|
  {
    if filter == "" then rows
    else Filter(rows, (x: GridRow) => NameMatches(x, filter))
  }

  /** The filter works row by row and keeps the grid's order: filtering two
      blocks of rows is filtering each and putting them together. */
  lemma NameFilterKeepsOrder(a: seq<GridRow>, b: seq<GridRow>, filter: string)
    ensures NameFilter(a + b, filter) == NameFilter(a, filter) + NameFilter(b, filter)
  {
    if filter != "" {
      FilterAppend(a, b, (x: GridRow) => NameMatches(x, filter));
    }
  }

  /** The empty filter matches every name, so the explicit skip above changes nothing. */
  lemma EmptyFilterMatchesAll(row: GridRow)
    ensures NameMatches(row, "")
  {
    assert Text.OccursAt(Text.Lower(row.name), "", 0);
  }

  /** Where a bulk edit is written: the row's target domain when it is usable,
      otherwise the selected target. */
  function BulkDestination(row: GridRow, right: seq<string>): (dest: Option<string>)
    requires |right| > 0
    ensures dest.Some?
    ensures ValidTargetDomain(row.extRight) ==> dest == row.extRight
    ensures !ValidTargetDomain(row.extRight) ==> dest == Some(right[0])
  {
    if ValidTargetDomain(row.extRight) then row.extRight else Some(right[0])
  }

  /** One upsert per detected edit, in order, carrying the new target action. */
  function BulkCalls(changes: seq<Change>, right: seq<string>): (calls: seq<StoreCall>)
    requires |right| > 0
    ensures |calls| == |changes|
    ensures forall i :: 0 <= i < |changes| ==>
              calls[i] == UpsertCall(BulkDestination(changes[i].row, right), changes[i].row.name, changes[i].row.actionRight)
  {
    seq(|changes|, i requires 0 <= i < |changes| =>
      UpsertCall(BulkDestination(changes[i].row, right), changes[i].row.name, changes[i].row.actionRight))
  }

  /** A click on a cell: Delete follows the shared rule; Action upserts the
      source action into the selected target unless the cell shows "-". */
  function ClickDecision(row: GridRow, column: Column, right: seq<string>): (d: Decision)
    requires |right| > 0
    ensures column == OtherColumn <==> d == Ignore
    ensures column == DeleteColumn ==> d == DeleteDecision(row)
    ensures column == ActionColumn ==> (d == NoAction <==> row.action == Sentinel)
    ensures column == ActionColumn && d != NoAction ==> d == Issue(UpsertCall(Some(right[0]), row.name, row.actionLeft))
  {
    match column
    case DeleteColumn => DeleteDecision(row)
    case ActionColumn =>
      if row.action == Sentinel then NoAction else Issue(UpsertCall(Some(right[0]), row.name, row.actionLeft))
    case OtherColumn => Ignore
  }

  /** The comparison run again after a write, name filter applied. */
  function Refresh(st: State, sel: Selection, filter: string): (r: (Result<seq<GridRow>, StoreError>, Cache))
    ensures Coherent(st.cache, st.db.rows) ==> Coherent(r.1, st.db.rows)
    ensures Coherent(st.cache, st.db.rows) && r.0.Success? ==>
              CompareDomains(Words, Rule, st.db, sel.left, sel.right).Success?
              && r.0.value == NameFilter(CompareDomains(Words, Rule, st.db, sel.left, sel.right).value, filter)
    ensures Coherent(st.cache, st.db.rows) ==> (r.0.Success? <==> CompareDomains(Words, Rule, st.db, sel.left, sel.right).Success?)
  {
    var (res, cache) := ComparePermissions(st, sel.left, sel.right);
    match res
    case Success(g) => (Success(NameFilter(g, filter)), cache)
    case Failure(e) => (Failure(e), cache)
  }

  /** A row write, the cache emptied, and the refreshed grid. A failed
      connection leaves everything as it was; a failed refresh still keeps
      the write. The grid shown after a write is the uncached comparison of
      the updated store. */
  function WriteAndRefresh(st: State, sel: Selection, filter: string, call: StoreCall,
                           table: seq<GridRow>, baseline: seq<GridRow>): (r: (Response, State))
    ensures !st.db.online ==> r == (Response(Set(table), Set(baseline), Failed(StoreFault(ConnectionError))), st)
    ensures st.db.online ==> r.1.db == Db(Apply(st.db.rows, InsertClass, call), true)
    ensures st.db.online ==> Coherent(r.1.cache, r.1.db.rows)
    ensures st.db.online && r.0.grid.Set? && r.0.notice.Done? ==>
              var current := CompareDomains(Words, Rule, r.1.db, sel.left, sel.right);
              current.Success? && r.0.grid.value == NameFilter(current.value, filter) && r.0.baseline == r.0.grid
    ensures st.db.online && !Incomplete(sel) ==> r.0.notice.Done?
  {
    match Perform(st.db, InsertClass, call)
    case Failure(e) => (Response(Set(table), Set(baseline), Failed(StoreFault(e))), st)
    case Success((db, message)) =>
      var cleared := State(db, Cleared());
      var (res, cache) := Refresh(cleared, sel, filter);
      match res
      case Success(g) => (Response(Set(g), Set(g), Done(message)), State(db, cache))
      case Failure(e) => (Response(Set(table), Set(baseline), Failed(StoreFault(e))), State(db, cache))
  }

  /** The bulk save: every detected edit upserted over one connection, the
      cache emptied, the grid refreshed. Any exception is reported in a toast
      and leaves the grid as the browser has it. */
  function BulkSave(st: State, sel: Selection, filter: string, changes: seq<Change>): (r: (Response, State))
    requires |sel.right| > 0
    requires changes != []
    ensures !st.db.online ==> r == (Response(NoUpdate, NoUpdate, Failed(StoreFault(ConnectionError))), st)
    ensures st.db.online ==> r.1.db == Db(ApplyAll(st.db.rows, InsertClass, BulkCalls(changes, sel.right)), true)
    ensures st.db.online ==> Coherent(r.1.cache, r.1.db.rows)
    ensures r.0.notice == Saved ==> r.0.grid.Set? && r.0.baseline == r.0.grid
    ensures r.0.notice == Saved ==>
              var c := CompareDomains(Words, Rule, r.1.db, sel.left, sel.right);
              c.Success? && r.0.grid == Set(NameFilter(c.value, filter))
    ensures r.0.notice != Saved ==> r.0.grid == NoUpdate && r.0.baseline == NoUpdate
    ensures st.db.online && |sel.left| > 0 ==> r.0.notice == Saved
  {
    match PerformAll(st.db, InsertClass, BulkCalls(changes, sel.right))
    case Failure(e) => (Response(NoUpdate, NoUpdate, Failed(StoreFault(e))), st)
    case Success(db) =>
      var (res, cache) := Refresh(State(db, Cleared()), sel, filter);
      match res
      case Success(g) => (Response(Set(g), Set(g), Saved), State(db, cache))
      case Failure(e) => (Response(NoUpdate, NoUpdate, Failed(StoreFault(e))), State(db, cache))
  }

  /** The Compare button, or a change of the name filter. */
  function OnCompare(st: State, sel: Selection, filter: string): (r: (Response, State))
    ensures Incomplete(sel) ==> r == (Response(Set([]), Set([]), SelectDomains), st)
    ensures r.1.db == st.db
    ensures Coherent(st.cache, st.db.rows) ==> Coherent(r.1.cache, r.1.db.rows)
    ensures r.0.notice == Completed ==> r.0.grid.Set? && r.0.grid.value != [] && r.0.baseline == r.0.grid
    ensures Coherent(st.cache, st.db.rows) && r.0.notice == Completed ==>
              CompareDomains(Words, Rule, st.db, sel.left, sel.right).Success? &&
              r.0.grid.value == NameFilter(CompareDomains(Words, Rule, st.db, sel.left, sel.right).value, filter)
    ensures r.0.notice == NoData ==> r.0.grid == Set([]) && r.0.baseline == Set([])
    ensures Coherent(st.cache, st.db.rows) && st.db.online && !Incomplete(sel) ==> r.0.notice in {Completed, NoData}
  {
    if Incomplete(sel) then (Response(Set([]), Set([]), SelectDomains), st)
    else
      var (res, cache) := Refresh(st, sel, filter);
      match res
      case Failure(_) => (Response(NoUpdate, NoUpdate, Raised), State(st.db, cache))
      case Success(g) =>
        if g == [] then (Response(Set([]), Set([]), NoData), State(st.db, cache))
        else (Response(Set(g), Set(g), Completed), State(st.db, cache))
  }

  /** The click path: a guard on the four inputs, then the decision for the
      active cell. */
  function OnClick(st: State, sel: Selection, filter: string, baseline: seq<GridRow>, table: seq<GridRow>, cell: Option<Cell>)
    : (r: (Response, State))
    ensures table == [] || baseline == [] || Incomplete(sel) || cell.None? ==> r == (Response(NoUpdate, NoUpdate, Quiet), st)
    ensures r.1.db != st.db ==>
              && cell.Some? && cell.value.row < |table| && |sel.right| > 0
              && ClickDecision(table[cell.value.row], cell.value.column, sel.right).Issue?
              && r.1.db == Db(Apply(st.db.rows, InsertClass, ClickDecision(table[cell.value.row], cell.value.column, sel.right).call), true)
    ensures Coherent(st.cache, st.db.rows) ==> Coherent(r.1.cache, r.1.db.rows)
  {
    if table == [] || baseline == [] || Incomplete(sel) || cell.None? then (Response(NoUpdate, NoUpdate, Quiet), st)
    else if cell.value.row >= |table| then (Response(NoUpdate, NoUpdate, Raised), st)
    else
      match ClickDecision(table[cell.value.row], cell.value.column, sel.right)
      case Ignore => (Response(NoUpdate, NoUpdate, Quiet), st)
      case Crash => (Response(NoUpdate, NoUpdate, Raised), st)
      case NoAction => (Response(Set(table), Set(baseline), NoActionAvailable), st)
      case Issue(call) => WriteAndRefresh(st, sel, filter, call, table, baseline)
  }

  /** A change of the grid's data or active cell. With `edited` (the data
      timestamp is set) the edits to target actions are saved in bulk; when
      there are none the event is handled as a click. */
  function OnTableEvent(st: State, sel: Selection, filter: string, edited: bool,
                        baseline: seq<GridRow>, table: seq<GridRow>, cell: Option<Cell>): (r: (Response, State))
    ensures edited && (table == [] || baseline == [] || |sel.right| == 0) ==> r == (Response(NoUpdate, NoUpdate, Quiet), st)
    ensures edited && |sel.right| > 0 && table != [] && baseline != [] && Detect(baseline, table) != [] ==>
              r == BulkSave(st, sel, filter, Detect(baseline, table))
    ensures (edited && Detect(baseline, table) == []) || !edited ==> r == OnClick(st, sel, filter, baseline, table, cell)
    ensures Coherent(st.cache, st.db.rows) ==> Coherent(r.1.cache, r.1.db.rows)
  {
    if edited && (table == [] || baseline == [] || |sel.right| == 0) then (Response(NoUpdate, NoUpdate, Quiet), st)
    else if edited && Detect(baseline, table) != [] then BulkSave(st, sel, filter, Detect(baseline, table))
    else OnClick(st, sel, filter, baseline, table, cell)
  }

  /** A click on an Action or Delete cell that shows "-" makes no store call
      and sends back the grid and the baseline as they were. */
  lemma DashCellIsNoOp(st: State, sel: Selection, filter: string, baseline: seq<GridRow>, table: seq<GridRow>, cell: Option<Cell>)
    requires ClickReaches(sel, baseline, table, cell)
    requires var row := table[cell.value.row];
             (cell.value.column == ActionColumn && row.action == Sentinel)
             || (cell.value.column == DeleteColumn && row.delete == Some(Sentinel))
    ensures OnTableEvent(st, sel, filter, false, baseline, table, cell)
            == (Response(Set(table), Set(baseline), NoActionAvailable), st)
  {
  }

  /** A click on an offered Delete cell deletes exactly the right-hand record
      the row shows; one on an offered Action cell upserts the source action
      into the first selected target. */
  lemma ClickRouting(st: State, sel: Selection, filter: string, baseline: seq<GridRow>, table: seq<GridRow>, cell: Option<Cell>)
    requires ClickReaches(sel, baseline, table, cell)
    requires st.db.online
    ensures var row := table[cell.value.row];
            var after := OnTableEvent(st, sel, filter, false, baseline, table, cell).1.db.rows;
            && (cell.value.column == DeleteColumn && row.delete.Some? && row.delete != Some(Sentinel) ==>
                  after == Delete(st.db.rows, row.extRight, row.name, row.actionRight))
            && (cell.value.column == ActionColumn && row.action != Sentinel ==>
                  after == Upsert(st.db.rows, InsertClass, Some(sel.right[0]), row.name, row.actionLeft).0)
  {
  }

  /** Saving a grid nobody edited writes nothing, provided the seven key
      columns identify its rows; with no active cell the whole event is a no-op. */
  lemma UneditedGridWritesNothing(st: State, sel: Selection, filter: string, g: seq<GridRow>)
    requires UniqueKeys(g)
    ensures OnTableEvent(st, sel, filter, true, g, g, None) == (Response(NoUpdate, NoUpdate, Quiet), st)
  {
    SelfDiffEmpty(g);
  }

  /** Every write of a bulk save lands in a named domain, carries the edited
      target action, and goes to the row's own target domain when that domain
      is usable, to the selected target otherwise. */
  lemma BulkWritesFollowEdits(changes: seq<Change>, right: seq<string>, i: nat)
    requires |right| > 0 && i < |changes|
    ensures var call := BulkCalls(changes, right)[i];
            var row := changes[i].row;
            && call.UpsertCall? && call.ext.Some?
            && call.name == row.name && call.action == row.actionRight
            && (ValidTargetDomain(row.extRight) ==> call.ext == row.extRight)
            && (!ValidTargetDomain(row.extRight) ==> call.ext == Some(right[0]))
  {
  }

  /** A bulk save over a live connection leaves every stored row whose key no
      edit names as it was. */
  lemma BulkSaveKeepsOthers(st: State, sel: Selection, filter: string, changes: seq<Change>, p: Permission)
    requires |sel.right| > 0 && changes != [] && st.db.online
    requires p in st.db.rows
    requires forall i :: 0 <= i < |changes| ==> !KeyMatch(p, BulkDestination(changes[i].row, sel.right), changes[i].row.name)
    ensures p in BulkSave(st, sel, filter, changes).1.db.rows
  {
    var calls := BulkCalls(changes, sel.right);
    ApplyAllKeepsOthers(st.db.rows, InsertClass, calls, p);
  }
}
