/** The Italian cloud variant (ComparePermissions_cloud.py): no cache, the
    Delete cell offered by status, the status filter, the bulk save of edited
    target actions, and the Action/Delete clicks. */
module CloudApp {
  import opened Wrappers
  import opened Store
  import opened Comparison
  import opened ChangeDetection
  import opened Session

  const Words: Labels := Labels("Comuni", "Unico a Sinistra", "Unico a Destra", "Differenti", "Aggiorna", "Elimina")

  const Rule: DeleteRule := ByStatus

  /** The CLASS this variant's inserts write. */
  const InsertClass: Option<string> := Some(TaskPermission)

  /** Every row of this variant's grid carries one of the four status words;
      "Aggiorna" is offered exactly for the left-only and different rows and
      "Elimina" exactly for the common and right-only ones, so never both. */
  lemma FlagsByStatus(left: Snapshot, right: Snapshot)
    ensures forall row :: row in Compare(Words, Rule, left, right) ==>
              && row.status in {"Comuni", "Unico a Sinistra", "Unico a Destra", "Differenti"}
              && (row.action == "Aggiorna" <==> row.status !in {"Comuni", "Unico a Destra"})
              && (row.action != "Aggiorna" ==> row.action == Sentinel)
              && (row.delete == Some("Elimina") <==> row.status in {"Comuni", "Unico a Destra"})
              && (row.delete != Some("Elimina") ==> row.delete == Some(Sentinel))
  {
    var rows := Compare(Words, Rule, left, right);
    forall row | row in rows
      ensures && row.status in {"Comuni", "Unico a Sinistra", "Unico a Destra", "Differenti"}
              && (row.action == "Aggiorna" <==> row.status !in {"Comuni", "Unico a Destra"})
              && (row.action != "Aggiorna" ==> row.action == Sentinel)
              && (row.delete == Some("Elimina") <==> row.status in {"Comuni", "Unico a Destra"})
              && (row.delete != Some("Elimina") ==> row.delete == Some(Sentinel))
    {
      var i :| 0 <= i < |rows| && rows[i] == row;
      var s := Classify(row.actionLeft, row.actionRight);
      assert row.status == StatusLabel(Words, s);
    }
  }

  /** `isin(status_filter)` when the filter is non-empty; an empty filter keeps every row. */
  function StatusFilter(rows: seq<GridRow>, statuses: seq<string>): (r: seq<GridRow>)
    ensures forall x :: x in r <==> x in rows && (statuses == [] || x.status in statuses)
    ensures statuses == [] ==> r == rows
    ensures |r| <= |rows|
  {
    if statuses == [] then rows
    else Filter(rows, (x: GridRow) => x.status in statuses)
  }

  /** The filter works row by row and keeps the grid's order: filtering two
      blocks of rows is filtering each and putting them together. */
  lemma StatusFilterKeepsOrder(a: seq<GridRow>, b: seq<GridRow>, statuses: seq<string>)
    ensures StatusFilter(a + b, statuses) == StatusFilter(a, statuses) + StatusFilter(b, statuses)
  {
    if statuses != [] {
      FilterAppend(a, b, (x: GridRow) => x.status in statuses);
    }
  }

  /** Filtering what is already filtered keeps the rows both filters accept:
      the baseline a filter leaves behind cannot be widened again. */
  lemma FilterNarrows(rows: seq<GridRow>, first: seq<string>, second: seq<string>)
    ensures forall x :: x in StatusFilter(StatusFilter(rows, first), second) <==>
              x in rows && (first == [] || x.status in first) && (second == [] || x.status in second)
  {
  }

  /** Where a bulk edit is written: `EXT_ID_right or EXT_ID_left`. */
  function BulkDestination(row: GridRow): (dest: Option<string>)
    ensures Truthy(row.extRight) ==> dest == row.extRight
    ensures !Truthy(row.extRight) ==> dest == row.extLeft
  {
    OrElse(row.extRight, row.extLeft)
  }

  /** One upsert per detected edit, in order, carrying the new target action. */
  function BulkCalls(changes: seq<Change>): (calls: seq<StoreCall>)
    ensures |calls| == |changes|
    ensures forall i :: 0 <= i < |changes| ==>
              calls[i] == UpsertCall(BulkDestination(changes[i].row), changes[i].row.name, changes[i].row.actionRight)
  {
    seq(|changes|, i requires 0 <= i < |changes| =>
      UpsertCall(BulkDestination(changes[i].row), changes[i].row.name, changes[i].row.actionRight))
  }

  /** A click on a cell: Delete follows the shared rule; Action, unless the
      cell shows "-", upserts the source action, into the first selected
      target for a left-only row and into `EXT_ID_right or EXT_ID_left`
      otherwise. */
  function ClickDecision(row: GridRow, column: Column, right: seq<string>): (d: Decision)
    requires |right| > 0
    ensures column == OtherColumn <==> d == Ignore
    ensures column == DeleteColumn ==> d == DeleteDecision(row)
    ensures column == ActionColumn ==> (d == NoAction <==> row.action == Sentinel)
    ensures column == ActionColumn && d != NoAction ==>
              d.Issue? && d.call.UpsertCall? && d.call.name == row.name && d.call.action == row.actionLeft
    ensures column == ActionColumn && d != NoAction && row.status == Words.onlyLeft ==> d.call.ext == Some(right[0])
    ensures column == ActionColumn && d != NoAction && row.status != Words.onlyLeft ==> d.call.ext == OrElse(row.extRight, row.extLeft)
  {
    match column
    case DeleteColumn => DeleteDecision(row)
    case ActionColumn =>
      if row.action == Sentinel then NoAction
      else if row.status == Words.onlyLeft then Issue(UpsertCall(Some(right[0]), row.name, row.actionLeft))
      else Issue(UpsertCall(OrElse(row.extRight, row.extLeft), row.name, row.actionLeft))
    case OtherColumn => Ignore
  }

  /** The Compare button: an empty comparison is reported before the status
      filter is applied; a filtered result is shown even when it is empty. */
  function OnCompare(db: Db, sel: Selection, statuses: seq<string>): (r: Response)
    ensures Incomplete(sel) ==> r == Response(Set([]), Set([]), SelectDomains)
    ensures !Incomplete(sel) && !db.online ==> r.notice == Raised && r.grid == NoUpdate
    ensures r.notice == NoData ==> r.grid == Set([]) && r.baseline == Set([]) && Compare(Words, Rule, Select(db.rows, sel.left), Select(db.rows, sel.right)) == []
    ensures r.notice == Completed ==>
              var all := Compare(Words, Rule, Select(db.rows, sel.left), Select(db.rows, sel.right));
              all != [] && r.grid == Set(StatusFilter(all, statuses)) && r.baseline == r.grid
    ensures !Incomplete(sel) && db.online ==> r.notice in {Completed, NoData}
  {
    if Incomplete(sel) then Response(Set([]), Set([]), SelectDomains)
    else
      match CompareDomains(Words, Rule, db, sel.left, sel.right)
      case Failure(_) => Response(NoUpdate, NoUpdate, Raised)
      case Success(g) =>
        if g == [] then Response(Set([]), Set([]), NoData)
        else Response(Set(StatusFilter(g, statuses)), Set(StatusFilter(g, statuses)), Completed)
  }

  /** The "Applica Filtro" button: filters the stored baseline, which becomes
      the new baseline. */
  function OnApplyFilter(baseline: seq<GridRow>, statuses: seq<string>): (r: Response)
    ensures baseline == [] ==> r == Response(Set([]), Set([]), NoData)
    ensures baseline != [] ==> r.notice == FilterApplied && r.grid.Set? && r.baseline == r.grid
    ensures r.grid.Set? && baseline != [] ==>
              forall x :: x in r.grid.value <==> x in baseline && (statuses == [] || x.status in statuses)
    ensures baseline != [] ==> r.grid == Set(StatusFilter(baseline, statuses))
  {
    if baseline == [] then Response(Set([]), Set([]), NoData)
    else Response(Set(StatusFilter(baseline, statuses)), Set(StatusFilter(baseline, statuses)), FilterApplied)
  }

  /** A row write and the refreshed, status-filtered grid. A failed connection
      changes nothing; a failed refresh still keeps the write. */
  function WriteAndRefresh(db: Db, sel: Selection, statuses: seq<string>, call: StoreCall,
                           table: seq<GridRow>, baseline: seq<GridRow>): (r: (Response, Db))
    ensures !db.online ==> r == (Response(Set(table), Set(baseline), Failed(StoreFault(ConnectionError))), db)
    ensures db.online ==> r.1 == Db(Apply(db.rows, InsertClass, call), true)
    ensures r.0.notice.Done? ==>
              var current := CompareDomains(Words, Rule, r.1, sel.left, sel.right);
              current.Success? && r.0.grid == Set(StatusFilter(current.value, statuses)) && r.0.baseline == r.0.grid
    ensures db.online && !Incomplete(sel) ==> r.0.notice.Done?
  {
    match Perform(db, InsertClass, call)
    case Failure(e) => (Response(Set(table), Set(baseline), Failed(StoreFault(e))), db)
    case Success((db', message)) =>
      match CompareDomains(Words, Rule, db', sel.left, sel.right)
      case Success(g) => (Response(Set(StatusFilter(g, statuses)), Set(StatusFilter(g, statuses)), Done(message)), db')
      case Failure(e) => (Response(Set(table), Set(baseline), Failed(StoreFault(e))), db')
  }

  /** The bulk save: every detected edit upserted over one connection, then
      the grid refreshed WITHOUT the status filter. */
  function BulkSave(db: Db, sel: Selection, changes: seq<Change>): (r: (Response, Db))
    ensures !db.online ==> r == (Response(NoUpdate, NoUpdate, Failed(StoreFault(ConnectionError))), db)
    ensures db.online ==> r.1 == Db(ApplyAll(db.rows, InsertClass, BulkCalls(changes)), true)
    ensures r.0.notice == Saved ==>
              var current := CompareDomains(Words, Rule, r.1, sel.left, sel.right);
              current.Success? && r.0.grid == Set(current.value) && r.0.baseline == r.0.grid
    ensures r.0.notice != Saved ==> r.0.grid == NoUpdate && r.0.baseline == NoUpdate
  {
    match PerformAll(db, InsertClass, BulkCalls(changes))
    case Failure(e) => (Response(NoUpdate, NoUpdate, Failed(StoreFault(e))), db)
    case Success(db') =>
      match CompareDomains(Words, Rule, db', sel.left, sel.right)
      case Success(g) => (Response(Set(g), Set(g), Saved), db')
      case Failure(e) => (Response(NoUpdate, NoUpdate, Failed(StoreFault(e))), db')
  }

  /** The click path: a guard on the four inputs, then the decision for the
      active cell. */
  function OnClick(db: Db, sel: Selection, statuses: seq<string>, baseline: seq<GridRow>, table: seq<GridRow>, cell: Option<Cell>)
    : (r: (Response, Db))
    ensures table == [] || baseline == [] || Incomplete(sel) || cell.None? ==> r == (Response(NoUpdate, NoUpdate, Quiet), db)
    ensures r.1 != db ==>
              && cell.Some? && cell.value.row < |table| && |sel.right| > 0
              && ClickDecision(table[cell.value.row], cell.value.column, sel.right).Issue?
              && r.1 == Db(Apply(db.rows, InsertClass, ClickDecision(table[cell.value.row], cell.value.column, sel.right).call), true)
    ensures ClickReaches(sel, baseline, table, cell) && db.online
            && ClickDecision(table[cell.value.row], cell.value.column, sel.right).Issue? ==>
              && r.0.notice.Done?
              && r.1 == Db(Apply(db.rows, InsertClass, ClickDecision(table[cell.value.row], cell.value.column, sel.right).call), true)
  {
    if table == [] || baseline == [] || Incomplete(sel) || cell.None? then (Response(NoUpdate, NoUpdate, Quiet), db)
    else if cell.value.row >= |table| then (Response(NoUpdate, NoUpdate, Raised), db)
    else
      match ClickDecision(table[cell.value.row], cell.value.column, sel.right)
      case Ignore => (Response(NoUpdate, NoUpdate, Quiet), db)
      case Crash => (Response(NoUpdate, NoUpdate, Raised), db)
      case NoAction => (Response(Set(table), Set(baseline), NoActionAvailable), db)
      case Issue(call) => WriteAndRefresh(db, sel, statuses, call, table, baseline)
  }

  /** A change of the grid's data or active cell: edits to target actions are
      saved in bulk; when there are none the event is handled as a click. */
  function OnTableEvent(db: Db, sel: Selection, statuses: seq<string>, edited: bool,
                        baseline: seq<GridRow>, table: seq<GridRow>, cell: Option<Cell>): (r: (Response, Db))
    ensures edited && (table == [] || baseline == [] || |sel.right| == 0) ==> r == (Response(NoUpdate, NoUpdate, Quiet), db)
    ensures edited && |sel.right| > 0 && table != [] && baseline != [] && Detect(baseline, table) != [] ==>
              r == BulkSave(db, sel, Detect(baseline, table))
    ensures (edited && Detect(baseline, table) == []) || !edited ==> r == OnClick(db, sel, statuses, baseline, table, cell)
  {
    if edited && (table == [] || baseline == [] || |sel.right| == 0) then (Response(NoUpdate, NoUpdate, Quiet), db)
    else if edited && Detect(baseline, table) != [] then BulkSave(db, sel, Detect(baseline, table))
    else OnClick(db, sel, statuses, baseline, table, cell)
  }

  /** Saving a grid nobody edited writes nothing, provided the seven key
      columns identify its rows. */
  lemma UneditedGridWritesNothing(db: Db, sel: Selection, statuses: seq<string>, g: seq<GridRow>)
    requires UniqueKeys(g)
    ensures OnTableEvent(db, sel, statuses, true, g, g, None) == (Response(NoUpdate, NoUpdate, Quiet), db)
  {
    SelfDiffEmpty(g);
  }

  /** A status filter chosen before a bulk save is not reapplied: the grid the
      save sends back holds every row of the comparison, while a row click
      sends back the filtered one. */
  lemma BulkSaveIgnoresStatusFilter(db: Db, sel: Selection, changes: seq<Change>)
    requires db.online && !Incomplete(sel)
    ensures var r := BulkSave(db, sel, changes);
            r.0.notice == Saved
            && r.0.grid == Set(Compare(Words, Rule, Select(r.1.rows, sel.left), Select(r.1.rows, sel.right)))
  {
  }
}
