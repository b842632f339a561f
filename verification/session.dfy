/** What the three apps' callbacks see and answer, reduced to their
    decisions: the domain selection, the clicked cell, the grid and baseline
    they send back (or leave as they are), and the notification they raise. */
module Session {
  import opened Wrappers
  import opened Store
  import opened Comparison

  /** A callback output: left as the browser has it, or replaced. */
  datatype Update<T> = NoUpdate | Set(value: T)

  /** Why a write was reported as failed. */
  datatype Fault =
    | StoreFault(error: StoreError)   // connection or query error from the store
    | NoTargetDomain                  // `right_domains[0]` on an empty selection

  /** The notification a callback shows, without its wording. */
  datatype Notice =
    | Quiet                 // nothing new is shown
    | SelectDomains         // a domain list is empty
    | NoData                // the comparison (or the baseline) is empty
    | NoDataToUpdate        // a click on an empty grid
    | Completed             // a comparison was shown
    | FilterApplied         // the status filter was applied to the baseline
    | Saved                 // a bulk save went through
    | NoActionAvailable     // the clicked cell shows "-"
    | PickActionColumn      // a click outside the Action column
    | Done(message: Message)  // a row write went through; its message
    | Failed(fault: Fault)  // a caught exception
    | Raised                // an uncaught exception: no output changes

  /** The grid columns a click can land on, as far as the callbacks distinguish them. */
  datatype Column = ActionColumn | DeleteColumn | OtherColumn

  datatype Cell = Cell(row: nat, column: Column)

  /** The two dropdowns; the single-choice target of one variant is a list of at most one domain. */
  datatype Selection = Selection(left: seq<string>, right: seq<string>)

  predicate Incomplete(sel: Selection) {
    |sel.left| == 0 || |sel.right| == 0
  }

  /** The guards of a click path pass and the active cell is a row of the grid. */
  predicate ClickReaches(sel: Selection, baseline: seq<GridRow>, table: seq<GridRow>, cell: Option<Cell>) {
    table != [] && baseline != [] && !Incomplete(sel) && cell.Some? && cell.value.row < |table|
  }

  /** The grid data, the stored baseline and the notification a callback returns. */
  datatype Response = Response(grid: Update<seq<GridRow>>, baseline: Update<seq<GridRow>>, notice: Notice)

  /** What a click on a grid cell asks for. */
  datatype Decision =
    | Ignore              // a column the callback does not act on
    | NoAction            // the cell shows "-"
    | Issue(call: StoreCall)
    | Crash               // the row has no such cell (a `KeyError`)

  /** Python truthiness of an optional cell: absent and "" are false. */
  predicate Truthy(a: Option<string>) {
    a.Some? && a.value != ""
  }

  /** Python's `a or b` on two optional cells. */
  function OrElse(a: Option<string>, b: Option<string>): (r: Option<string>)
    ensures Truthy(r) <==> Truthy(a) || Truthy(b)
    ensures r == a || r == b
    ensures Truthy(a) ==> r == a
    ensures !Truthy(a) ==> r == b
  {
    if Truthy(a) then a else b
  }

  /** A click on a Delete cell: no such column is a `KeyError`, "-" is no
      action, anything else deletes the right-hand record the row shows. */
  function DeleteDecision(row: GridRow): (d: Decision)
    ensures d == Crash <==> row.delete.None?
    ensures d == NoAction <==> row.delete == Some(Sentinel)
    ensures d.Issue? ==> d.call == DeleteCall(row.extRight, row.name, row.actionRight)
    ensures d != Ignore
  {
    match row.delete
    case None => Crash
    case Some(flag) =>
      if flag == Sentinel then NoAction else Issue(DeleteCall(row.extRight, row.name, row.actionRight))
  }

  /** A row of a grid built by the comparator with a Delete column offers a
      delete only when it shows a right-hand record, so the call names that
      record's domain, name and action. Under the status rule this needs the
      left snapshot to hold no "-" or "nan" action: a left-only record whose
      action is "-" is classified common and offered a delete of nothing. */
  lemma DeleteTargetsRightRecord(labels: Labels, rule: DeleteRule, left: Snapshot, right: Snapshot, i: nat)
    requires labels.delete != Sentinel
    requires i < |Compare(labels, rule, left, right)|
    requires rule != NoDeleteColumn
    requires RealActions(right)
    requires rule == ByStatus ==> RealActions(left)
    ensures var row := Compare(labels, rule, left, right)[i];
            var d := DeleteDecision(row);
            && d != Crash
            && (d.Issue? ==> row.extRight.Some? && d.call.ext == row.extRight)
            && (d.Issue? ==> exists x :: x in right && Some(x.extId) == row.extRight && x.name == row.name && x.action == row.actionRight)
  {
    var js := Join(left, right);
    var j := js[i];
    assert j in js;
    JoinLineSides(left, right, j);
    var row := BuildRow(labels, rule, j);
    if DeleteDecision(row).Issue? {
      assert j.right.Some?;
      assert j.right.value in right;
    }
  }
}
