/** The first, Italian variant (ComparePermissions.py): a comparison that
    turns any failure into an empty table, no Delete column, inserts without
    a CLASS, and writes only from the Action column. */
module OriginalApp {
  import opened Wrappers
  import opened Store
  import opened Comparison
  import opened Session

  /** The grid has no Delete column, so the delete word is never shown. */
  const Words: Labels := Labels("Comuni", "Unico a Sinistra", "Unico a Destra", "Differenti", "Aggiorna", "")

  const Rule: DeleteRule := NoDeleteColumn

  /** Inserts name three columns only; CLASS stays NULL. */
  const InsertClass: Option<string> := None

  /** Every row carries one of the four status words, "Aggiorna" exactly when
      the status is neither common nor right-only, "-" otherwise, and no
      Delete cell. */
  lemma FlagsOfRows(left: Snapshot, right: Snapshot)
    ensures forall row :: row in Compare(Words, Rule, left, right) ==>
              && row.status in {"Comuni", "Unico a Sinistra", "Unico a Destra", "Differenti"}
              && (row.action == "Aggiorna" <==> row.status !in {"Comuni", "Unico a Destra"})
              && (row.action != "Aggiorna" ==> row.action == Sentinel)
              && row.delete.None?
  {
    var rows := Compare(Words, Rule, left, right);
    forall row | row in rows
      ensures && row.status in {"Comuni", "Unico a Sinistra", "Unico a Destra", "Differenti"}
              && (row.action == "Aggiorna" <==> row.status !in {"Comuni", "Unico a Destra"})
              && (row.action != "Aggiorna" ==> row.action == Sentinel)
              && row.delete.None?
    {
      var i :| 0 <= i < |rows| && rows[i] == row;
      assert row.status == StatusLabel(Words, Classify(row.actionLeft, row.actionRight));
    }
  }

  /** `compare_permissions` with its blanket `except`: whatever fails (no
      connection, an empty domain list) gives the empty table. */
  function ComparePermissions(db: Db, left: seq<string>, right: seq<string>): (rows: seq<GridRow>)
    ensures !db.online || |left| == 0 || |right| == 0 ==> rows == []
    ensures db.online && |left| > 0 && |right| > 0 ==> rows == Compare(Words, Rule, Select(db.rows, left), Select(db.rows, right))
  {
    match CompareDomains(Words, Rule, db, left, right)
    case Success(g) => g
    case Failure(_) => []
  }

  /** The Compare button. The grid is the only output besides the message. */
  function OnCompare(db: Db, sel: Selection): (r: Response)
    ensures r.baseline == NoUpdate
    ensures Incomplete(sel) ==> r == Response(Set([]), NoUpdate, SelectDomains)
    ensures !Incomplete(sel) && !db.online ==> r == Response(Set([]), NoUpdate, NoData)
    ensures r.notice == NoData <==> !Incomplete(sel) && ComparePermissions(db, sel.left, sel.right) == []
    ensures r.notice == Completed ==> r.grid == Set(ComparePermissions(db, sel.left, sel.right))
    ensures !Incomplete(sel) ==> r.notice in {NoData, Completed} && r.grid == Set(ComparePermissions(db, sel.left, sel.right))
    ensures !Incomplete(sel) && db.online ==>
              r.grid == Set(Compare(Words, Rule, Select(db.rows, sel.left), Select(db.rows, sel.right)))
  {
    if Incomplete(sel) then Response(Set([]), NoUpdate, SelectDomains)
    else
      var g := ComparePermissions(db, sel.left, sel.right);
      if g == [] then Response(Set([]), NoUpdate, NoData)
      else Response(Set(g), NoUpdate, Completed)
  }

  /** Where an Aggiorna click writes: the first selected target for a
      left-only row (an empty selection raises, and the error is shown),
      `EXT_ID_right or EXT_ID_left` otherwise. */
  function ActionDestination(row: GridRow, right: seq<string>): (r: Result<Option<string>, Fault>)
    ensures r.Failure? <==> row.status == Words.onlyLeft && |right| == 0
    ensures r.Failure? ==> r.error == NoTargetDomain
    ensures r.Success? && row.status == Words.onlyLeft ==> r.value == Some(right[0])
    ensures r.Success? && row.status != Words.onlyLeft ==> r.value == OrElse(row.extRight, row.extLeft)
  {
    if row.status == Words.onlyLeft then
      if |right| == 0 then Failure(NoTargetDomain) else Success(Some(right[0]))
    else Success(OrElse(row.extRight, row.extLeft))
  }

  /** The active cell is an Action cell of the grid that offers "Aggiorna". */
  predicate OffersAction(table: seq<GridRow>, cell: Option<Cell>) {
    cell.Some? && cell.value.column == ActionColumn && cell.value.row < |table| && table[cell.value.row].action != Sentinel
  }

  /** A click on the grid: only an Action cell not showing "-" writes, and
      the store is left untouched by every other click and by every failure. */
  function OnCellClick(db: Db, sel: Selection, table: seq<GridRow>, cell: Option<Cell>): (r: (Response, Db))
    ensures r.0.baseline == NoUpdate
    ensures cell.None? ==> r == (Response(NoUpdate, NoUpdate, Quiet), db)
    ensures cell.Some? && table == [] ==> r == (Response(Set([]), NoUpdate, NoDataToUpdate), db)
    ensures cell.Some? && table != [] && cell.value.column != ActionColumn ==>
              r == (Response(Set(table), NoUpdate, PickActionColumn), db)
    ensures r.1 != db ==>
              && cell.Some? && cell.value.column == ActionColumn && cell.value.row < |table|
              && table[cell.value.row].action != Sentinel
              && ActionDestination(table[cell.value.row], sel.right).Success?
              && r.1 == Db(Upsert(db.rows, InsertClass, ActionDestination(table[cell.value.row], sel.right).value,
                                  table[cell.value.row].name, table[cell.value.row].actionLeft).0, true)
    ensures r.0.notice.Done? ==> r.0.grid == Set(ComparePermissions(r.1, sel.left, sel.right))
    ensures OffersAction(table, cell) && db.online && ActionDestination(table[cell.value.row], sel.right).Success? ==>
              var row := table[cell.value.row];
              && r.0.notice.Done?
              && r.1 == Db(Upsert(db.rows, InsertClass, ActionDestination(row, sel.right).value, row.name, row.actionLeft).0, true)
    ensures OffersAction(table, cell) && db.online && ActionDestination(table[cell.value.row], sel.right).Failure? ==>
              r == (Response(Set(table), NoUpdate, Failed(NoTargetDomain)), db)
  {
    if cell.None? then (Response(NoUpdate, NoUpdate, Quiet), db)
    else if table == [] then (Response(Set([]), NoUpdate, NoDataToUpdate), db)
    else if cell.value.column != ActionColumn then (Response(Set(table), NoUpdate, PickActionColumn), db)
    else if cell.value.row >= |table| then (Response(NoUpdate, NoUpdate, Raised), db)
    else
      var row := table[cell.value.row];
      if row.action == Sentinel then (Response(Set(table), NoUpdate, NoActionAvailable), db)
      else if !db.online then (Response(Set(table), NoUpdate, Failed(StoreFault(ConnectionError))), db)
      else
        match ActionDestination(row, sel.right)
        case Failure(f) => (Response(Set(table), NoUpdate, Failed(f)), db)
        case Success(dest) =>
          var call := UpsertCall(dest, row.name, row.actionLeft);
          var (db', message) := Perform(db, InsertClass, call).value;
          (Response(Set(ComparePermissions(db', sel.left, sel.right)), NoUpdate, Done(message)), db')
  }

  /** This variant never writes a CLASS: after a click every row's CLASS is
      NULL or one the store already held. */
  lemma InsertsCarryNoClass(db: Db, sel: Selection, table: seq<GridRow>, cell: Option<Cell>)
    ensures var after := OnCellClick(db, sel, table, cell).1.rows;
            forall p :: p in after ==> p.cls.None? || exists q :: q in db.rows && q.cls == p.cls
  {
    var after := OnCellClick(db, sel, table, cell).1.rows;
    forall p | p in after ensures p.cls.None? || exists q :: q in db.rows && q.cls == p.cls {
      if after != db.rows {
        var row := table[cell.value.row];
        var dest := ActionDestination(row, sel.right).value;
        var up := Upsert(db.rows, InsertClass, dest, row.name, row.actionLeft);
        var i :| 0 <= i < |after| && after[i] == p;
        if up.1 == Updated {
          assert db.rows[i] in db.rows;
        } else if i < |db.rows| {
          assert after[i] == db.rows[i];
          assert db.rows[i] in db.rows;
        }
      }
    }
  }
}
