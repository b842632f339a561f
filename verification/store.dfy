/** The permission store as the three apps use it: the PERMISSION table
    reduced to a sequence of rows, the `SELECT ... WHERE EXT_ID IN (...)`
    snapshot query, the check-then-update-or-insert write and the exact-match
    delete. SQL NULL is `None`; `EXT_ID = NULL` never matches. */
module Store {
  import opened Wrappers

  /** One row of PERMISSION(EXT_ID, CLASS, NAME, ACTION). */
  datatype Permission = Permission(extId: Option<string>, cls: Option<string>, name: string, action: string)

  /** One row of a fetched snapshot (`SELECT EXT_ID, NAME, ACTION`). */
  datatype Record = Record(extId: string, name: string, action: string)

  type Snapshot = seq<Record>

  /** The table plus whether a connection to it can be opened. */
  datatype Db = Db(rows: seq<Permission>, online: bool)

  datatype StoreError = ConnectionError | QueryError

  /** CLASS value written by the inserting variants. */
  const TaskPermission: string := "ch.eri.core.security.TaskPermission"

  datatype UpsertOutcome = Updated | Inserted

  /** The text each write returns to the caller, without its formatting. */
  datatype Message =
    | Upserted(outcome: UpsertOutcome, name: string, ext: Option<string>, action: string)
    | Deleted(name: string, ext: Option<string>, action: string)

  /** A write the apps ask the store to perform. */
  datatype StoreCall =
    | UpsertCall(ext: Option<string>, name: string, action: string)
    | DeleteCall(ext: Option<string>, name: string, action: string)

  // ---------------------------------------------------------------- reading

  /** `EXT_ID IN (domains)`; a NULL EXT_ID is in no list. */
  predicate Selected(p: Permission, domains: seq<string>) {
    p.extId.Some? && p.extId.value in domains
  }

  function Project(p: Permission): Record
    requires p.extId.Some?
  {
    Record(p.extId.value, p.name, p.action)
  }

  /** The rows of the selected domains, in table order, projected to three columns. */
  function Select(rows: seq<Permission>, domains: seq<string>): (r: Snapshot)
    ensures forall x :: x in r ==> x.extId in domains
    ensures forall x :: x in r ==> exists p :: p in rows && Selected(p, domains) && Project(p) == x
    ensures forall p :: p in rows && Selected(p, domains) ==> Project(p) in r
  {
    if rows == [] then []
    else
      assert forall p :: p in rows ==> p == rows[0] || p in rows[1..];
      (if Selected(rows[0], domains) then [Project(rows[0])] else []) + Select(rows[1..], domains)
  }

  /** The query only asks which domains are listed, not in what order or how often. */
  lemma SelectSameDomains(rows: seq<Permission>, a: seq<string>, b: seq<string>)
    requires forall d :: d in a <==> d in b
    ensures Select(rows, a) == Select(rows, b)
  {
  }

  /** `fetch_permissions` without a cache: fails when no connection can be
      opened, and when the domain list is empty (`IN ()` is not valid SQL). */
  function Fetch(db: Db, domains: seq<string>): (r: Result<Snapshot, StoreError>)
    ensures !db.online ==> r == Failure(ConnectionError)
    ensures db.online && |domains| == 0 ==> r == Failure(QueryError)
    ensures r.Success? ==> forall x :: x in r.value ==> x.extId in domains
    ensures db.online && |domains| > 0 ==> r == Success(Select(db.rows, domains))
  {
    if !db.online then Failure(ConnectionError)
    else if |domains| == 0 then Failure(QueryError)
    else Success(Select(db.rows, domains))
  }

  // ---------------------------------------------------------------- writing

  /** `WHERE EXT_ID = ? AND NAME = ?`; a NULL parameter matches nothing. */
  predicate KeyMatch(p: Permission, ext: Option<string>, name: string) {
    ext.Some? && p.extId == ext && p.name == name
  }

  /** `SELECT COUNT(*) ... WHERE EXT_ID = ? AND NAME = ?` is positive. */
  predicate HasKey(rows: seq<Permission>, ext: Option<string>, name: string) {
    exists p :: p in rows && KeyMatch(p, ext, name)
  }

  /** `UPDATE PERMISSION SET ACTION = ? WHERE EXT_ID = ? AND NAME = ?`. */
  function SetAction(rows: seq<Permission>, ext: Option<string>, name: string, action: string): seq<Permission> {
    seq(|rows|, i requires 0 <= i < |rows| =>
      if KeyMatch(rows[i], ext, name) then rows[i].(action := action) else rows[i])
  }

  /** `update_or_insert_permission`: update every row with key `(ext, name)`
      if there is one, otherwise insert a single row carrying `cls`. */
  function Upsert(rows: seq<Permission>, cls: Option<string>, ext: Option<string>, name: string, action: string)
    : (r: (seq<Permission>, UpsertOutcome))
    ensures r.1 == Updated <==> HasKey(rows, ext, name)
    ensures r.1 == Updated ==> |r.0| == |rows|
    ensures r.1 == Updated ==> forall i :: 0 <= i < |rows| ==>
              && r.0[i].extId == rows[i].extId && r.0[i].cls == rows[i].cls && r.0[i].name == rows[i].name
              && r.0[i].action == (if KeyMatch(rows[i], ext, name) then action else rows[i].action)
    ensures r.1 == Inserted ==> r.0 == rows + [Permission(ext, cls, name, action)]
    ensures ext.Some? ==> HasKey(r.0, ext, name)
    ensures forall p :: p in r.0 && KeyMatch(p, ext, name) ==> p.action == action
    ensures forall p :: p in rows && !KeyMatch(p, ext, name) ==> p in r.0
  {
    if HasKey(rows, ext, name) then
      var rows' := SetAction(rows, ext, name, action);
      assert forall p :: p in rows' ==> exists i :: 0 <= i < |rows| && rows'[i] == p;
      assert forall i :: 0 <= i < |rows| && !KeyMatch(rows[i], ext, name) ==> rows'[i] == rows[i];
      var p :| p in rows && KeyMatch(p, ext, name);
      var i :| 0 <= i < |rows| && rows[i] == p;
      assert KeyMatch(rows'[i], ext, name);
      (rows', Updated)
    else
      var rows' := rows + [Permission(ext, cls, name, action)];
      assert ext.Some? ==> KeyMatch(rows'[|rows|], ext, name);
      (rows', Inserted)
  }

  /** Repeating an upsert on a real domain changes nothing more and reports an update. */
  lemma UpsertIdempotent(rows: seq<Permission>, cls: Option<string>, ext: Option<string>, name: string, action: string)
    requires ext.Some?
    ensures var once := Upsert(rows, cls, ext, name, action).0;
            Upsert(once, cls, ext, name, action) == (once, Updated)
  {
    var once := Upsert(rows, cls, ext, name, action).0;
    var twice := Upsert(once, cls, ext, name, action);
    assert twice.1 == Updated;
    assert |twice.0| == |once|;
    forall i | 0 <= i < |once| ensures twice.0[i] == once[i] {
      assert once[i] in once;
      assert twice.0[i].action == once[i].action;
    }
    assert twice.0 == once;
  }

  /** With a NULL domain the existence check never matches, so every call inserts another row. */
  lemma UpsertNullDomainAppends(rows: seq<Permission>, cls: Option<string>, name: string, action: string)
    ensures var once := Upsert(rows, cls, None, name, action);
            && once.1 == Inserted
            && Upsert(once.0, cls, None, name, action).1 == Inserted
            && |Upsert(once.0, cls, None, name, action).0| == |rows| + 2
  {
  }

  /** `WHERE EXT_ID = ? AND NAME = ? AND ACTION = ?`. */
  predicate ExactMatch(p: Permission, ext: Option<string>, name: string, action: string) {
    KeyMatch(p, ext, name) && p.action == action
  }

  /** `delete_permission`: remove every row matching all three fields. */
  function Delete(rows: seq<Permission>, ext: Option<string>, name: string, action: string): (r: seq<Permission>)
    ensures forall p :: multiset(r)[p] == if ExactMatch(p, ext, name, action) then 0 else multiset(rows)[p]
    ensures (forall i :: 0 <= i < |rows| ==> !ExactMatch(rows[i], ext, name, action)) ==> r == rows
    ensures |r| <= |rows|
  {
    if rows == [] then []
    else
      assert rows == [rows[0]] + rows[1..];
      (if ExactMatch(rows[0], ext, name, action) then [] else [rows[0]]) + Delete(rows[1..], ext, name, action)
  }

  /** Deleting twice is deleting once. */
  lemma {:induction false} DeleteIdempotent(rows: seq<Permission>, ext: Option<string>, name: string, action: string)
    ensures var once := Delete(rows, ext, name, action);
            Delete(once, ext, name, action) == once
  {
    var once := Delete(rows, ext, name, action);
    forall i | 0 <= i < |once| ensures !ExactMatch(once[i], ext, name, action) {
      assert once[i] in multiset(once);
    }
  }

  /** One write applied to the table; `cls` is the CLASS an insert writes. */
  function Apply(rows: seq<Permission>, cls: Option<string>, call: StoreCall): (r: seq<Permission>)
    ensures |r| <= |rows| + 1
  {
    match call
    case UpsertCall(ext, name, action) => Upsert(rows, cls, ext, name, action).0
    case DeleteCall(ext, name, action) => Delete(rows, ext, name, action)
  }

  /** Writes applied one after the other, in order; each adds at most one row. */
  function ApplyAll(rows: seq<Permission>, cls: Option<string>, calls: seq<StoreCall>): (r: seq<Permission>)
    decreases |calls|
    ensures calls == [] ==> r == rows
    ensures |calls| == 1 ==> r == Apply(rows, cls, calls[0])
    ensures |r| <= |rows| + |calls|
  {
    if calls == [] then rows else ApplyAll(Apply(rows, cls, calls[0]), cls, calls[1..])
  }

  /** A batch split in two is the first part applied, then the second. */
  lemma {:induction false} ApplyAllAppend(rows: seq<Permission>, cls: Option<string>, a: seq<StoreCall>, b: seq<StoreCall>)
    ensures ApplyAll(rows, cls, a + b) == ApplyAll(ApplyAll(rows, cls, a), cls, b)
    decreases |a|
  {
    if a == [] {
      assert a + b == b;
    } else {
      assert (a + b)[0] == a[0];
      assert (a + b)[1..] == a[1..] + b;
      ApplyAllAppend(Apply(rows, cls, a[0]), cls, a[1..], b);
    }
  }

  /** After a batch whose last write upserts into a real domain, that key is
      present and every row carrying it holds the upserted action. */
  lemma {:induction false} ApplyAllLastUpsertHolds(rows: seq<Permission>, cls: Option<string>, calls: seq<StoreCall>,
                                                   ext: string, name: string, action: string)
    requires calls != [] && calls[|calls| - 1] == UpsertCall(Some(ext), name, action)
    ensures var r := ApplyAll(rows, cls, calls);
            && HasKey(r, Some(ext), name)
            && forall p :: p in r && KeyMatch(p, Some(ext), name) ==> p.action == action
  {
    var n := |calls| - 1;
    assert calls == calls[..n] + [calls[n]];
    ApplyAllAppend(rows, cls, calls[..n], [calls[n]]);
  }

  // ---------------------------------------------------------- the gateway

  /** The text a write returns. */
  function MessageOf(rows: seq<Permission>, call: StoreCall): Message {
    match call
    case UpsertCall(ext, name, action) =>
      Upserted(if HasKey(rows, ext, name) then Updated else Inserted, name, ext, action)
    case DeleteCall(ext, name, action) => Deleted(name, ext, action)
  }

  /** One write through a fresh connection: fails before touching the table
      when no connection can be opened, otherwise applies the write and
      reports it. */
  function Perform(db: Db, cls: Option<string>, call: StoreCall): (r: Result<(Db, Message), StoreError>)
    ensures r.Failure? <==> !db.online
    ensures r.Failure? ==> r.error == ConnectionError
    ensures r.Success? ==> r.value.0 == Db(Apply(db.rows, cls, call), true)
    ensures r.Success? && call.UpsertCall? ==>
              r.value.1 == Upserted(if HasKey(db.rows, call.ext, call.name) then Updated else Inserted, call.name, call.ext, call.action)
    ensures r.Success? && call.DeleteCall? ==> r.value.1 == Deleted(call.name, call.ext, call.action)
  {
    if !db.online then Failure(ConnectionError)
    else Success((Db(Apply(db.rows, cls, call), true), MessageOf(db.rows, call)))
  }

  /** A batch of writes over one connection, in order. */
  function PerformAll(db: Db, cls: Option<string>, calls: seq<StoreCall>): (r: Result<Db, StoreError>)
    ensures r.Failure? <==> !db.online
    ensures r.Failure? ==> r.error == ConnectionError
    ensures r.Success? ==> r.value == Db(ApplyAll(db.rows, cls, calls), true)
  {
    if !db.online then Failure(ConnectionError)
    else Success(Db(ApplyAll(db.rows, cls, calls), true))
  }

  /** Writes never touch rows outside their own key: a row whose (EXT_ID, NAME)
      none of the calls names survives every batch. */
  lemma {:induction false} ApplyAllKeepsOthers(rows: seq<Permission>, cls: Option<string>, calls: seq<StoreCall>, p: Permission)
    requires p in rows
    requires forall i :: 0 <= i < |calls| ==> !KeyMatch(p, calls[i].ext, calls[i].name)
    ensures p in ApplyAll(rows, cls, calls)
    decreases |calls|
  {
    if calls != [] {
      var next := Apply(rows, cls, calls[0]);
      if calls[0].DeleteCall? {
        assert multiset(rows)[p] > 0;
      }
      assert p in next;
      ApplyAllKeepsOthers(next, cls, calls[1..], p);
    }
  }
}
