/** `compare_permissions`, shared by the three apps: a full outer join of two
    snapshots on NAME (every left record paired with every right record of the
    same name), absent actions shown as "-", a four-way status, and the
    per-row "Action" and "Delete" cells that gate the writes. */
module Comparison {
  import opened Wrappers
  import opened Store
  import Text

  /** The placeholder pandas' `astype(str).replace("nan", "-")` leaves for a missing action. */
  const Sentinel: string := "-"

  datatype Status = Common | OnlyLeft | OnlyRight | Different

  /** An action cell: a missing value prints as "nan" and is then replaced by
      "-", and so is a stored action that is literally "nan". */
  function Render(a: Option<string>): (r: string)
    ensures a.None? ==> r == Sentinel
    ensures r != Sentinel ==> a == Some(r)
    ensures a.Some? && a.value != "nan" ==> r == a.value
    ensures a == Some("nan") ==> r == Sentinel
  {
    match a
    case None => Sentinel
    case Some(s) => if s == "nan" then Sentinel else s
  }

  /** `classify_status`: the first matching test decides. */
  function Classify(left: string, right: string): (s: Status)
    ensures s == Common <==> left == right
    ensures s == OnlyRight <==> left != right && left == Sentinel
    ensures s == OnlyLeft <==> left != right && left != Sentinel && right == Sentinel
    ensures s == Different <==> left != right && left != Sentinel && right != Sentinel
  {
    if left == right then Common
    else if left == Sentinel then OnlyRight
    else if right == Sentinel then OnlyLeft
    else Different
  }

  // ------------------------------------------------------------ outer join

  /** One line of the merged frame: the left record, the right record, or both. */
  datatype Joined = Joined(left: Option<Record>, right: Option<Record>) {
    predicate Valid() {
      left.Some? || right.Some?
    }

    function Name(): string
      requires Valid()
    {
      if left.Some? then left.value.name else right.value.name
    }
  }

  function Names(s: Snapshot): set<string> {
    set x | x in s :: x.name
  }

  /** The records of `s` called `name`, in order. */
  function Matching(name: string, s: Snapshot): (r: Snapshot)
    ensures forall x :: x in r <==> x in s && x.name == name
    ensures r == [] <==> name !in Names(s)
  {
    if s == [] then []
    else
      assert forall x :: x in s <==> x == s[0] || x in s[1..];
      (if s[0].name == name then [s[0]] else []) + Matching(name, s[1..])
  }

  /** `l` paired with each of `m`, in order. */
  function PairWith(l: Record, m: Snapshot): (r: seq<Joined>)
    ensures |r| == |m|
    ensures forall i :: 0 <= i < |m| ==> r[i] == Joined(Some(l), Some(m[i]))
    ensures forall a, x :: Joined(a, Some(x)) in r <==> a == Some(l) && x in m
    ensures forall j :: j in r ==> j.left == Some(l) && j.right.Some?
  {
    if m == [] then []
    else
      assert forall x :: x in m <==> x == m[0] || x in m[1..];
      [Joined(Some(l), Some(m[0]))] + PairWith(l, m[1..])
  }

  /** The merged lines that carry a left record, in left order: each left
      record with every right record of its name, or alone. */
  function LeftRows(left: Snapshot, right: Snapshot): (r: seq<Joined>)
    ensures forall i :: 0 <= i < |r| ==> r[i].left.Some?
    ensures forall i :: 0 <= i < |r| && r[i].right.Some? ==> r[i].left.value.name == r[i].right.value.name
  {
    if left == [] then []
    else
      var m := Matching(left[0].name, right);
      assert forall i :: 0 <= i < |m| ==> m[i] in m;
      (if m == [] then [Joined(Some(left[0]), None)] else PairWith(left[0], m)) + LeftRows(left[1..], right)
  }

  lemma {:induction false} LeftRowsMembers(left: Snapshot, right: Snapshot)
    ensures forall j :: j in LeftRows(left, right) ==> j.left.Some? && j.left.value in left
    ensures forall l, x :: Joined(Some(l), Some(x)) in LeftRows(left, right) <==> l in left && x in right && l.name == x.name
    ensures forall l :: Joined(Some(l), None) in LeftRows(left, right) <==> l in left && l.name !in Names(right)
  {
    if left != [] {
      var l := left[0];
      var m := Matching(l.name, right);
      var head := if m == [] then [Joined(Some(l), None)] else PairWith(l, m);
      var rest := LeftRows(left[1..], right);
      LeftRowsMembers(left[1..], right);
      assert LeftRows(left, right) == head + rest;
      assert forall x :: x in left <==> x == l || x in left[1..];
      assert forall j :: j in head + rest <==> j in head || j in rest;
    }
  }

  /** The merged lines with only a right record: right records whose name the left lacks. */
  function RightOnly(left: Snapshot, right: Snapshot): (r: seq<Joined>)
    ensures forall i :: 0 <= i < |r| ==> r[i].left.None? && r[i].right.Some?
  {
    if right == [] then []
    else
      (if right[0].name in Names(left) then [] else [Joined(None, Some(right[0]))]) + RightOnly(left, right[1..])
  }

  lemma {:induction false} RightOnlyMembers(left: Snapshot, right: Snapshot)
    ensures forall j :: j in RightOnly(left, right) ==> j.left.None? && j.right.Some? && j.right.value in right
    ensures forall x :: Joined(None, Some(x)) in RightOnly(left, right) <==> x in right && x.name !in Names(left)
  {
    if right != [] {
      RightOnlyMembers(left, right[1..]);
      assert forall x :: x in right <==> x == right[0] || x in right[1..];
    }
  }

  /** When every right name also occurs on the left there are no right-only lines. */
  lemma {:induction false} RightOnlyEmpty(left: Snapshot, right: Snapshot)
    requires forall x :: x in right ==> x.name in Names(left)
    ensures RightOnly(left, right) == []
  {
    if right != [] {
      assert right[0] in right;
      RightOnlyEmpty(left, right[1..]);
    }
  }

  /** `pd.merge(left, right, on="NAME", how="outer")`, row order aside. */
  function Join(left: Snapshot, right: Snapshot): (r: seq<Joined>)
    ensures forall i :: 0 <= i < |r| ==> r[i].Valid()
    ensures forall i :: 0 <= i < |r| && r[i].left.Some? && r[i].right.Some? ==> r[i].left.value.name == r[i].right.value.name
  {
    LeftRows(left, right) + RightOnly(left, right)
  }

  /** The full outer join on NAME: a pair of records is merged exactly when the
      names agree; a record stands alone exactly when the other side has no
      record of its name; nothing else appears. */
  lemma JoinMembers(left: Snapshot, right: Snapshot)
    ensures forall j :: j in Join(left, right) ==> j.Valid()
    ensures forall j :: j in Join(left, right) && j.left.Some? ==> j.left.value in left
    ensures forall j :: j in Join(left, right) && j.left.None? ==> j.right.Some? && j.right.value in right
    ensures forall l, x :: Joined(Some(l), Some(x)) in Join(left, right) <==> l in left && x in right && l.name == x.name
    ensures forall l :: Joined(Some(l), None) in Join(left, right) <==> l in left && l.name !in Names(right)
    ensures forall x :: Joined(None, Some(x)) in Join(left, right) <==> x in right && x.name !in Names(left)
  {
    LeftRowsMembers(left, right);
    RightOnlyMembers(left, right);
    var a := LeftRows(left, right);
    var b := RightOnly(left, right);
    assert forall j :: j in a + b <==> j in a || j in b;
  }

  /** Each side of a merged line is a record of that side's snapshot, and
      when both are present they share the name. */
  lemma JoinLineSides(left: Snapshot, right: Snapshot, j: Joined)
    requires j in Join(left, right)
    ensures j.left.Some? ==> j.left.value in left
    ensures j.right.Some? ==> j.right.value in right
    ensures j.left.Some? && j.right.Some? ==> j.left.value.name == j.right.value.name
  {
    JoinMembers(left, right);
    if j.right.Some? {
      if j.left.Some? {
        assert Joined(j.left, Some(j.right.value)) in Join(left, right);
      } else {
        assert Joined(None, Some(j.right.value)) in Join(left, right);
      }
    }
  }

  // ------------------------------------------------------------ grid rows

  /** One record of the comparison grid, every cell as the grid shows it;
      `delete` is `None` in the variant whose grid has no Delete column. */
  datatype GridRow = GridRow(
    extLeft: Option<string>,
    name: string,
    actionLeft: string,
    extRight: Option<string>,
    actionRight: string,
    status: string,
    action: string,
    delete: Option<string>)

  /** The words a variant prints for the four statuses and the two offered writes. */
  datatype Labels = Labels(
    common: string, onlyLeft: string, onlyRight: string, different: string,
    update: string, delete: string)

  function StatusLabel(labels: Labels, s: Status): string {
    match s
    case Common => labels.common
    case OnlyLeft => labels.onlyLeft
    case OnlyRight => labels.onlyRight
    case Different => labels.different
  }

  /** How a variant fills the Delete cell. */
  datatype DeleteRule =
    | NoDeleteColumn   // the grid has no Delete column
    | ByTargetDomain   // offered when EXT_ID_right is a usable domain
    | ByStatus         // offered for the common and right-only statuses

  /** A cell holding a usable domain id: present, non-empty, and not "", "nan"
      or "-" once trimmed and lower-cased. */
  predicate ValidTargetDomain(ext: Option<string>) {
    ext.Some? && ext.value != "" && Text.Lower(Text.Strip(ext.value)) !in ["", "nan", "-"]
  }

  function ExtOf(r: Option<Record>): Option<string> {
    if r.Some? then Some(r.value.extId) else None
  }

  function ActionOf(r: Option<Record>): Option<string> {
    if r.Some? then Some(r.value.action) else None
  }

  /** One grid row built from one merged line: the two sides' domains and
      actions (an absent side reads "-"), the status the four-way rule gives
      for the two action cells, "Update" offered exactly for the left-only and
      different statuses, and the Delete cell filled by the variant's rule. */
  function BuildRow(labels: Labels, rule: DeleteRule, j: Joined): (row: GridRow)
    requires j.Valid()
    ensures row.name == j.Name()
    ensures row.extLeft == ExtOf(j.left) && row.extRight == ExtOf(j.right)
    ensures j.left.None? ==> row.actionLeft == Sentinel
    ensures j.right.None? ==> row.actionRight == Sentinel
    ensures j.left.Some? && j.left.value.action != "nan" ==> row.actionLeft == j.left.value.action
    ensures j.right.Some? && j.right.value.action != "nan" ==> row.actionRight == j.right.value.action
    ensures row.status == StatusLabel(labels, Classify(row.actionLeft, row.actionRight))
    ensures row.action == (if Classify(row.actionLeft, row.actionRight) in {OnlyLeft, Different} then labels.update else Sentinel)
    ensures row.delete.None? <==> rule == NoDeleteColumn
    ensures rule == ByTargetDomain ==> row.delete == Some(if ValidTargetDomain(row.extRight) then labels.delete else Sentinel)
    ensures rule == ByStatus ==> row.delete == Some(if Classify(row.actionLeft, row.actionRight) in {Common, OnlyRight} then labels.delete else Sentinel)
  {
    var al := Render(ActionOf(j.left));
    var ar := Render(ActionOf(j.right));
    var s := Classify(al, ar);
    var extRight := ExtOf(j.right);
    GridRow(
      ExtOf(j.left), j.Name(), al, extRight, ar,
      StatusLabel(labels, s),
      if s == Common || s == OnlyRight then Sentinel else labels.update,
      match rule
      case NoDeleteColumn => None
      case ByTargetDomain => Some(if ValidTargetDomain(extRight) then labels.delete else Sentinel)
      case ByStatus => Some(if s == Common || s == OnlyRight then labels.delete else Sentinel))
  }

  /** The comparison grid: one row per merged line. */
  function Compare(labels: Labels, rule: DeleteRule, left: Snapshot, right: Snapshot): (rows: seq<GridRow>)
    ensures |rows| == |Join(left, right)|
    ensures forall i :: 0 <= i < |rows| ==> rows[i] == BuildRow(labels, rule, Join(left, right)[i])
  {
    var js := Join(left, right);
    seq(|js|, i requires 0 <= i < |js| => BuildRow(labels, rule, js[i]))
  }

  /** `compare_permissions` as the variants without a cache run it: both
      snapshots are queried, then compared. */
  function CompareDomains(labels: Labels, rule: DeleteRule, db: Db, left: seq<string>, right: seq<string>)
    : (r: Result<seq<GridRow>, StoreError>)
    ensures !db.online ==> r == Failure(ConnectionError)
    ensures db.online && (|left| == 0 || |right| == 0) ==> r == Failure(QueryError)
    ensures db.online && |left| > 0 && |right| > 0 ==> r == Success(Compare(labels, rule, Select(db.rows, left), Select(db.rows, right)))
  {
    match Fetch(db, left)
    case Failure(e) => Failure(e)
    case Success(l) =>
      match Fetch(db, right)
      case Failure(e) => Failure(e)
      case Success(r) => Success(Compare(labels, rule, l, r))
  }

  function RowNames(rows: seq<GridRow>): set<string> {
    set row | row in rows :: row.name
  }

  /** The merged lines name exactly the permissions present on either side. */
  lemma JoinCoversNames(left: Snapshot, right: Snapshot)
    ensures forall j :: j in Join(left, right) ==> j.Name() in Names(left) + Names(right)
    ensures forall n :: n in Names(left) + Names(right) ==> exists j :: j in Join(left, right) && j.Name() == n
  {
    var js := Join(left, right);
    JoinMembers(left, right);
    forall j | j in js ensures j.Name() in Names(left) + Names(right) {
      if j.left.Some? {
        assert j.left.value in left;
      } else {
        assert j == Joined(None, Some(j.right.value));
      }
    }
    forall n | n in Names(left) + Names(right) ensures exists j :: j in js && j.Name() == n {
      if n in Names(left) {
        var l :| l in left && l.name == n;
        if n in Names(right) {
          var x :| x in right && x.name == n;
          assert Joined(Some(l), Some(x)) in js;
        } else {
          assert Joined(Some(l), None) in js;
        }
      } else {
        var x :| x in right && x.name == n;
        assert Joined(None, Some(x)) in js;
      }
    }
  }

  /** The grid names exactly the permissions present on either side. */
  lemma CompareCoversNames(labels: Labels, rule: DeleteRule, left: Snapshot, right: Snapshot)
    ensures RowNames(Compare(labels, rule, left, right)) == Names(left) + Names(right)
  {
    var rows := Compare(labels, rule, left, right);
    JoinCoversNames(left, right);
    forall n | n in Names(left) + Names(right) ensures n in RowNames(rows) {
      NameHasRow(labels, rule, left, right, n);
    }
    forall row | row in rows ensures row.name in Names(left) + Names(right) {
      RowHasName(labels, rule, left, right, row);
    }
  }

  lemma NameHasRow(labels: Labels, rule: DeleteRule, left: Snapshot, right: Snapshot, n: string)
    requires exists j :: j in Join(left, right) && j.Name() == n
    ensures exists row :: row in Compare(labels, rule, left, right) && row.name == n
  {
    var js := Join(left, right);
    var rows := Compare(labels, rule, left, right);
    var j :| j in js && j.Name() == n;
    var i :| 0 <= i < |js| && js[i] == j;
    assert rows[i] == BuildRow(labels, rule, j);
    assert rows[i] in rows;
  }

  lemma RowHasName(labels: Labels, rule: DeleteRule, left: Snapshot, right: Snapshot, row: GridRow)
    requires row in Compare(labels, rule, left, right)
    requires forall j :: j in Join(left, right) ==> j.Name() in Names(left) + Names(right)
    ensures row.name in Names(left) + Names(right)
  {
    var js := Join(left, right);
    var rows := Compare(labels, rule, left, right);
    var i :| 0 <= i < |rows| && rows[i] == row;
    assert row == BuildRow(labels, rule, js[i]);
    assert js[i] in js;
  }

  /** No stored action collides with the sentinel or with pandas' "nan". */
  predicate RealActions(s: Snapshot) {
    forall x :: x in s ==> x.action != Sentinel && x.action != "nan"
  }

  /** When no stored action is "-" or "nan", the status says which sides hold
      the permission: left-only exactly when the right record is absent,
      right-only exactly when the left one is, common or different exactly
      when both are present with equal or unequal actions. */
  lemma StatusReflectsPresence(labels: Labels, rule: DeleteRule, left: Snapshot, right: Snapshot)
    requires RealActions(left) && RealActions(right)
    ensures forall i :: 0 <= i < |Join(left, right)| ==>
              var j := Join(left, right)[i];
              var s := Classify(Compare(labels, rule, left, right)[i].actionLeft,
                                Compare(labels, rule, left, right)[i].actionRight);
              && (s == OnlyLeft <==> j.right.None?)
              && (s == OnlyRight <==> j.left.None?)
              && (s == Common <==> j.left.Some? && j.right.Some? && j.left.value.action == j.right.value.action)
              && (s == Different <==> j.left.Some? && j.right.Some? && j.left.value.action != j.right.value.action)
  {
    var js := Join(left, right);
    JoinMembers(left, right);
    forall i | 0 <= i < |js|
      ensures var j := js[i];
              var s := Classify(Compare(labels, rule, left, right)[i].actionLeft,
                                Compare(labels, rule, left, right)[i].actionRight);
              && (s == OnlyLeft <==> j.right.None?)
              && (s == OnlyRight <==> j.left.None?)
              && (s == Common <==> j.left.Some? && j.right.Some? && j.left.value.action == j.right.value.action)
              && (s == Different <==> j.left.Some? && j.right.Some? && j.left.value.action != j.right.value.action)
    {
      var j := js[i];
      assert j in js;
      if j.left.Some? {
        assert Joined(j.left, j.right) in js;
        assert j.left.value in left;
      }
      if j.right.Some? {
        if j.left.Some? {
          assert j.right.value in right;
        } else {
          assert Joined(None, Some(j.right.value)) in js;
        }
      }
    }
  }

  /** No two records of the snapshot share a name. */
  predicate UniqueNames(s: Snapshot) {
    forall i, j :: 0 <= i < j < |s| ==> s[i].name != s[j].name
  }

  lemma {:induction false} MatchingSingle(s: Snapshot, k: nat)
    requires UniqueNames(s) && k < |s|
    ensures Matching(s[k].name, s) == [s[k]]
  {
    if k == 0 {
      assert forall x :: x in s[1..] ==> x.name != s[0].name by {
        forall x | x in s[1..] ensures x.name != s[0].name {
          var i :| 0 <= i < |s[1..]| && s[1..][i] == x;
          assert s[i + 1] == x;
        }
      }
      assert Matching(s[0].name, s[1..]) == [];
    } else {
      assert s[0].name != s[k].name;
      assert UniqueNames(s[1..]) by {
        forall i, j | 0 <= i < j < |s[1..]| ensures s[1..][i].name != s[1..][j].name {
          assert s[1..][i] == s[i + 1] && s[1..][j] == s[j + 1];
        }
      }
      MatchingSingle(s[1..], k - 1);
      assert s[1..][k - 1] == s[k];
    }
  }

  /** Each record paired with itself, in order. */
  function Diagonal(t: Snapshot): (r: seq<Joined>)
    ensures |r| == |t|
    ensures forall i :: 0 <= i < |t| ==> r[i] == Joined(Some(t[i]), Some(t[i]))
  {
    if t == [] then [] else [Joined(Some(t[0]), Some(t[0]))] + Diagonal(t[1..])
  }

  /** When each record of `t` is the only one of its name in `s`, the left
      lines of `t` against `s` pair each record with itself only. */
  lemma {:induction false} LeftRowsDiagonal(t: Snapshot, s: Snapshot)
    requires forall k :: 0 <= k < |t| ==> Matching(t[k].name, s) == [t[k]]
    ensures LeftRows(t, s) == Diagonal(t)
  {
    if t != [] {
      var m := Matching(t[0].name, s);
      assert m == [t[0]];
      var head := PairWith(t[0], m);
      assert head == [Joined(Some(t[0]), Some(t[0]))];
      assert LeftRows(t, s) == head + LeftRows(t[1..], s);
      assert forall k :: 0 <= k < |t[1..]| ==> t[1..][k] == t[k + 1];
      LeftRowsDiagonal(t[1..], s);
      assert Diagonal(t) == head + Diagonal(t[1..]);
    }
  }

  /** Comparing a snapshot whose names are unique with itself gives one row
      per record, in order, every one of them common, with both sides equal. */
  lemma {:induction false} SelfCompareAllCommon(labels: Labels, rule: DeleteRule, s: Snapshot)
    requires UniqueNames(s)
    ensures |Compare(labels, rule, s, s)| == |s|
    ensures forall i :: 0 <= i < |s| ==>
              var row := Compare(labels, rule, s, s)[i];
              && row.name == s[i].name
              && row.status == labels.common
              && row.actionLeft == row.actionRight
              && row.extLeft == row.extRight == Some(s[i].extId)
  {
    SelfJoinDiagonal(s);
    var rows := Compare(labels, rule, s, s);
    forall i | 0 <= i < |s|
      ensures && rows[i].name == s[i].name
              && rows[i].status == labels.common
              && rows[i].actionLeft == rows[i].actionRight
              && rows[i].extLeft == rows[i].extRight == Some(s[i].extId)
    {
      assert rows[i] == BuildRow(labels, rule, Joined(Some(s[i]), Some(s[i])));
      DiagonalRow(labels, rule, s[i]);
    }
  }

  /** With unique names a snapshot merges with itself record by record. */
  lemma SelfJoinDiagonal(s: Snapshot)
    requires UniqueNames(s)
    ensures Join(s, s) == Diagonal(s)
  {
    forall k | 0 <= k < |s| ensures Matching(s[k].name, s) == [s[k]] {
      MatchingSingle(s, k);
    }
    LeftRowsDiagonal(s, s);
    forall x | x in s ensures x.name in Names(s) {
    }
    RightOnlyEmpty(s, s);
  }

  /** A record merged with itself is a common row showing it on both sides. */
  lemma DiagonalRow(labels: Labels, rule: DeleteRule, x: Record)
    ensures var row := BuildRow(labels, rule, Joined(Some(x), Some(x)));
            && row.name == x.name
            && row.status == labels.common
            && row.actionLeft == row.actionRight
            && row.extLeft == row.extRight == Some(x.extId)
  {
  }

  /** Without unique names the self-comparison is a cartesian product: two
      records of one name with different actions give four rows, and the row
      pairing the first with the second is different. */
  lemma SelfCompareWithDuplicateNames(labels: Labels, rule: DeleteRule, x: Record, y: Record)
    requires x.name == y.name && x.action != y.action
    requires RealActions([x, y])
    ensures var rows := Compare(labels, rule, [x, y], [x, y]);
            && |rows| == 4
            && Classify(rows[1].actionLeft, rows[1].actionRight) == Different
  {
    var s := [x, y];
    DuplicateNamesJoin(x, y);
    var js := Join(s, s);
    var p0 := PairWith(x, s);
    assert |p0| == 2 && p0[1] == Joined(Some(x), Some(y));
    assert |js| == 4 && js[1] == p0[1];
    assert x in s && y in s;
    var row := BuildRow(labels, rule, js[1]);
    assert row.actionLeft == x.action && row.actionRight == y.action;
    assert Compare(labels, rule, s, s)[1] == row;
  }

  /** The merge of a two-record snapshot of one name with itself: every pair, left-major. */
  lemma DuplicateNamesJoin(x: Record, y: Record)
    requires x.name == y.name
    ensures Join([x, y], [x, y]) == PairWith(x, [x, y]) + PairWith(y, [x, y])
  {
    var s := [x, y];
    assert Matching(x.name, s[1..]) == [y] by {
      assert s[1..][0] == y && s[1..][1..] == [];
    }
    assert Matching(x.name, s) == s;
    assert LeftRows(s[1..], s) == PairWith(y, s) + LeftRows([], s) by {
      assert s[1..][0] == y && s[1..][1..] == [];
    }
    assert LeftRows(s, s) == PairWith(x, s) + LeftRows(s[1..], s);
    RightOnlyEmpty(s, s);
  }
}
