/** The bridge VLAN table of a RouterOS device and its REST operations. */
module BridgeTable {
  import opened Common

  /** The bridge that the driver manages, itself a member of every VLAN it creates. */
  const BRIDGE := "tnt"

  datatype Row = Row(id: nat, vids: seq<int>, tagged: seq<string>, untagged: seq<string>)

  /** `strict` says whether the device refuses a request that names a column it does not have. */
  datatype Table = Table(rows: seq<Row>, nextId: nat, strict: bool)

  /** The columns named in the body of a put or a patch. */
  datatype Fields = Fields(
    vids: Option<seq<int>>,
    tagged: Option<seq<string>>,
    untagged: Option<seq<string>>,
    unknownColumn: bool)

  /** What a REST call, or a driver operation made of several, leaves behind. */
  datatype Reply = Reply(table: Table, raised: bool)

  datatype Members = Members(tagged: set<string>, untagged: set<string>)

  // ---------------------------------------------------------------- device operations

  function Value<T>(field: Option<T>, otherwise: T): T {
    if field.Some? then field.value else otherwise
  }

  function Overwrite(row: Row, f: Fields): Row {
    Row(row.id, Value(f.vids, row.vids), Value(f.tagged, row.tagged), Value(f.untagged, row.untagged))
  }

  predicate HasId(rows: seq<Row>, id: nat) {
    exists row :: row in rows && row.id == id
  }

  function PatchRows(rows: seq<Row>, id: nat, f: Fields): (r: seq<Row>)
    ensures |r| == |rows|
    ensures forall i :: 0 <= i < |rows| ==> r[i].id == rows[i].id
  {
    seq(|rows|, i requires 0 <= i < |rows| =>
      if rows[i].id == id then Overwrite(rows[i], f) else rows[i])
  }

  /** Membership in a patched table: rows with the id rewritten, all others as they were. */
  lemma PatchedMembers(rows: seq<Row>, id: nat, f: Fields)
    ensures forall row :: row in rows ==>
      (if row.id == id then Overwrite(row, f) else row) in PatchRows(rows, id, f)
    ensures forall row' :: row' in PatchRows(rows, id, f) ==>
      if row'.id == id then exists row :: row in rows && row.id == id && Overwrite(row, f) == row' else row' in rows
  {
    var after := PatchRows(rows, id, f);
    forall row | row in rows
      ensures (if row.id == id then Overwrite(row, f) else row) in after
    {
      var i :| 0 <= i < |rows| && rows[i] == row;
      assert after[i] in after;
    }
  }

  function DeleteRows(rows: seq<Row>, id: nat): (r: seq<Row>)
    ensures forall row :: row in r <==> row in rows && row.id != id
  {
    if rows == [] then []
    else
      assert rows == [rows[0]] + rows[1..];
      if rows[0].id == id then DeleteRows(rows[1..], id) else [rows[0]] + DeleteRows(rows[1..], id)
  }

  /** The rows that are left stay in order. */
  lemma {:induction false} DeleteRowsInOrder(rows: seq<Row>, id: nat, k: nat)
    requires k <= |rows|
    ensures DeleteRows(rows[..k], id) <= DeleteRows(rows, id)
  {
    if k > 0 {
      assert rows[..k][1..] == rows[1..][..k - 1] && rows[..k][0] == rows[0];
      DeleteRowsInOrder(rows[1..], id, k - 1);
    }
  }

  function Put(t: Table, f: Fields): Reply {
    if t.strict && f.unknownColumn then Reply(t, true)
    else
      var row := Row(t.nextId, Value(f.vids, []), Value(f.tagged, []), Value(f.untagged, []));
      Reply(t.(rows := t.rows + [row], nextId := t.nextId + 1), false)
  }

  function Patch(t: Table, id: nat, f: Fields): Reply {
    if (t.strict && f.unknownColumn) || !HasId(t.rows, id) then Reply(t, true)
    else Reply(t.(rows := PatchRows(t.rows, id, f)), false)
  }

  function Delete(t: Table, id: nat): Reply {
    if !HasId(t.rows, id) then Reply(t, true)
    else Reply(t.(rows := DeleteRows(t.rows, id)), false)
  }

  // ---------------------------------------------------------------- what a table means

  /** Among the rows from position `i` on, the one at `k` is the first that serves `vid`. */
  ghost predicate FirstAt(rows: seq<Row>, vid: int, i: nat, k: nat) {
    && i <= k < |rows| && vid in rows[k].vids
    && forall j :: i <= j < k ==> vid !in rows[j].vids
  }

  /** The first row, from position `i` on, that serves `vid`. */
  function FindFrom(rows: seq<Row>, vid: int, i: nat): (r: Option<Row>)
    requires i <= |rows|
    ensures r.Some? ==> r.value in rows && vid in r.value.vids
    ensures r.None? ==> forall k :: i <= k < |rows| ==> vid !in rows[k].vids
    decreases |rows| - i
  {
    if i == |rows| then None
    else if vid in rows[i].vids then Some(rows[i])
    else FindFrom(rows, vid, i + 1)
  }

  /** The first row that serves `vid`. */
  function Find(rows: seq<Row>, vid: int): (r: Option<Row>)
    ensures r.Some? ==> r.value in rows && vid in r.value.vids
    ensures r.None? ==> forall row :: row in rows ==> vid !in row.vids
  {
    FindFrom(rows, vid, 0)
  }

  lemma {:induction false} FindFromExact(rows: seq<Row>, vid: int, i: nat, row: Row)
    requires i <= |rows|
    ensures FindFrom(rows, vid, i) == Some(row) <==> exists k: nat :: FirstAt(rows, vid, i, k) && rows[k] == row
    decreases |rows| - i
  {
    if i < |rows| {
      if vid in rows[i].vids {
        assert FirstAt(rows, vid, i, i);
        assert forall k: nat :: FirstAt(rows, vid, i, k) ==> k == i;
      } else {
        FindFromExact(rows, vid, i + 1, row);
        assert forall k: nat :: FirstAt(rows, vid, i, k) <==> FirstAt(rows, vid, i + 1, k);
      }
    }
  }

  /** The row found is the one that serves the VID while no row before it does. */
  lemma FindExact(rows: seq<Row>, vid: int, row: Row)
    ensures Find(rows, vid) == Some(row) <==> exists k: nat :: FirstAt(rows, vid, 0, k) && rows[k] == row
  {
    FindFromExact(rows, vid, 0, row);
  }

  function ByIdFrom(rows: seq<Row>, id: nat, i: nat): (r: Option<Row>)
    requires i <= |rows|
    ensures r.Some? ==> r.value in rows && r.value.id == id
    ensures r.None? ==> forall k :: i <= k < |rows| ==> rows[k].id != id
    decreases |rows| - i
  {
    if i == |rows| then None
    else if rows[i].id == id then Some(rows[i])
    else ByIdFrom(rows, id, i + 1)
  }

  function ById(rows: seq<Row>, id: nat): (r: Option<Row>)
    ensures r.Some? ==> r.value in rows && r.value.id == id
    ensures r.None? ==> forall row :: row in rows ==> row.id != id
  {
    ByIdFrom(rows, id, 0)
  }

  /** Row ids name one row each, ids still to be given out are unused, and every VID is served by one row. */
  ghost predicate WellFormed(t: Table) {
    && (forall r :: r in t.rows ==> r.id < t.nextId && NoDup(r.vids))
    && UniqueIds(t.rows)
    && Partition(t.rows)
  }

  ghost predicate UniqueIds(rows: seq<Row>) {
    forall r, s :: r in rows && s in rows && r.id == s.id ==> r == s
  }

  ghost predicate Share(r: Row, s: Row) {
    exists v :: v in r.vids && v in s.vids
  }

  ghost predicate Partition(rows: seq<Row>) {
    forall r, s :: r in rows && s in rows && Share(r, s) ==> r == s
  }

  ghost function Vids(rows: seq<Row>): (vs: set<int>)
    ensures forall v :: v in vs <==> Find(rows, v).Some?
  {
    set r, v | r in rows && v in r.vids :: v
  }

  ghost function MembersOf(row: Row): Members {
    Members(Elements(row.tagged), Elements(row.untagged))
  }

  /** The plain meaning of the table: which ports carry each VID, tagged and untagged. */
  ghost function View(rows: seq<Row>): map<int, Members> {
    map v | v in Vids(rows) :: MembersOf(Find(rows, v).value)
  }

  ghost predicate Carries(rows: seq<Row>, v: int, m: Members) {
    Find(rows, v).Some? && MembersOf(Find(rows, v).value) == m
  }

  lemma ViewIs(rows: seq<Row>, view: map<int, Members>)
    requires forall v :: v in view ==> Carries(rows, v, view[v])
    requires forall v :: Find(rows, v).Some? ==> v in view
    ensures View(rows) == view
  {
  }

  lemma FindUnique(rows: seq<Row>, row: Row, vid: int)
    requires Partition(rows) && row in rows && vid in row.vids
    ensures Find(rows, vid) == Some(row)
  {
    assert Share(row, Find(rows, vid).value);
  }

  // ---------------------------------------------------------------- the device as an object

  /** The REST endpoint `/interface/bridge/vlan` of one device. */
  class RosRest {
    var table: Table

    constructor (t: Table)
      ensures table == t
    {
      table := t;
    }

    method Get() returns (rows: seq<Row>)
      ensures rows == table.rows
    {
      rows := table.rows;
    }

    method PutRow(f: Fields) returns (raised: bool)
      modifies this
      ensures Reply(table, raised) == Put(old(table), f)
      ensures raised <==> old(table.strict) && f.unknownColumn
      ensures raised ==> table == old(table)
      ensures !raised ==>
        var row := Row(old(table.nextId), Value(f.vids, []), Value(f.tagged, []), Value(f.untagged, []));
        table == Table(old(table.rows) + [row], old(table.nextId) + 1, old(table.strict))
    {
      raised := table.strict && f.unknownColumn;
      if !raised {
        var row := Row(table.nextId, Value(f.vids, []), Value(f.tagged, []), Value(f.untagged, []));
        table := table.(rows := table.rows + [row], nextId := table.nextId + 1);
      }
    }

    method PatchRow(id: nat, f: Fields) returns (raised: bool)
      modifies this
      ensures Reply(table, raised) == Patch(old(table), id, f)
      ensures raised <==>
        (old(table.strict) && f.unknownColumn) || forall row :: row in old(table.rows) ==> row.id != id
      ensures raised ==> table == old(table)
      ensures !raised ==> Patched(old(table.rows), table.rows, id, f) && table == old(table).(rows := table.rows)
    {
      raised := (table.strict && f.unknownColumn) || !HasId(table.rows, id);
      if !raised {
        table := table.(rows := PatchRows(table.rows, id, f));
      }
    }

    method DeleteRow(id: nat) returns (raised: bool)
      modifies this
      ensures Reply(table, raised) == Delete(old(table), id)
      ensures raised <==> forall row :: row in old(table.rows) ==> row.id != id
      ensures raised ==> table == old(table)
      ensures !raised ==> table == old(table).(rows := table.rows)
      ensures !raised ==> forall row :: row in table.rows <==> row in old(table.rows) && row.id != id
    {
      raised := !HasId(table.rows, id);
      if !raised {
        table := table.(rows := DeleteRows(table.rows, id));
      }
    }
  }

  /** Every row is where it was; of the rows with the id the named columns are as asked for, the others as before. */
  ghost predicate Patched(before: seq<Row>, after: seq<Row>, id: nat, f: Fields) {
    && |after| == |before|
    && forall i :: 0 <= i < |before| ==>
         && after[i].id == before[i].id
         && (before[i].id != id ==> after[i] == before[i])
         && (before[i].id == id ==>
               && (if f.vids.Some? then f.vids == Some(after[i].vids) else after[i].vids == before[i].vids)
               && (if f.tagged.Some? then f.tagged == Some(after[i].tagged) else after[i].tagged == before[i].tagged)
               && (if f.untagged.Some? then f.untagged == Some(after[i].untagged)
                   else after[i].untagged == before[i].untagged))
  }
}
