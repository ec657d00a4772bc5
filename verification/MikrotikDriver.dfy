/**
 * The four VLAN operations of the MikroTik driver against the plain map VID -> (tagged, untagged):
 * exactly when one call does what it says, and what that gives over whole runs.
 */
module MikrotikDriver {
  import opened Common
  import opened BridgeTable
  import opened MikrotikDelete
  import opened MikrotikDeletePort

  datatype Op =
    | AddVlan(vids: seq<int>)
    | DelVlan(vids: seq<int>)
    | AddToPort(vid: int, port: string, pvid: bool)
    | DelFromPort(vids: seq<int>, port: string)

  // ---------------------------------------------------------------- additions, as the driver does them

  function NewVlan(vid: int): Fields {
    Fields(Some([vid]), Some([BRIDGE]), None, false)
  }

  function AddVlanRun(t: Table, vids: seq<int>): Table {
    if vids == [] then t else Put(AddVlanRun(t, Front(vids)), NewVlan(Last(vids))).table
  }

  /** The member list with the port appended, under the column the caller asked for. */
  function Enlarged(row: Row, port: string, pvid: bool, unknownColumn: bool): Fields {
    if pvid then Fields(None, None, Some(row.untagged + [port]), unknownColumn)
    else Fields(None, Some(row.tagged + [port]), None, unknownColumn)
  }

  predicate Conflict(row: Row, port: string, pvid: bool) {
    if pvid then port in row.tagged else port in row.untagged
  }

  /**
   * `_add_vlan_to_port`. On a shared row both requests name a column `vlan_ids`, which the table does
   * not have: the VID is neither taken out of the shared row nor put into the new one.
   */
  function AddVlanToPort(t: Table, vid: int, port: string, pvid: bool): Reply {
    match Find(t.rows, vid)
    case None => Reply(t, true)
    case Some(row) =>
      var shared := |row.vids| > 1;
      var o := if shared then Patch(t, row.id, Fields(None, None, None, true)) else Reply(t, false);
      if o.raised then o
      else if Conflict(row, port, pvid) then Reply(o.table, true)
      else if shared then Put(o.table, Enlarged(row, port, pvid, true))
      else Patch(o.table, row.id, Enlarged(row, port, pvid, false))
  }

  function Step(t: Table, op: Op): Reply {
    match op
    case AddVlan(vids) => Reply(AddVlanRun(t, vids), false)
    case DelVlan(vids) => DelVlanRun(t, vids)
    case AddToPort(vid, port, pvid) => AddVlanToPort(t, vid, port, pvid)
    case DelFromPort(vids, port) => DelPortRun(t, vids, port)
  }

  // ---------------------------------------------------------------- what the operations are for

  datatype Goal = Goal(view: map<int, Members>, raised: bool)

  ghost function WithPort(m: Members, port: string, pvid: bool): Members {
    if pvid then Members(m.tagged, m.untagged + {port}) else Members(m.tagged + {port}, m.untagged)
  }

  /** The listed VIDs before the first one that is not declared. */
  ghost function DeclaredPrefix(declared: set<int>, vids: seq<int>): (r: seq<int>)
    ensures r <= vids && forall v :: v in r ==> v in declared
  {
    if vids == [] then []
    else
      var r := DeclaredPrefix(declared, Front(vids));
      if r == Front(vids) && Last(vids) in declared then vids else r
  }

  ghost function IdealStep(view: map<int, Members>, op: Op): Goal {
    match op
    case AddVlan(vids) =>
      Goal(view + (map v | v in vids && v !in view :: Members({BRIDGE}, {})), false)
    case DelVlan(vids) =>
      Goal(view - Elements(vids), false)
    case AddToPort(v, port, pvid) =>
      if v !in view || (if pvid then port in view[v].tagged else port in view[v].untagged) then Goal(view, true)
      else Goal(view[v := WithPort(view[v], port, pvid)], false)
    case DelFromPort(vids, port) =>
      var done := DeclaredPrefix(view.Keys, vids);
      Goal(IdealDelPort(view, done, port), done != vids)
  }

  ghost predicate Meets(o: Reply, goal: Goal) {
    WellFormed(o.table) && View(o.table.rows) == goal.view && o.raised == goal.raised
  }

  // ---------------------------------------------------------------- when one call meets its goal

  ghost predicate Undeclared(rows: seq<Row>, vids: seq<int>) {
    NoDup(vids) && forall v :: v in vids ==> Find(rows, v).None?
  }

  predicate Member(row: Row, port: string, pvid: bool) {
    if pvid then port in row.untagged else port in row.tagged
  }

  /** A condition on the table and the arguments that a caller can check before the call. */
  ghost predicate Guard(t: Table, op: Op) {
    match op
    case AddVlan(vids) => Undeclared(t.rows, vids)
    case DelVlan(vids) => DelSafe(t.rows, vids)
    case AddToPort(v, port, pvid) =>
      (Shared(t.rows, v) && !Conflict(Find(t.rows, v).value, port, pvid))
      ==> !t.strict && Member(Find(t.rows, v).value, port, pvid)
    case DelFromPort(vids, port) => PortSafe(t.rows, DeclaredPrefix(Vids(t.rows), vids))
  }

  /** A row put for an undeclared VID, or for none at all, disturbs no other row. */
  lemma PutKeeps(t: Table, row: Row)
    requires WellFormed(t) && row.id == t.nextId && NoDup(row.vids)
    requires forall v :: v in row.vids ==> Find(t.rows, v).None?
    ensures WellFormed(t.(rows := t.rows + [row], nextId := t.nextId + 1))
    ensures forall v :: Find(t.rows + [row], v) == if v in row.vids then Some(row) else Find(t.rows, v)
  {
    var rows := t.rows + [row];
    assert forall r :: r in rows <==> r in t.rows || r == row;
    forall r, s | r in rows && s in rows && Share(r, s)
      ensures r == s
    {
      var v :| v in r.vids && v in s.vids;
      assert r in t.rows ==> Find(t.rows, v).Some?;
      assert s in t.rows ==> Find(t.rows, v).Some?;
    }
    forall v
      ensures Find(rows, v) == if v in row.vids then Some(row) else Find(t.rows, v)
    {
      if v in row.vids {
        FindUnique(rows, row, v);
      } else if Find(rows, v).Some? {
        FindUnique(t.rows, Find(rows, v).value, v);
      }
    }
  }

  lemma PutClashes(t: Table, row: Row, vid: int)
    requires WellFormed(t) && row.id == t.nextId && vid in row.vids && Find(t.rows, vid).Some?
    ensures !Partition(t.rows + [row])
  {
    assert Share(row, Find(t.rows, vid).value);
    assert row in t.rows + [row];
  }

  lemma ClashPersists(rows: seq<Row>, row: Row)
    requires !Partition(rows)
    ensures !Partition(rows + [row])
  {
    var r, s :| r in rows && s in rows && Share(r, s) && r != s;
    assert r in rows + [row] && s in rows + [row];
  }

  ghost function ViewWithVlans(view: map<int, Members>, vids: seq<int>): map<int, Members> {
    view + (map v | v in vids && v !in view :: Members({BRIDGE}, {}))
  }

  lemma UndeclaredSnoc(rows: seq<Row>, vids: seq<int>)
    requires vids != []
    ensures Undeclared(rows, vids) <==>
      Undeclared(rows, Front(vids)) && Last(vids) !in Front(vids) && Find(rows, Last(vids)).None?
  {
    assert vids == Front(vids) + [Last(vids)];
    if Last(vids) in Front(vids) {
      var i :| 0 <= i < |Front(vids)| && Front(vids)[i] == Last(vids);
      assert vids[i] == vids[|vids| - 1];
    }
    if Undeclared(rows, Front(vids)) && Last(vids) !in Front(vids) {
      assert forall i :: 0 <= i < |Front(vids)| ==> vids[i] == Front(vids)[i] && vids[i] in Front(vids);
    }
  }

  lemma ViewExtended(rows: seq<Row>, row: Row, v: int)
    requires row.vids == [v]
    requires forall w :: Find(rows + [row], w) == if w in row.vids then Some(row) else Find(rows, w)
    ensures View(rows + [row]) == View(rows)[v := MembersOf(row)]
  {
  }

  lemma AddOneVlan(t: Table, v: int)
    requires WellFormed(t)
    ensures var after := Put(t, NewVlan(v)).table;
            if v in View(t.rows) then !Partition(after.rows)
            else WellFormed(after) && View(after.rows) == View(t.rows)[v := Members({BRIDGE}, {})]
  {
    var row := Row(t.nextId, [v], [BRIDGE], []);
    if v in View(t.rows) {
      PutClashes(t, row, v);
    } else {
      PutKeeps(t, row);
      ViewExtended(t.rows, row, v);
      assert MembersOf(row) == Members({BRIDGE}, {});
    }
  }

  lemma {:induction false} AddVlanRunMeaning(t: Table, vids: seq<int>)
    requires WellFormed(t)
    ensures var after := AddVlanRun(t, vids);
            if Undeclared(t.rows, vids)
            then WellFormed(after) && View(after.rows) == ViewWithVlans(View(t.rows), vids)
            else !Partition(after.rows)
  {
    if vids == [] {
      assert ViewWithVlans(View(t.rows), vids) == View(t.rows);
    } else {
      var prefix, v := Front(vids), Last(vids);
      assert vids == prefix + [v];
      AddVlanRunMeaning(t, prefix);
      UndeclaredSnoc(t.rows, vids);
      var now := AddVlanRun(t, prefix);
      if !Undeclared(t.rows, prefix) {
        ClashPersists(now.rows, Row(now.nextId, [v], [BRIDGE], []));
      } else {
        AddOneVlan(now, v);
        ViewWithOneMore(View(t.rows), prefix, v);
      }
    }
  }

  lemma ViewWithOneMore(view: map<int, Members>, prefix: seq<int>, v: int)
    ensures v in ViewWithVlans(view, prefix) <==> v in view || v in prefix
    ensures v !in view && v !in prefix ==>
      ViewWithVlans(view, prefix + [v]) == ViewWithVlans(view, prefix)[v := Members({BRIDGE}, {})]
  {
  }

  lemma AddVlanExact(t: Table, vids: seq<int>)
    requires WellFormed(t)
    ensures Meets(Step(t, AddVlan(vids)), IdealStep(View(t.rows), AddVlan(vids))) <==> Guard(t, AddVlan(vids))
  {
    AddVlanRunMeaning(t, vids);
  }

  lemma DelVlanMeets(t: Table, vids: seq<int>)
    requires WellFormed(t)
    ensures Meets(Step(t, DelVlan(vids)), IdealStep(View(t.rows), DelVlan(vids))) <==> Guard(t, DelVlan(vids))
  {
    DelVlanMeaning(t, vids);
    DelVlanExact(t, vids);
  }

  /** With an undeclared VID in the list, the run is that on the declared VIDs before it, and then raises. */
  lemma {:induction false} DelPortStops(t: Table, vids: seq<int>, port: string)
    requires WellFormed(t)
    ensures var done := DeclaredPrefix(Vids(t.rows), vids);
            Declared(t.rows, done) && DelPortRun(t, vids, port) == Reply(DelPortTable(t, done, port), done != vids)
  {
    var done := DeclaredPrefix(Vids(t.rows), vids);
    if vids == [] {
      DelPortClosedForm(t, [], port);
    } else {
      DelPortStops(t, Front(vids), port);
      if done == vids {
        DelPortClosedForm(t, vids, port);
      }
    }
  }

  /** Call, goal and guard on the VIDs before the first undeclared one. */
  lemma DelFromPortStops(t: Table, vids: seq<int>, port: string)
    requires WellFormed(t)
    ensures var done := DeclaredPrefix(Vids(t.rows), vids);
            && Step(t, DelFromPort(vids, port)) == Reply(DelPortTable(t, done, port), done != vids)
            && IdealStep(View(t.rows), DelFromPort(vids, port))
               == Goal(IdealDelPort(View(t.rows), done, port), done != vids)
  {
    assert View(t.rows).Keys == Vids(t.rows);
    DelPortStops(t, vids, port);
  }

  lemma MeetsWhenWellFormed(o: Reply, goal: Goal)
    requires o.raised == goal.raised
    requires WellFormed(o.table) ==> View(o.table.rows) == goal.view
    ensures Meets(o, goal) <==> WellFormed(o.table)
  {
  }

  lemma DelFromPortExact(t: Table, vids: seq<int>, port: string)
    requires WellFormed(t)
    ensures Meets(Step(t, DelFromPort(vids, port)), IdealStep(View(t.rows), DelFromPort(vids, port)))
            <==> Guard(t, DelFromPort(vids, port))
  {
    var done := DeclaredPrefix(Vids(t.rows), vids);
    var o, goal := Step(t, DelFromPort(vids, port)), IdealStep(View(t.rows), DelFromPort(vids, port));
    DelFromPortStops(t, vids, port);
    DelPortTableExact(t, done, port);
    MeetsWhenWellFormed(o, goal);
    assert Guard(t, DelFromPort(vids, port)) == PortSafe(t.rows, done);
  }

  // ---------------------------------------------------------------- adding a port to one VLAN

  lemma PatchedPair(t: Table, id: nat, f: Fields, r: Row, s: Row)
    requires WellFormed(t) && f.vids.None?
    requires r in PatchRows(t.rows, id, f) && s in PatchRows(t.rows, id, f) && (r.id == s.id || Share(r, s))
    ensures r == s
  {
    var rows := PatchRows(t.rows, id, f);
    var i :| 0 <= i < |rows| && rows[i] == r;
    var j :| 0 <= j < |rows| && rows[j] == s;
    assert t.rows[i] in t.rows && t.rows[j] in t.rows;
    if Share(r, s) {
      assert Share(t.rows[i], t.rows[j]);
    }
  }

  function AfterPatch(row: Row, id: nat, f: Fields): Row {
    if row.id == id then Overwrite(row, f) else row
  }

  /** A patch that leaves the VIDs alone moves no VID to another row. */
  lemma {:induction false} PatchedFind(rows: seq<Row>, id: nat, f: Fields, v: int, i: nat)
    requires f.vids.None? && i <= |rows|
    ensures var was, now := FindFrom(rows, v, i), FindFrom(PatchRows(rows, id, f), v, i);
            if was.None? then now.None? else now == Some(AfterPatch(was.value, id, f))
    decreases |rows| - i
  {
    if i < |rows| {
      PatchedFind(rows, id, f, v, i + 1);
    }
  }

  lemma PatchOwnRow(t: Table, row: Row, f: Fields, v: int)
    requires WellFormed(t) && row in t.rows && row.vids == [v] && f.vids.None?
    ensures HasId(t.rows, row.id)
    ensures WellFormed(t.(rows := PatchRows(t.rows, row.id, f)))
    ensures View(PatchRows(t.rows, row.id, f)) == View(t.rows)[v := MembersOf(Overwrite(row, f))]
  {
    var rows := PatchRows(t.rows, row.id, f);
    forall r, s | r in rows && s in rows && (r.id == s.id || Share(r, s))
      ensures r == s
    {
      PatchedPair(t, row.id, f, r, s);
    }
    forall r | r in rows
      ensures r.id < t.nextId && NoDup(r.vids)
    {
      var i :| 0 <= i < |rows| && rows[i] == r;
      assert t.rows[i] in t.rows;
    }
    FindUnique(t.rows, row, v);
    OwnRowView(t, row, f, v);
  }

  lemma OwnRowView(t: Table, row: Row, f: Fields, v: int)
    requires UniqueIds(t.rows) && Find(t.rows, v) == Some(row) && row.vids == [v] && f.vids.None?
    ensures View(PatchRows(t.rows, row.id, f)) == View(t.rows)[v := MembersOf(Overwrite(row, f))]
  {
    var rows, goal := PatchRows(t.rows, row.id, f), View(t.rows)[v := MembersOf(Overwrite(row, f))];
    forall w
      ensures Find(rows, w).Some? <==> w in goal
      ensures w in goal ==> Carries(rows, w, goal[w])
    {
      PatchedFind(t.rows, row.id, f, w, 0);
    }
    ViewIs(rows, goal);
  }

  lemma EnlargedMembers(row: Row, port: string, pvid: bool)
    ensures MembersOf(Overwrite(row, Enlarged(row, port, pvid, false))) == WithPort(MembersOf(row), port, pvid)
  {
    assert Elements(row.tagged + [port]) == Elements(row.tagged) + {port};
    assert Elements(row.untagged + [port]) == Elements(row.untagged) + {port};
  }

  lemma AddToOwnRow(t: Table, v: int, port: string, pvid: bool)
    requires WellFormed(t) && Find(t.rows, v).Some? && !Shared(t.rows, v)
    ensures Meets(Step(t, AddToPort(v, port, pvid)), IdealStep(View(t.rows), AddToPort(v, port, pvid)))
  {
    var row := Find(t.rows, v).value;
    if !Conflict(row, port, pvid) {
      assert row.vids == [v];
      PatchOwnRow(t, row, Enlarged(row, port, pvid, false), v);
      EnlargedMembers(row, port, pvid);
    }
  }

  lemma PatchNothing(rows: seq<Row>, id: nat)
    ensures PatchRows(rows, id, Fields(None, None, None, true)) == rows
  {
  }

  /** On a shared row the two requests with the wrong column raise, or together change no VLAN. */
  lemma SharedRowUntouched(t: Table, v: int, port: string, pvid: bool)
    requires WellFormed(t) && Shared(t.rows, v)
    ensures var o := AddVlanToPort(t, v, port, pvid);
            && WellFormed(o.table) && View(o.table.rows) == View(t.rows)
            && (o.raised <==> t.strict || Conflict(Find(t.rows, v).value, port, pvid))
  {
    var row := Find(t.rows, v).value;
    PatchNothing(t.rows, row.id);
    if !t.strict {
      PutEmpty(t, Enlarged(row, port, pvid, true));
    }
  }

  ghost function Rows(t: Table, vids: seq<int>): (r: seq<Row>)
    ensures |r| == |vids|
    ensures forall i :: 0 <= i < |vids| ==> r[i] == Row(t.nextId + i, [vids[i]], [BRIDGE], [])
  {
    seq(|vids|, i requires 0 <= i < |vids| => Row(t.nextId + i, [vids[i]], [BRIDGE], []))
  }

  /** The rows that adding VLANs leaves: one more for each listed VID, in order, with the next ids. */
  lemma {:induction false} AddVlanRows(t: Table, vids: seq<int>)
    ensures AddVlanRun(t, vids) == Table(t.rows + Rows(t, vids), t.nextId + |vids|, t.strict)
  {
    if vids == [] {
      assert t.rows + Rows(t, vids) == t.rows;
    } else {
      AddVlanRows(t, Front(vids));
      assert Rows(t, vids) == Rows(t, Front(vids)) + [Row(t.nextId + |vids| - 1, [Last(vids)], [BRIDGE], [])];
    }
  }

  /** The row with the port appended to the list asked for. */
  ghost function Longer(row: Row, port: string, pvid: bool): Row {
    if pvid then Row(row.id, row.vids, row.tagged, row.untagged + [port])
    else Row(row.id, row.vids, row.tagged + [port], row.untagged)
  }

  /** What a device that ignores the unknown column makes of a shared row: a row with no VID and one list. */
  ghost function Stray(t: Table, row: Row, port: string, pvid: bool): Row {
    if pvid then Row(t.nextId, [], [], row.untagged + [port]) else Row(t.nextId, [], row.tagged + [port], [])
  }

  /**
   * The rows that adding a port leaves. Of the rows that serve the VID, the first decides. If it serves no
   * other VID, it gets the port at the end of the list asked for; a shared one stays, and a row without
   * a VID comes at the end of the table. When the call raises, the table is as it was.
   */
  lemma AddToPortRows(t: Table, v: int, port: string, pvid: bool, k: nat)
    requires UniqueIds(t.rows) && FirstAt(t.rows, v, 0, k)
    ensures var o, row := AddVlanToPort(t, v, port, pvid), t.rows[k];
            && (o.raised <==>
                  (port in if pvid then row.tagged else row.untagged) || (|row.vids| > 1 && t.strict))
            && (o.raised ==> o.table == t)
            && (!o.raised && |row.vids| > 1 ==>
                  o.table == Table(t.rows + [Stray(t, row, port, pvid)], t.nextId + 1, t.strict))
            && (!o.raised && |row.vids| == 1 ==>
                  && o.table == t.(rows := o.table.rows) && |o.table.rows| == |t.rows|
                  && forall i :: 0 <= i < |t.rows| ==>
                       o.table.rows[i] == if t.rows[i].id == row.id then Longer(t.rows[i], port, pvid) else t.rows[i])
  {
    var row := t.rows[k];
    FindExact(t.rows, v, row);
    PatchNothing(t.rows, row.id);
    assert row in t.rows;
    forall i | 0 <= i < |t.rows| && t.rows[i].id == row.id
      ensures t.rows[i] == row
    {
      assert t.rows[i] in t.rows;
    }
  }

  lemma AddToSharedRow(t: Table, v: int, port: string, pvid: bool)
    requires WellFormed(t) && Shared(t.rows, v)
    ensures Meets(Step(t, AddToPort(v, port, pvid)), IdealStep(View(t.rows), AddToPort(v, port, pvid)))
            <==> Guard(t, AddToPort(v, port, pvid))
  {
    var row := Find(t.rows, v).value;
    var o, goal := AddVlanToPort(t, v, port, pvid), IdealStep(View(t.rows), AddToPort(v, port, pvid));
    SharedRowUntouched(t, v, port, pvid);
    GoalOnRow(View(t.rows), v, row, port, pvid);
    WithPortSame(View(t.rows), v, row, port, pvid);
    if !Conflict(row, port, pvid) {
      assert o.raised <==> t.strict;
      assert View(o.table.rows) == goal.view <==> Member(row, port, pvid);
    }
  }

  lemma GoalOnRow(view: map<int, Members>, v: int, row: Row, port: string, pvid: bool)
    requires v in view && view[v] == MembersOf(row)
    ensures IdealStep(view, AddToPort(v, port, pvid))
         == if Conflict(row, port, pvid) then Goal(view, true)
            else Goal(view[v := WithPort(view[v], port, pvid)], false)
  {
  }

  /** Without a VID of its own a new row carries nothing. */
  lemma PutEmpty(t: Table, f: Fields)
    requires WellFormed(t) && f.vids.None? && !t.strict
    ensures var o := Put(t, f);
            !o.raised && WellFormed(o.table) && View(o.table.rows) == View(t.rows)
  {
    PutKeeps(t, Row(t.nextId, [], Value(f.tagged, []), Value(f.untagged, [])));
  }

  lemma WithPortSame(view: map<int, Members>, v: int, row: Row, port: string, pvid: bool)
    requires v in view && view[v] == MembersOf(row)
    ensures view == view[v := WithPort(view[v], port, pvid)] <==> Member(row, port, pvid)
  {
    var m := view[v];
    assert view[v := m] == view;
    assert view[v := WithPort(m, port, pvid)][v] == WithPort(m, port, pvid);
    assert m.tagged + {port} == m.tagged <==> port in row.tagged;
    assert m.untagged + {port} == m.untagged <==> port in row.untagged;
  }

  lemma AddToPortExact(t: Table, v: int, port: string, pvid: bool)
    requires WellFormed(t)
    ensures Meets(Step(t, AddToPort(v, port, pvid)), IdealStep(View(t.rows), AddToPort(v, port, pvid)))
            <==> Guard(t, AddToPort(v, port, pvid))
  {
    if Shared(t.rows, v) {
      AddToSharedRow(t, v, port, pvid);
    } else if Find(t.rows, v).Some? {
      AddToOwnRow(t, v, port, pvid);
    }
  }

  /**
   * For every table and every operation as the driver performs it: the call keeps each VID in one row,
   * changes the meaning as it should and raises when it should, exactly when the guard holds before it.
   */
  lemma StepExact(t: Table, op: Op)
    requires WellFormed(t)
    ensures Meets(Step(t, op), IdealStep(View(t.rows), op)) <==> Guard(t, op)
  {
    match op
    case AddVlan(vids) => AddVlanExact(t, vids);
    case DelVlan(vids) => DelVlanMeets(t, vids);
    case AddToPort(v, port, pvid) => AddToPortExact(t, v, port, pvid);
    case DelFromPort(vids, port) => DelFromPortExact(t, vids, port);
  }
}
