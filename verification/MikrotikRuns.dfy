/** Whole runs of the MikroTik driver, as written and with its two departures repaired. */
module MikrotikRuns {
  import opened Common
  import opened BridgeTable
  import opened MikrotikDelete
  import opened MikrotikDeletePort
  import opened MikrotikDriver

  // ---------------------------------------------------------------- runs of the driver as written

  /** The table after the calls, and which of them raised. A caller survives an exception and goes on. */
  function Run(t: Table, ops: seq<Op>): (Table, seq<bool>)
    decreases ops
  {
    if ops == [] then (t, [])
    else
      var o := Step(t, ops[0]);
      var rest := Run(o.table, ops[1..]);
      (rest.0, [o.raised] + rest.1)
  }

  ghost function IdealRun(view: map<int, Members>, ops: seq<Op>): (map<int, Members>, seq<bool>)
    decreases ops
  {
    if ops == [] then (view, [])
    else
      var goal := IdealStep(view, ops[0]);
      var rest := IdealRun(goal.view, ops[1..]);
      (rest.0, [goal.raised] + rest.1)
  }

  ghost predicate Refines(t: Table, ops: seq<Op>) {
    var after, ideal := Run(t, ops), IdealRun(View(t.rows), ops);
    WellFormed(after.0) && View(after.0.rows) == ideal.0 && after.1 == ideal.1
  }

  ghost predicate GuardedRun(t: Table, ops: seq<Op>)
    decreases ops
  {
    ops != [] ==> Guard(t, ops[0]) && GuardedRun(Step(t, ops[0]).table, ops[1..])
  }

  lemma {:induction false} GuardedRunRefines(t: Table, ops: seq<Op>)
    requires WellFormed(t) && GuardedRun(t, ops)
    ensures Refines(t, ops)
    decreases ops
  {
    if ops != [] {
      StepExact(t, ops[0]);
      GuardedRunRefines(Step(t, ops[0]).table, ops[1..]);
    }
  }

  /** Every call of the run does to the plain map what it is for, exceptions included. */
  ghost predicate MeetsThroughout(t: Table, ops: seq<Op>)
    decreases ops
  {
    ops != [] ==>
      Meets(Step(t, ops[0]), IdealStep(View(t.rows), ops[0])) && MeetsThroughout(Step(t, ops[0]).table, ops[1..])
  }

  lemma {:induction false} RunMeetsExact(t: Table, ops: seq<Op>)
    requires WellFormed(t)
    ensures MeetsThroughout(t, ops) <==> GuardedRun(t, ops)
    decreases ops
  {
    if ops != [] {
      StepExact(t, ops[0]);
      if Guard(t, ops[0]) {
        RunMeetsExact(Step(t, ops[0]).table, ops[1..]);
      }
    }
  }

  // ---------------------------------------------------------------- one row per VID

  ghost predicate Unshared(rows: seq<Row>) {
    forall row :: row in rows ==> |row.vids| <= 1
  }

  /** What a caller owes: only undeclared, distinct VIDs are added and no VID is listed twice for deletion. */
  ghost predicate Proper(view: map<int, Members>, op: Op) {
    match op
    case AddVlan(vids) => NoDup(vids) && forall v :: v in vids ==> v !in view
    case DelVlan(vids) => NoDup(vids)
    case _ => true
  }

  ghost predicate ProperRun(view: map<int, Members>, ops: seq<Op>)
    decreases ops
  {
    ops != [] ==> Proper(view, ops[0]) && ProperRun(IdealStep(view, ops[0]).view, ops[1..])
  }

  lemma UnsharedRow(rows: seq<Row>, v: int)
    requires Unshared(rows)
    ensures !Shared(rows, v)
    ensures Find(rows, v).Some? ==> Find(rows, v).value.vids == [v]
  {
  }

  lemma UnsharedGuard(t: Table, op: Op)
    requires WellFormed(t) && Unshared(t.rows) && Proper(View(t.rows), op)
    ensures Guard(t, op)
  {
    match op
    case AddVlan(vids) =>
      forall v | v in vids
        ensures Find(t.rows, v).None?
      {
        assert v !in View(t.rows);
      }
    case DelVlan(vids) =>
      forall i, j | 0 <= i < j < |vids| && Find(t.rows, vids[i]).Some?
        ensures Find(t.rows, vids[i]) != Find(t.rows, vids[j])
      {
        UnsharedRow(t.rows, vids[i]);
        assert vids[i] != vids[j];
      }
    case AddToPort(v, _, _) =>
      UnsharedRow(t.rows, v);
    case DelFromPort(vids, _) =>
      forall v {
        UnsharedRow(t.rows, v);
      }
  }

  lemma {:induction false} AddVlanKeepsUnshared(t: Table, vids: seq<int>)
    requires Unshared(t.rows)
    ensures Unshared(AddVlanRun(t, vids).rows)
  {
    if vids != [] {
      AddVlanKeepsUnshared(t, Front(vids));
    }
  }

  lemma {:induction false} NothingSplitOff(t: Table, vids: seq<int>, port: string)
    requires Unshared(t.rows)
    ensures SplitOff(t, vids, port) == []
  {
    if vids != [] {
      NothingSplitOff(t, Front(vids), port);
      UnsharedRow(t.rows, Last(vids));
    }
  }

  lemma DelVlanKeepsUnshared(t: Table, vids: seq<int>)
    requires WellFormed(t) && Unshared(t.rows) && !DoubleDelete(t.rows, vids)
    ensures Unshared(DelVlanRun(t, vids).table.rows)
  {
    DelVlanClosedForm(t, vids);
  }

  lemma DelPortKeepsUnshared(t: Table, vids: seq<int>, port: string)
    requires WellFormed(t) && Unshared(t.rows)
    ensures Unshared(DelPortRun(t, vids, port).table.rows)
  {
    DelPortStops(t, vids, port);
    var done := DeclaredPrefix(Vids(t.rows), vids);
    NothingSplitOff(t, done, port);
    FateMembers(t, done, port);
  }

  lemma AddToPortKeepsUnshared(t: Table, v: int, port: string, pvid: bool)
    requires Unshared(t.rows)
    ensures Unshared(AddVlanToPort(t, v, port, pvid).table.rows)
  {
    UnsharedRow(t.rows, v);
    if Find(t.rows, v).Some? {
      var row := Find(t.rows, v).value;
      PatchedMembers(t.rows, row.id, Enlarged(row, port, pvid, false));
    }
  }

  lemma StepKeepsUnshared(t: Table, op: Op)
    requires WellFormed(t) && Unshared(t.rows) && Guard(t, op)
    ensures Unshared(Step(t, op).table.rows)
  {
    match op
    case AddVlan(vids) => AddVlanKeepsUnshared(t, vids);
    case DelVlan(vids) =>
      DelVlanMeets(t, vids);
      DelVlanMeaning(t, vids);
      DelVlanKeepsUnshared(t, vids);
    case AddToPort(v, port, pvid) => AddToPortKeepsUnshared(t, v, port, pvid);
    case DelFromPort(vids, port) => DelPortKeepsUnshared(t, vids, port);
  }

  /**
   * From any table with a row per VID, every run of the driver as written equals the run of the plain
   * map, provided the lists repeat nothing and only undeclared VIDs are added.
   */
  lemma {:induction false} UnsharedRunRefines(t: Table, ops: seq<Op>)
    requires WellFormed(t) && Unshared(t.rows) && ProperRun(View(t.rows), ops)
    ensures Refines(t, ops)
    decreases ops
  {
    if ops != [] {
      UnsharedGuard(t, ops[0]);
      StepExact(t, ops[0]);
      StepKeepsUnshared(t, ops[0]);
      UnsharedRunRefines(Step(t, ops[0]).table, ops[1..]);
    }
  }

  // ---------------------------------------------------------------- the driver repaired

  /** `add_vlan` with the switch view refreshed before every VID. */
  function RepairedAdd(t: Table, vids: seq<int>): Table {
    if vids == [] then t
    else
      var now := RepairedAdd(t, Front(vids));
      if Find(now.rows, Last(vids)).Some? then now else Put(now, NewVlan(Last(vids))).table
  }

  /** `_del_vlan` with the table re-read for every VID: the loop of one-VID calls. */
  function RepairedDel(t: Table, vids: seq<int>): Reply {
    if vids == [] then Reply(t, false)
    else
      var o := RepairedDel(t, Front(vids));
      if o.raised then o else DelVlanRun(o.table, [Last(vids)])
  }

  /** `_del_vlan_to_port` with the table re-read for every VID. */
  function RepairedDelPort(t: Table, vids: seq<int>, port: string): Reply {
    if vids == [] then Reply(t, false)
    else
      var o := RepairedDelPort(t, Front(vids), port);
      if o.raised then o else DelPortRun(o.table, [Last(vids)], port)
  }

  /** `_add_vlan_to_port` that checks first, names the column right and carries both member lists over. */
  function RepairedAddToPort(t: Table, vid: int, port: string, pvid: bool): Reply {
    match Find(t.rows, vid)
    case None => Reply(t, true)
    case Some(row) =>
      if Conflict(row, port, pvid) then Reply(t, true)
      else if |row.vids| == 1 then Patch(t, row.id, Enlarged(row, port, pvid, false))
      else
        var o := Patch(t, row.id, KeepVids(Without(row.vids, vid)));
        var whole := Overwrite(row, Enlarged(row, port, pvid, false));
        if o.raised then o
        else Put(o.table, Fields(Some([vid]), Some(whole.tagged), Some(whole.untagged), false))
  }

  function RepairedStep(t: Table, op: Op): Reply {
    match op
    case AddVlan(vids) => Reply(RepairedAdd(t, vids), false)
    case DelVlan(vids) => RepairedDel(t, vids)
    case AddToPort(vid, port, pvid) => RepairedAddToPort(t, vid, port, pvid)
    case DelFromPort(vids, port) => RepairedDelPort(t, vids, port)
  }

  lemma AddMissingVlan(t: Table, v: int)
    requires WellFormed(t)
    ensures var after := if Find(t.rows, v).Some? then t else Put(t, NewVlan(v)).table;
            WellFormed(after) && View(after.rows) == ViewWithVlans(View(t.rows), [v])
  {
    AddOneVlan(t, v);
    ViewWithOneVlan(View(t.rows), v);
  }

  lemma ViewWithOneVlan(view: map<int, Members>, v: int)
    ensures ViewWithVlans(view, [v]) == if v in view then view else view[v := Members({BRIDGE}, {})]
  {
  }

  lemma ViewWithVlansTwice(view: map<int, Members>, vids: seq<int>, more: seq<int>)
    ensures ViewWithVlans(ViewWithVlans(view, vids), more) == ViewWithVlans(view, vids + more)
  {
  }

  lemma {:induction false} RepairedAddMeets(t: Table, vids: seq<int>)
    requires WellFormed(t)
    ensures WellFormed(RepairedAdd(t, vids))
    ensures View(RepairedAdd(t, vids).rows) == ViewWithVlans(View(t.rows), vids)
  {
    if vids == [] {
      assert ViewWithVlans(View(t.rows), vids) == View(t.rows);
    } else {
      RepairedAddMeets(t, Front(vids));
      AddMissingVlan(RepairedAdd(t, Front(vids)), Last(vids));
      ViewWithVlansTwice(View(t.rows), Front(vids), [Last(vids)]);
      assert vids == Front(vids) + [Last(vids)];
    }
  }

  /** A call with one VID reads the table once for it, so nothing is stale. */
  lemma DelOneVid(t: Table, v: int)
    requires WellFormed(t)
    ensures var o := DelVlanStep(t.rows, t, v);
            && DelVlanRun(t, [v]) == o
            && !o.raised && WellFormed(o.table) && View(o.table.rows) == View(t.rows) - {v}
            && o.table.nextId == t.nextId && o.table.strict == t.strict
  {
    assert Front([v]) == [];
    assert Elements([v]) == {v};
    DelVlanMeaning(t, [v]);
    DelVlanExact(t, [v]);
    DelVlanClosedForm(t, [v]);
  }

  lemma RemovedOneMore(view: map<int, Members>, vids: seq<int>)
    requires vids != []
    ensures view - Elements(Front(vids)) - {Last(vids)} == view - Elements(vids)
  {
    assert vids == Front(vids) + [Last(vids)];
  }

  lemma {:induction false} RepairedDelMeets(t: Table, vids: seq<int>)
    requires WellFormed(t)
    ensures var o := RepairedDel(t, vids);
            !o.raised && WellFormed(o.table) && View(o.table.rows) == View(t.rows) - Elements(vids)
  {
    if vids == [] {
      assert View(t.rows) - Elements(vids) == View(t.rows);
    } else {
      RepairedDelMeets(t, Front(vids));
      DelOneVid(RepairedDel(t, Front(vids)).table, Last(vids));
      RemovedOneMore(View(t.rows), vids);
    }
  }

  lemma DelPortOneVid(t: Table, v: int, port: string)
    requires WellFormed(t)
    ensures var o := DelPortRun(t, [v], port);
            && WellFormed(o.table) && (o.raised <==> v !in View(t.rows))
            && View(o.table.rows) == IdealDelPort(View(t.rows), [v], port)
  {
    DelFromPortExact(t, [v], port);
    DeclaredOne(View(t.rows), v, port);
    assert View(t.rows).Keys == Vids(t.rows);
  }

  lemma IdealDelPortTwice(view: map<int, Members>, vids: seq<int>, more: seq<int>, port: string)
    ensures IdealDelPort(IdealDelPort(view, vids, port), more, port) == IdealDelPort(view, vids + more, port)
  {
    forall v | v in view
      ensures IdealDelPort(IdealDelPort(view, vids, port), more, port)[v] == IdealDelPort(view, vids + more, port)[v]
    {
      assert WithoutPort(WithoutPort(view[v], port), port) == WithoutPort(view[v], port);
    }
  }

  lemma DeclaredOne(view: map<int, Members>, v: int, port: string)
    ensures DeclaredPrefix(view.Keys, [v]) == if v in view then [v] else []
    ensures IdealDelPort(view, [], port) == view
    ensures v !in view ==> IdealDelPort(view, [v], port) == view
  {
    assert Front([v]) == [];
  }

  lemma IdealDelPortOneMore(view: map<int, Members>, vids: seq<int>, port: string)
    requires vids != []
    ensures var before, v := IdealDelPort(view, Front(vids), port), Last(vids);
            && (v in before <==> v in view)
            && IdealDelPort(before, [v], port) == if v in view then IdealDelPort(view, vids, port) else before
  {
    var before, v := IdealDelPort(view, Front(vids), port), Last(vids);
    IdealDelPortTwice(view, Front(vids), [v], port);
    DeclaredOne(before, v, port);
    assert vids == Front(vids) + [v];
  }

  /** One more turn of the repaired loop, over the view that the turns before it have left. */
  lemma RepairedDelPortTurn(now: Table, view: map<int, Members>, vids: seq<int>, port: string)
    requires vids != [] && WellFormed(now) && View(now.rows) == IdealDelPort(view, Front(vids), port)
    ensures var o := DelPortRun(now, [Last(vids)], port);
            && WellFormed(o.table) && (o.raised <==> Last(vids) !in view)
            && View(o.table.rows) == IdealDelPort(view, if Last(vids) in view then vids else Front(vids), port)
  {
    DelPortOneVid(now, Last(vids), port);
    IdealDelPortOneMore(view, vids, port);
  }

  lemma {:induction false} RepairedDelPortMeets(t: Table, vids: seq<int>, port: string)
    requires WellFormed(t)
    ensures Meets(RepairedDelPort(t, vids, port), IdealStep(View(t.rows), DelFromPort(vids, port)))
  {
    if vids == [] {
      DeclaredOne(View(t.rows), 0, port);
    } else {
      RepairedDelPortMeets(t, Front(vids), port);
      var o := RepairedDelPort(t, Front(vids), port);
      if !o.raised {
        RepairedDelPortTurn(o.table, View(t.rows), vids, port);
      }
    }
  }

  lemma PutWhole(t: Table, v: int, whole: Row)
    requires WellFormed(t) && v !in View(t.rows)
    ensures var o := Put(t, Fields(Some([v]), Some(whole.tagged), Some(whole.untagged), false));
            !o.raised && WellFormed(o.table) && View(o.table.rows) == View(t.rows)[v := MembersOf(whole)]
  {
    var added := Row(t.nextId, [v], whole.tagged, whole.untagged);
    PutKeeps(t, added);
    ViewExtended(t.rows, added, v);
    assert MembersOf(added) == MembersOf(whole);
  }

  lemma RemovedThenPut(view: map<int, Members>, v: int, m: Members)
    ensures (view - {v})[v := m] == view[v := m]
  {
  }

  /** Taking the VID out of its shared row and putting it in a row of its own, both lists with it. */
  lemma SplitThenPut(t: Table, v: int, row: Row, whole: Row)
    requires WellFormed(t) && Find(t.rows, v) == Some(row) && |row.vids| != 1
    ensures var o := Patch(t, row.id, KeepVids(Without(row.vids, v)));
            var o' := Put(o.table, Fields(Some([v]), Some(whole.tagged), Some(whole.untagged), false));
            && !o.raised && !o'.raised && WellFormed(o'.table)
            && View(o'.table.rows) == View(t.rows)[v := MembersOf(whole)]
  {
    DelOneVid(t, v);
    PutWhole(DelVlanStep(t.rows, t, v).table, v, whole);
    RemovedThenPut(View(t.rows), v, MembersOf(whole));
  }

  lemma RepairedSplit(t: Table, v: int, port: string, pvid: bool)
    requires WellFormed(t) && Shared(t.rows, v) && !Conflict(Find(t.rows, v).value, port, pvid)
    ensures Meets(RepairedAddToPort(t, v, port, pvid), IdealStep(View(t.rows), AddToPort(v, port, pvid)))
  {
    var row := Find(t.rows, v).value;
    EnlargedMembers(row, port, pvid);
    GoalOnRow(View(t.rows), v, row, port, pvid);
    SplitThenPut(t, v, row, Overwrite(row, Enlarged(row, port, pvid, false)));
  }

  lemma RepairedAddToPortMeets(t: Table, v: int, port: string, pvid: bool)
    requires WellFormed(t)
    ensures Meets(RepairedAddToPort(t, v, port, pvid), IdealStep(View(t.rows), AddToPort(v, port, pvid)))
  {
    if Shared(t.rows, v) {
      if !Conflict(Find(t.rows, v).value, port, pvid) {
        RepairedSplit(t, v, port, pvid);
      }
    } else if Find(t.rows, v).Some? {
      AddToOwnRow(t, v, port, pvid);
    }
  }

  lemma RepairedStepMeets(t: Table, op: Op)
    requires WellFormed(t)
    ensures Meets(RepairedStep(t, op), IdealStep(View(t.rows), op))
  {
    match op
    case AddVlan(vids) => RepairedAddMeets(t, vids);
    case DelVlan(vids) => RepairedDelMeets(t, vids);
    case AddToPort(v, port, pvid) => RepairedAddToPortMeets(t, v, port, pvid);
    case DelFromPort(vids, port) => RepairedDelPortMeets(t, vids, port);
  }

  function RepairedRun(t: Table, ops: seq<Op>): (Table, seq<bool>)
    decreases ops
  {
    if ops == [] then (t, [])
    else
      var o := RepairedStep(t, ops[0]);
      var rest := RepairedRun(o.table, ops[1..]);
      (rest.0, [o.raised] + rest.1)
  }

  /** Repaired, the driver refines the plain map on every run from every table, shared rows included. */
  lemma {:induction false} RepairedRunRefines(t: Table, ops: seq<Op>)
    requires WellFormed(t)
    ensures var after, ideal := RepairedRun(t, ops), IdealRun(View(t.rows), ops);
            WellFormed(after.0) && View(after.0.rows) == ideal.0 && after.1 == ideal.1
    decreases ops
  {
    if ops != [] {
      RepairedStepMeets(t, ops[0]);
      RepairedRunRefines(RepairedStep(t, ops[0]).table, ops[1..]);
    }
  }

  // ---------------------------------------------------------------- a table on which the early reading shows

  /** VLANs 10 and 20 share a row. Deleting both leaves 10; taking a port out of both breaks the table. */
  lemma StaleReadingWitness(port: string)
    ensures var t := Table([Row(0, [10, 20], [port], [])], 1, true);
            && WellFormed(t)
            && !DelVlanRun(t, [10, 20]).raised && 10 in View(DelVlanRun(t, [10, 20]).table.rows)
            && !WellFormed(DelPortRun(t, [10, 20], port).table)
  {
    var row := Row(0, [10, 20], [port], []);
    var t, vids := Table([row], 1, true), [10, 20];
    assert 10 in row.vids && 20 in row.vids;
    FindUnique(t.rows, row, 10);
    FindUnique(t.rows, row, 20);
    assert vids[0] == 10 && vids[1] == 20;
    assert LastListed(vids, row.vids) == Some(20);
    assert !DoubleDelete(t.rows, vids);
    assert !IsGone(t.rows, vids, 10);
    DelVlanMeaning(t, vids);
    assert 10 in View(t.rows) && 10 !in Gone(t.rows, vids);
    assert Find(t.rows, vids[0]) == Find(t.rows, vids[1]);
    assert !PortSafe(t.rows, vids);
    DelPortExact(t, vids, port);
  }
}
