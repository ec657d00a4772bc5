/** The view of a MikroTik switch after whole runs of the driver and a refresh. */
module MikrotikView {
  import opened Common
  import opened BridgeTable
  import opened MikrotikDelete
  import opened MikrotikDeletePort
  import opened MikrotikDriver
  import opened MikrotikRuns
  import opened MikrotikSwitch

  // ---------------------------------------------------------------- every row has an id of its own

  ghost predicate DistinctIds(rows: seq<Row>) {
    forall i, j :: 0 <= i < j < |rows| ==> rows[i].id != rows[j].id
  }

  ghost predicate Listed(t: Table) {
    && DistinctIds(t.rows)
    && (forall row :: row in t.rows ==> row.id < t.nextId)
  }

  lemma PutListed(t: Table, f: Fields)
    requires Listed(t)
    ensures Listed(Put(t, f).table)
  {
    assert forall i :: 0 <= i < |t.rows| ==> t.rows[i] in t.rows;
  }

  lemma PatchListed(t: Table, id: nat, f: Fields)
    requires Listed(t)
    ensures Listed(Patch(t, id, f).table)
  {
    var rows := PatchRows(t.rows, id, f);
    forall row | row in rows
      ensures row.id < t.nextId
    {
      var i :| 0 <= i < |rows| && rows[i] == row;
      assert t.rows[i] in t.rows;
    }
  }

  lemma {:induction false} DeletedDistinct(rows: seq<Row>, id: nat)
    requires DistinctIds(rows)
    ensures DistinctIds(DeleteRows(rows, id))
  {
    if rows != [] {
      DeletedDistinct(rows[1..], id);
      var rest := DeleteRows(rows[1..], id);
      forall j | 0 <= j < |rest|
        ensures rest[j].id != rows[0].id
      {
        assert rest[j] in rest && rest[j] in rows[1..];
        var k :| 1 <= k < |rows| && rows[k] == rest[j];
      }
      assert rows[0].id != id ==> DeleteRows(rows, id) == [rows[0]] + rest;
    }
  }

  lemma DeleteListed(t: Table, id: nat)
    requires Listed(t)
    ensures Listed(Delete(t, id).table)
  {
    DeletedDistinct(t.rows, id);
  }

  lemma {:induction false} AddVlanListed(t: Table, vids: seq<int>)
    requires Listed(t)
    ensures Listed(AddVlanRun(t, vids))
  {
    if vids != [] {
      AddVlanListed(t, Front(vids));
      PutListed(AddVlanRun(t, Front(vids)), NewVlan(Last(vids)));
    }
  }

  lemma {:induction false} DelVlanListed(t: Table, vids: seq<int>)
    requires Listed(t)
    ensures Listed(DelVlanRun(t, vids).table)
  {
    if vids != [] {
      DelVlanListed(t, Front(vids));
      var now, found := DelVlanRun(t, Front(vids)).table, Find(t.rows, Last(vids));
      if found.Some? {
        DeleteListed(now, found.value.id);
        PatchListed(now, found.value.id, KeepVids(Without(found.value.vids, Last(vids))));
      }
    }
  }

  lemma {:induction false} DelPortListed(t: Table, vids: seq<int>, port: string)
    requires Listed(t)
    ensures Listed(DelPortRun(t, vids, port).table)
  {
    if vids != [] {
      DelPortListed(t, Front(vids), port);
      var now, v := DelPortRun(t, Front(vids), port).table, Last(vids);
      if Find(t.rows, v).Some? {
        var row := Find(t.rows, v).value;
        var shrunk := Patch(now, row.id, KeepVids(Without(row.vids, v))).table;
        PatchListed(now, row.id, KeepPorts(row, port));
        PatchListed(now, row.id, KeepVids(Without(row.vids, v)));
        PutListed(shrunk, OwnRow(row, v, port));
      }
    }
  }

  lemma AddToPortListed(t: Table, v: int, port: string, pvid: bool)
    requires Listed(t)
    ensures Listed(AddVlanToPort(t, v, port, pvid).table)
  {
    if Find(t.rows, v).Some? {
      var row := Find(t.rows, v).value;
      var now := Patch(t, row.id, Fields(None, None, None, true)).table;
      PatchListed(t, row.id, Fields(None, None, None, true));
      PutListed(now, Enlarged(row, port, pvid, true));
      PatchListed(t, row.id, Enlarged(row, port, pvid, false));
    }
  }

  lemma StepListed(t: Table, op: Op)
    requires Listed(t)
    ensures Listed(Step(t, op).table)
  {
    match op
    case AddVlan(vids) => AddVlanListed(t, vids);
    case DelVlan(vids) => DelVlanListed(t, vids);
    case AddToPort(v, port, pvid) => AddToPortListed(t, v, port, pvid);
    case DelFromPort(vids, port) => DelPortListed(t, vids, port);
  }

  /** Whatever the calls, guarded or not, and whether they raise: no two rows ever have one id. */
  lemma {:induction false} RunListed(t: Table, ops: seq<Op>)
    requires Listed(t)
    ensures Listed(Run(t, ops).0)
    decreases ops
  {
    if ops != [] {
      StepListed(t, ops[0]);
      RunListed(Step(t, ops[0]).table, ops[1..]);
    }
  }

  lemma ListedOnce(t: Table)
    requires Listed(t)
    ensures NoDup(t.rows)
  {
  }

  // ---------------------------------------------------------------- the view after a run

  /**
   * After every run of guarded calls and a refresh the view agrees with the plain map: the VLAN list has
   * its VIDs, once each, and the trunk list of a port has, as text, those that tag it.
   */
  lemma ViewAfterRun(t: Table, ops: seq<Op>, port: string, v: int)
    requires WellFormed(t) && GuardedRun(t, ops)
    ensures var rows, ideal := Run(t, ops).0.rows, IdealRun(View(t.rows), ops).0;
            && NoDup(VlansOf(rows)) && Elements(VlansOf(rows)) == ideal.Keys
            && (Text(v) in TrunkOf(rows, port) <==> v in ideal && port in ideal[v].tagged)
            && Number(v) !in TrunkOf(rows, port)
  {
    GuardedRunRefines(t, ops);
    ViewAgrees(Run(t, ops).0, port, v);
  }

  // ---------------------------------------------------------------- repeats in the trunk lists

  /** No trunk list of the view has a repeat. */
  ghost predicate RepeatFree(rows: seq<Row>) {
    forall port :: NoDup(TrunkOf(rows, port))
  }

  ghost predicate OnceEach(rows: seq<Row>) {
    forall row :: row in rows && row.vids != [] ==> NoDup(row.tagged)
  }

  lemma RepeatFreeRows(t: Table)
    requires WellFormed(t) && Listed(t)
    ensures RepeatFree(t.rows) <==> OnceEach(t.rows)
  {
    ListedOnce(t);
    forall port
      ensures NoDup(TrunkOf(t.rows, port)) <==> OnceInRows(t.rows, port)
    {
      TrunkOfNoDup(t.rows, port);
    }
    if RepeatFree(t.rows) {
      forall row, i, j | row in t.rows && row.vids != [] && 0 <= i < j < |row.tagged|
        ensures row.tagged[i] != row.tagged[j]
      {
        assert OnceInRows(t.rows, row.tagged[i]);
      }
    }
  }

  /** The call appends the port to a list of tagged ports that already holds it. */
  ghost predicate AddsAgain(t: Table, op: Op) {
    && op.AddToPort? && !op.pvid
    && Find(t.rows, op.vid).Some? && !Shared(t.rows, op.vid)
    && op.port in Find(t.rows, op.vid).value.tagged && op.port !in Find(t.rows, op.vid).value.untagged
  }

  lemma {:induction false} AddVlanOnceEach(t: Table, vids: seq<int>)
    requires OnceEach(t.rows)
    ensures OnceEach(AddVlanRun(t, vids).rows)
  {
    if vids != [] {
      AddVlanOnceEach(t, Front(vids));
    }
  }

  lemma DelVlanOnceEach(t: Table, vids: seq<int>)
    requires WellFormed(t) && OnceEach(t.rows) && !DoubleDelete(t.rows, vids)
    ensures OnceEach(DelVlanRun(t, vids).table.rows)
  {
    DelVlanClosedForm(t, vids);
    var after := DelVlanRun(t, vids).table.rows;
    forall row | row in after && row.vids != []
      ensures NoDup(row.tagged)
    {
      var before := ById(t.rows, row.id).value;
      assert DelFate(before, vids) == Some(row);
      assert row.vids[0] in before.vids;
    }
  }

  lemma DelPortOnceEach(t: Table, vids: seq<int>, port: string)
    requires WellFormed(t) && OnceEach(t.rows)
    ensures OnceEach(DelPortTable(t, vids, port).rows)
  {
    FateMembers(t, vids, port);
    SplitMembers(t, vids, port);
    var fates := PortFates(t.rows, vids, port);
    forall row | row in DelPortTable(t, vids, port).rows && row.vids != []
      ensures NoDup(row.tagged)
    {
      if row in fates {
        FateOnce(ById(t.rows, row.id).value, vids, port);
      } else {
        assert IsSplit(t, vids, port, row);
      }
    }
  }

  lemma FateOnce(row: Row, vids: seq<int>, port: string)
    requires row.vids != [] ==> NoDup(row.tagged)
    ensures PortFate(row, vids, port).vids != [] ==> NoDup(PortFate(row, vids, port).tagged)
  {
    var fate := PortFate(row, vids, port);
    if fate.vids != [] {
      assert fate.vids[0] in fate.vids;
    }
  }

  lemma AppendedOnce(tagged: seq<string>, port: string)
    ensures NoDup(tagged + [port]) <==> NoDup(tagged) && port !in tagged
  {
    NoDupConcat(tagged, [port]);
    assert port in [port];
  }

  lemma AddToPortOnceEach(t: Table, v: int, port: string, pvid: bool)
    requires WellFormed(t) && OnceEach(t.rows)
    ensures OnceEach(AddVlanToPort(t, v, port, pvid).table.rows) <==> !AddsAgain(t, AddToPort(v, port, pvid))
  {
    if Find(t.rows, v).Some? && !Conflict(Find(t.rows, v).value, port, pvid) {
      var row := Find(t.rows, v).value;
      if Shared(t.rows, v) {
        PatchNothing(t.rows, row.id);
      } else {
        AppendedOnce(row.tagged, port);
        OwnRowOnceEach(t, row, Enlarged(row, port, pvid, false));
      }
    } else if Find(t.rows, v).Some? {
      PatchNothing(t.rows, Find(t.rows, v).value.id);
    }
  }

  lemma OwnRowOnceEach(t: Table, row: Row, f: Fields)
    requires WellFormed(t) && OnceEach(t.rows) && row in t.rows && row.vids != [] && f.vids.None?
    ensures OnceEach(PatchRows(t.rows, row.id, f)) <==> NoDup(Value(f.tagged, row.tagged))
  {
    var after := PatchRows(t.rows, row.id, f);
    var i :| 0 <= i < |t.rows| && t.rows[i] == row;
    assert after[i] in after && after[i] == Overwrite(row, f);
    forall j | 0 <= j < |after|
      ensures after[j] == if t.rows[j] == row then Overwrite(row, f) else t.rows[j]
    {
      assert t.rows[j] in t.rows;
    }
  }

  lemma StepOnceEach(t: Table, op: Op)
    requires WellFormed(t) && OnceEach(t.rows) && Guard(t, op)
    ensures OnceEach(Step(t, op).table.rows) <==> !AddsAgain(t, op)
  {
    match op
    case AddVlan(vids) => AddVlanOnceEach(t, vids);
    case DelVlan(vids) =>
      DelVlanMeets(t, vids);
      DelVlanMeaning(t, vids);
      DelVlanOnceEach(t, vids);
    case AddToPort(v, port, pvid) => AddToPortOnceEach(t, v, port, pvid);
    case DelFromPort(vids, port) =>
      DelPortStops(t, vids, port);
      DelPortOnceEach(t, DeclaredPrefix(Vids(t.rows), vids), port);
  }

  ghost predicate RepeatFreeThroughout(t: Table, ops: seq<Op>)
    decreases ops
  {
    RepeatFree(t.rows) && (ops != [] ==> RepeatFreeThroughout(Step(t, ops[0]).table, ops[1..]))
  }

  ghost predicate NoneAddsAgain(t: Table, ops: seq<Op>)
    decreases ops
  {
    ops != [] ==> !AddsAgain(t, ops[0]) && NoneAddsAgain(Step(t, ops[0]).table, ops[1..])
  }

  /**
   * Along every run of guarded calls from a table without repeats: the trunk lists stay free of repeats
   * if and only if no call adds a port to a list that already holds it.
   */
  lemma {:induction false} RepeatFreeExact(t: Table, ops: seq<Op>)
    requires WellFormed(t) && Listed(t) && OnceEach(t.rows) && GuardedRun(t, ops)
    ensures RepeatFreeThroughout(t, ops) <==> NoneAddsAgain(t, ops)
    decreases ops
  {
    RepeatFreeRows(t);
    if ops != [] {
      var now := Step(t, ops[0]).table;
      StepExact(t, ops[0]);
      StepOnceEach(t, ops[0]);
      StepListed(t, ops[0]);
      RepeatFreeRows(now);
      if OnceEach(now.rows) {
        RepeatFreeExact(now, ops[1..]);
      }
    }
  }
}
