/**
 * Requests to a MikroTik switch as its callers make them, one after the other on a single reading of the
 * view: the driver does not note in the view what it adds or deletes. The table may be any.
 */
module MikrotikStale {
  import opened Common
  import opened BridgeTable
  import opened MikrotikDelete
  import opened MikrotikDeletePort
  import opened MikrotikDriver
  import opened MikrotikRuns
  import opened MikrotikSwitch
  import opened MikrotikRequests

  /** What one request leaves, served on the VLAN list `vlans`. Of two calls only the second can raise. */
  function ServeOne(t: Table, vlans: seq<int>, q: Request): Reply {
    var (after, raised) := Run(t, Calls(q, vlans));
    Reply(after, true in raised)
  }

  lemma NoCall(t: Table, vlans: seq<int>, q: Request)
    requires Calls(q, vlans) == []
    ensures ServeOne(t, vlans, q) == Reply(t, false)
  {
  }

  lemma OneCallOf(t: Table, vlans: seq<int>, q: Request, op: Op)
    requires Calls(q, vlans) == [op]
    ensures ServeOne(t, vlans, q) == Step(t, op)
  {
    var o := Step(t, op);
    assert [op][1..] == [];
    assert Run(t, [op]) == (o.table, [o.raised] + []);
  }

  lemma TwoCallsOf(t: Table, vlans: seq<int>, q: Request, vids: seq<int>, op: Op)
    requires Calls(q, vlans) == [AddVlan(vids), op]
    ensures ServeOne(t, vlans, q) == Step(AddVlanRun(t, vids), op)
  {
    var add, now := AddVlan(vids), AddVlanRun(t, vids);
    var o := Step(now, op);
    assert [op][1..] == [];
    assert Run(now, [op]) == (o.table, [o.raised] + []);
    assert Step(t, add) == Reply(now, false);
    assert [add, op][1..] == [op] && [add, op][0] == add;
    assert Run(t, [add, op]) == (o.table, [false] + ([o.raised] + []));
  }

  ghost predicate Means(t: Table, view: map<int, Members>) {
    WellFormed(t) && View(t.rows) == view
  }

  /** The exception that a request ought to end in: the port is in the other list of the VLAN. */
  ghost predicate Refused(view: map<int, Members>, q: Request) {
    match q
    case AddVlanToPort(v, port, pvid) =>
      var m := Declare(view, v)[v];
      port in (if pvid then m.tagged else m.untagged)
    case _ => false
  }

  /** The request does to the plain map what it is for, and raises just when it ought to. */
  ghost predicate ServedOn(t: Table, vlans: seq<int>, q: Request) {
    var o := ServeOne(t, vlans, q);
    Means(o.table, Ideal(View(t.rows), q)) && o.raised == Refused(View(t.rows), q)
  }

  // ---------------------------------------------------------------- when one request is served

  ghost predicate Current(view: map<int, Members>, vlans: seq<int>, v: int) {
    v in vlans <==> v in view
  }

  /** None of the listed VLANs that are there has the port. */
  ghost predicate Idle(view: map<int, Members>, vids: seq<int>, port: string) {
    forall v :: v in vids && v in view ==> port !in view[v].tagged && port !in view[v].untagged
  }

  ghost predicate AllIn(view: map<int, Members>, vids: seq<int>) {
    forall v :: v in vids ==> v in view
  }

  ghost predicate NoneIn(view: map<int, Members>, vids: seq<int>) {
    forall v :: v in vids ==> v !in view
  }

  /**
   * A condition on table, VLAN list and request: what the list gets wrong about the VIDs of the request
   * must be harmless to it, and the call that it comes to must pass its guard.
   */
  ghost predicate StaleGuard(t: Table, vlans: seq<int>, q: Request) {
    var view := View(t.rows);
    match q
    case AddVlans(vids) => MissingOnce(vids, vlans) && forall v :: v in vids ==> Current(view, vlans, v)
    case DelVlans(vids, force) =>
      if !force && !AllListed(vids, vlans) then !AllIn(view, vids)
      else
        && DelSafe(t.rows, Select(vids, vlans, true))
        && if force then forall v :: v in vids && v in view ==> v in vlans else AllIn(view, vids) || NoneIn(view, vids)
    case AddVlanToPort(v, port, pvid) =>
      Current(view, vlans, v) && (v in view ==> Guard(t, AddToPort(v, port, pvid)))
    case DelVlansFromPort(vids, port) =>
      if AllListed(vids, vlans) then AllIn(view, vids) && PortSafe(t.rows, vids)
      else !AllIn(view, vids) || Idle(view, vids, port)
  }

  lemma SameVlans(view: map<int, Members>, some: seq<int>, vids: seq<int>)
    requires forall v :: v in some ==> v in vids
    ensures ViewWithVlans(view, some) == ViewWithVlans(view, vids)
       <==> forall v :: v in vids && v !in view ==> v in some
  {
    var a, b := ViewWithVlans(view, some), ViewWithVlans(view, vids);
    forall v
      ensures v in a <==> v in view || v in some
      ensures v in b <==> v in view || v in vids
    {
    }
    if forall v :: v in vids && v !in view ==> v in some {
      forall v
        ensures v in a <==> v in b
      {
        assert v in vids && v !in view ==> v in some;
      }
    }
  }

  lemma AddVlansOn(t: Table, vlans: seq<int>, vids: seq<int>)
    requires WellFormed(t)
    ensures ServedOn(t, vlans, AddVlans(vids)) <==> StaleGuard(t, vlans, AddVlans(vids))
  {
    var missing := Select(vids, vlans, false);
    AddVlansCall(t, vlans, vids);
    AddVlanRunMeaning(t, missing);
    SameVlans(View(t.rows), missing, vids);
    UndeclaredMissing(t, vlans, vids);
  }

  lemma AddVlansCall(t: Table, vlans: seq<int>, vids: seq<int>)
    ensures ServeOne(t, vlans, AddVlans(vids)) == Reply(AddVlanRun(t, Select(vids, vlans, false)), false)
  {
    var missing := Select(vids, vlans, false);
    if missing == [] {
      NoCall(t, vlans, AddVlans(vids));
    } else {
      OneCallOf(t, vlans, AddVlans(vids), AddVlan(missing));
    }
  }

  lemma UndeclaredMissing(t: Table, vlans: seq<int>, vids: seq<int>)
    ensures var missing := Select(vids, vlans, false);
            Undeclared(t.rows, missing) && (forall v :: v in vids && v !in View(t.rows) ==> v in missing)
            <==> MissingOnce(vids, vlans) && forall v :: v in vids ==> Current(View(t.rows), vlans, v)
  {
    var missing := Select(vids, vlans, false);
    SelectOnce(vids, vlans);
    if Undeclared(t.rows, missing) && forall v :: v in vids && v !in View(t.rows) ==> v in missing {
      forall v | v in vids
        ensures Current(View(t.rows), vlans, v)
      {
        assert v in missing <==> v !in vlans;
      }
    }
    if forall v :: v in vids ==> Current(View(t.rows), vlans, v) {
      forall v | v in missing
        ensures Find(t.rows, v).None?
      {
        assert Current(View(t.rows), vlans, v);
      }
      forall v | v in vids && v !in View(t.rows)
        ensures v in missing
      {
        assert Current(View(t.rows), vlans, v);
      }
    }
  }

  // ---------------------------------------------------------------- deleting

  /** What is gone compared with what was to go. */
  lemma GoneCompared(view: map<int, Members>, gone: set<int>, some: seq<int>, vids: seq<int>)
    requires gone <= Elements(some) && forall v :: v in some ==> v in vids
    ensures view - gone == view - Elements(vids)
       <==> view - gone == view - Elements(some) && forall v :: v in vids && v in view ==> v in some
  {
    var a, b, c := view - gone, view - Elements(some), view - Elements(vids);
    forall v
      ensures v in a <==> v in view && v !in gone
      ensures v in b <==> v in view && v !in some
      ensures v in c <==> v in view && v !in vids
      ensures v in gone ==> v in some
    {
      assert v in gone ==> v in Elements(some);
    }
    if a == c {
      assert forall v :: v in a <==> v in b;
    }
    if a == b && forall v :: v in vids && v in view ==> v in some {
      assert forall v :: v in a <==> v in c;
    }
  }

  /** If a listed VID is there, then some VID goes. */
  lemma SomethingGoes(t: Table, vids: seq<int>)
    requires WellFormed(t) && !NoneIn(View(t.rows), vids)
    ensures View(t.rows) - Gone(t.rows, vids) != View(t.rows)
  {
    var v :| v in vids && v in View(t.rows);
    var row := Find(t.rows, v).value;
    var last := LastListed(vids, row.vids).value;
    FindUnique(t.rows, row, last);
    assert last in Gone(t.rows, vids) && last in View(t.rows);
  }

  lemma NothingGoes(t: Table, vids: seq<int>)
    requires NoneIn(View(t.rows), vids)
    ensures View(t.rows) - Gone(t.rows, vids) == View(t.rows)
    ensures DelSafe(t.rows, vids) && !DoubleDelete(t.rows, vids)
  {
    forall v | v in vids
      ensures Find(t.rows, v).None?
    {
      assert v !in View(t.rows);
    }
  }

  /** Deleting `some` of the listed VIDs is as good as deleting all that are there. */
  lemma DelSomeExact(t: Table, some: seq<int>, vids: seq<int>)
    requires WellFormed(t) && forall v :: v in some ==> v in vids
    ensures var o := DelVlanRun(t, some);
            !o.raised && Means(o.table, View(t.rows) - Elements(vids))
            <==> DelSafe(t.rows, some) && forall v :: v in vids && v in View(t.rows) ==> v in some
  {
    DelVlanMeaning(t, some);
    DelVlanExact(t, some);
    GoneCompared(View(t.rows), Gone(t.rows, some), some, vids);
  }

  /** Deleting VIDs of which some are missing, where nothing should have been deleted. */
  lemma DelNoneExact(t: Table, vids: seq<int>)
    requires WellFormed(t)
    ensures var o := DelVlanRun(t, vids);
            !o.raised && Means(o.table, View(t.rows)) <==> NoneIn(View(t.rows), vids)
    ensures NoneIn(View(t.rows), vids) ==> DelSafe(t.rows, vids)
  {
    DelVlanMeaning(t, vids);
    if NoneIn(View(t.rows), vids) {
      NothingGoes(t, vids);
    } else {
      SomethingGoes(t, vids);
    }
  }

  lemma {:induction false} SelectAll(vids: seq<int>, vlans: seq<int>)
    requires AllListed(vids, vlans)
    ensures Select(vids, vlans, true) == vids
  {
    if vids != [] {
      var v := vids[|vids| - 1];
      assert v in vids && v in vlans;
      assert vids == Front(vids) + [v];
      SelectAll(Front(vids), vlans);
      assert Select(vids, vlans, true) == Select(Front(vids), vlans, true) + [v];
    }
  }

  lemma DelVlansOn(t: Table, vlans: seq<int>, vids: seq<int>, force: bool)
    requires WellFormed(t)
    ensures ServedOn(t, vlans, DelVlans(vids, force)) <==> StaleGuard(t, vlans, DelVlans(vids, force))
  {
    var q := DelVlans(vids, force);
    NoneMissing(vids, vlans);
    if force || AllListed(vids, vlans) {
      OneCallOf(t, vlans, q, DelVlan(Select(vids, vlans, true)));
      DelVlansCalled(t, vlans, vids, force);
    } else {
      NoCall(t, vlans, q);
      var v :| v in vids && v !in vlans;
      KeptCompared(View(t.rows), vids);
    }
  }

  lemma KeptCompared(view: map<int, Members>, vids: seq<int>)
    requires vids != []
    ensures Ideal(view, DelVlans(vids, false)) == view <==> !AllIn(view, vids)
  {
    var v := vids[0];
    assert v in vids;
    if AllIn(view, vids) {
      assert v in view && v !in Ideal(view, DelVlans(vids, false));
    }
  }

  lemma DelVlansCalled(t: Table, vlans: seq<int>, vids: seq<int>, force: bool)
    requires WellFormed(t) && (force || AllListed(vids, vlans))
    ensures var o := DelVlanRun(t, Select(vids, vlans, true));
            !o.raised && Means(o.table, Ideal(View(t.rows), DelVlans(vids, force)))
            <==> StaleGuard(t, vlans, DelVlans(vids, force))
  {
    var existing := Select(vids, vlans, true);
    if force {
      DelSomeExact(t, existing, vids);
    } else {
      SelectAll(vids, vlans);
      if AllIn(View(t.rows), vids) {
        DelSomeExact(t, vids, vids);
      } else {
        DelNoneExact(t, vids);
      }
    }
  }

  // ---------------------------------------------------------------- a VLAN added again

  /** Two rows with different ids serve one VID. */
  ghost predicate Clash(rows: seq<Row>) {
    exists r, s :: r in rows && s in rows && r.id != s.id && Share(r, s)
  }

  lemma ClashStays(rows: seq<Row>, id: nat, f: Fields)
    requires Clash(rows) && f.vids.None?
    ensures Clash(PatchRows(rows, id, f))
  {
    var r, s :| r in rows && s in rows && r.id != s.id && Share(r, s);
    var after := PatchRows(rows, id, f);
    var i :| 0 <= i < |rows| && rows[i] == r;
    var j :| 0 <= j < |rows| && rows[j] == s;
    assert after[i] in after && after[j] in after;
    assert Share(after[i], after[j]);
  }

  lemma ClashBreaks(t: Table)
    requires Clash(t.rows)
    ensures !WellFormed(t)
  {
  }

  lemma ClashAppended(rows: seq<Row>, row: Row)
    requires Clash(rows)
    ensures Clash(rows + [row])
  {
    var r, s :| r in rows && s in rows && r.id != s.id && Share(r, s);
    assert r in rows + [row] && s in rows + [row];
  }

  /** Every id in use has been given out. */
  ghost predicate Bounded(t: Table) {
    forall row :: row in t.rows ==> row.id < t.nextId
  }

  /** Adding a VID that is there gives it a second row. */
  lemma AddedAgain(t: Table, v: int)
    requires Bounded(t) && Find(t.rows, v).Some?
    ensures Clash(AddVlanRun(t, [v]).rows)
  {
    var row, first := Row(t.nextId, [v], [BRIDGE], []), Find(t.rows, v).value;
    var now := t.(rows := t.rows + [row], nextId := t.nextId + 1);
    assert AddVlanRun(t, []) == t && Front([v]) == [];
    assert AddVlanRun(t, [v]) == now;
    assert first in now.rows && row in now.rows;
    assert v in first.vids && v in row.vids;
    assert Share(first, row);
  }

  /** Adding a port puts no two rows right. */
  lemma PortKeepsClash(t: Table, v: int, port: string, pvid: bool)
    requires Clash(t.rows)
    ensures Clash(MikrotikDriver.AddVlanToPort(t, v, port, pvid).table.rows)
  {
    if Find(t.rows, v).Some? {
      var row := Find(t.rows, v).value;
      PatchNothing(t.rows, row.id);
      ClashStays(t.rows, row.id, Enlarged(row, port, pvid, false));
      var f := Enlarged(row, port, pvid, true);
      ClashAppended(t.rows, Row(t.nextId, Value(f.vids, []), Value(f.tagged, []), Value(f.untagged, [])));
    }
  }

  /** On one VID that is there: the goal of the request is that of the call. */
  lemma PortGoal(view: map<int, Members>, v: int, port: string, pvid: bool)
    requires v in view
    ensures var q := AddVlanToPort(v, port, pvid);
            IdealStep(view, AddToPort(v, port, pvid)) == Goal(Ideal(view, q), Refused(view, q))
  {
  }

  lemma DeclaredFirst(view: map<int, Members>, v: int, port: string, pvid: bool)
    ensures var q, declared := AddVlanToPort(v, port, pvid), Declare(view, v);
            Ideal(declared, q) == Ideal(view, q) && Refused(declared, q) == Refused(view, q)
    ensures v in Ideal(view, AddVlanToPort(v, port, pvid))
  {
  }

  lemma AddVlanToPortOn(t: Table, vlans: seq<int>, v: int, port: string, pvid: bool)
    requires WellFormed(t)
    ensures ServedOn(t, vlans, AddVlanToPort(v, port, pvid)) <==> StaleGuard(t, vlans, AddVlanToPort(v, port, pvid))
  {
    var q, op := AddVlanToPort(v, port, pvid), AddToPort(v, port, pvid);
    if v in vlans {
      assert Calls(q, vlans) == [op];
      OneCallOf(t, vlans, q, op);
      if v in View(t.rows) {
        StepExact(t, op);
        PortGoal(View(t.rows), v, port, pvid);
      } else {
        DeclaredFirst(View(t.rows), v, port, pvid);
      }
    } else {
      if v in View(t.rows) {
        PortToNewVlan(t, vlans, v, port, pvid);
        ClashBreaks(ServeOne(t, vlans, q).table);
      } else {
        assert Calls(q, vlans) == [AddVlan([v]), op];
        TwoCallsOf(t, vlans, q, [v], op);
        AddedThenPort(t, v, port, pvid);
      }
    }
  }

  /** A VID that the list misses is added again, and then the port to the first of its two rows. */
  lemma PortToNewVlan(t: Table, vlans: seq<int>, v: int, port: string, pvid: bool)
    requires Bounded(t) && Find(t.rows, v).Some? && v !in vlans
    ensures Clash(ServeOne(t, vlans, AddVlanToPort(v, port, pvid)).table.rows)
  {
    var q, op := AddVlanToPort(v, port, pvid), AddToPort(v, port, pvid);
    assert Calls(q, vlans) == [AddVlan([v]), op];
    TwoCallsOf(t, vlans, q, [v], op);
    AddedAgain(t, v);
    PortKeepsClash(AddVlanRun(t, [v]), v, port, pvid);
  }

  /** A missing VID is added, and then the port to its row. */
  lemma AddedThenPort(t: Table, v: int, port: string, pvid: bool)
    requires WellFormed(t) && v !in View(t.rows)
    ensures var q, o := AddVlanToPort(v, port, pvid), Step(AddVlanRun(t, [v]), AddToPort(v, port, pvid));
            Means(o.table, Ideal(View(t.rows), q)) && o.raised == Refused(View(t.rows), q)
  {
    var now := AddVlanRun(t, [v]);
    AddedAlone(t, v);
    OneOp(t, AddVlan([v]));
    ViewWithOneVlan(View(t.rows), v);
    assert View(now.rows) == Declare(View(t.rows), v);
    StepExact(now, AddToPort(v, port, pvid));
    PortGoal(View(now.rows), v, port, pvid);
    DeclaredFirst(View(t.rows), v, port, pvid);
  }

  // ---------------------------------------------------------------- taking a port out

  lemma IdleExact(view: map<int, Members>, vids: seq<int>, port: string)
    ensures IdealDelPort(view, vids, port) == view <==> Idle(view, vids, port)
  {
    var after := IdealDelPort(view, vids, port);
    forall v | v in view
      ensures after[v] == view[v] <==> (v in vids ==> port !in view[v].tagged && port !in view[v].untagged)
    {
      var m := view[v];
      assert m.tagged - {port} == m.tagged <==> port !in m.tagged;
      assert m.untagged - {port} == m.untagged <==> port !in m.untagged;
    }
    if Idle(view, vids, port) {
      forall v | v in view
        ensures after[v] == view[v]
      {
        assert v in vids ==> port !in view[v].tagged && port !in view[v].untagged;
      }
    }
  }

  /** The call that goes through. */
  lemma DelVlansFromPortCalled(t: Table, vids: seq<int>, port: string)
    requires WellFormed(t)
    ensures var o := DelPortRun(t, vids, port);
            !o.raised && Means(o.table, Ideal(View(t.rows), DelVlansFromPort(vids, port)))
            <==> AllIn(View(t.rows), vids) && PortSafe(t.rows, vids)
  {
    if AllIn(View(t.rows), vids) {
      DelFromAll(t, vids, port);
      DelFromAllGoal(View(t.rows), vids, port);
      DelPortTableExact(t, vids, port);
    } else {
      DelFromSome(t, vids, port);
    }
  }

  lemma DelFromAll(t: Table, vids: seq<int>, port: string)
    requires WellFormed(t) && AllIn(View(t.rows), vids)
    ensures DelPortRun(t, vids, port) == Reply(DelPortTable(t, vids, port), false)
  {
    forall v | v in vids
      ensures Find(t.rows, v).Some?
    {
      assert v in View(t.rows);
    }
    DelPortClosedForm(t, vids, port);
  }

  lemma DelFromAllGoal(view: map<int, Members>, vids: seq<int>, port: string)
    requires AllIn(view, vids)
    ensures Ideal(view, DelVlansFromPort(vids, port)) == IdealDelPort(view, vids, port)
  {
  }

  lemma DelFromSome(t: Table, vids: seq<int>, port: string)
    requires WellFormed(t) && !AllIn(View(t.rows), vids)
    ensures DelPortRun(t, vids, port).raised
  {
    DelPortStops(t, vids, port);
    var v :| v in vids && v !in View(t.rows);
    assert v !in DeclaredPrefix(Vids(t.rows), vids);
  }

  lemma DelVlansFromPortOn(t: Table, vlans: seq<int>, vids: seq<int>, port: string)
    requires WellFormed(t)
    ensures ServedOn(t, vlans, DelVlansFromPort(vids, port)) <==> StaleGuard(t, vlans, DelVlansFromPort(vids, port))
  {
    var q := DelVlansFromPort(vids, port);
    NoneMissing(vids, vlans);
    if AllListed(vids, vlans) {
      OneCallOf(t, vlans, q, DelFromPort(vids, port));
      DelVlansFromPortCalled(t, vids, port);
    } else {
      NoCall(t, vlans, q);
      IdleExact(View(t.rows), vids, port);
    }
  }

  /**
   * On any table, shared rows and repeated VIDs included: a request served on an outdated VLAN list does
   * what it is for, and raises just when it ought to, if and only if the guard holds before it.
   */
  lemma StaleExact(t: Table, vlans: seq<int>, q: Request)
    requires WellFormed(t)
    ensures ServedOn(t, vlans, q) <==> StaleGuard(t, vlans, q)
  {
    match q
    case AddVlans(vids) => AddVlansOn(t, vlans, vids);
    case DelVlans(vids, force) => DelVlansOn(t, vlans, vids, force);
    case AddVlanToPort(v, port, pvid) => AddVlanToPortOn(t, vlans, v, port, pvid);
    case DelVlansFromPort(vids, port) => DelVlansFromPortOn(t, vlans, vids, port);
  }

  // ---------------------------------------------------------------- sequences on one reading of the view

  /** The table after each request, all of them served on the VLAN list `vlans`. */
  function ServeOn(t: Table, vlans: seq<int>, qs: seq<Request>): Table {
    if qs == [] then t else ServeOne(ServeOn(t, vlans, Front(qs)), vlans, Last(qs)).table
  }

  ghost predicate ServedThroughout(t: Table, vlans: seq<int>, qs: seq<Request>) {
    qs != [] ==> ServedThroughout(t, vlans, Front(qs)) && ServedOn(ServeOn(t, vlans, Front(qs)), vlans, Last(qs))
  }

  ghost predicate GuardedThroughout(t: Table, vlans: seq<int>, qs: seq<Request>) {
    qs != [] ==> GuardedThroughout(t, vlans, Front(qs)) && StaleGuard(ServeOn(t, vlans, Front(qs)), vlans, Last(qs))
  }

  lemma {:induction false} ServedMeans(t: Table, vlans: seq<int>, qs: seq<Request>)
    requires WellFormed(t) && ServedThroughout(t, vlans, qs)
    ensures Means(ServeOn(t, vlans, qs), IdealServe(View(t.rows), qs))
  {
    if qs != [] {
      ServedMeans(t, vlans, Front(qs));
    }
  }

  /**
   * Requests served one after the other on the VLAN list of the beginning, from any table: every one of
   * them does what it is for, and raises just when it ought to, if and only if every one passes its guard.
   * The table then means what all of them were for.
   */
  lemma {:induction false} ServeOnExact(t: Table, vlans: seq<int>, qs: seq<Request>)
    requires WellFormed(t)
    ensures ServedThroughout(t, vlans, qs) <==> GuardedThroughout(t, vlans, qs)
    ensures ServedThroughout(t, vlans, qs) ==> Means(ServeOn(t, vlans, qs), IdealServe(View(t.rows), qs))
  {
    if qs != [] {
      ServeOnExact(t, vlans, Front(qs));
      if ServedThroughout(t, vlans, Front(qs)) {
        StaleExact(ServeOn(t, vlans, Front(qs)), vlans, Last(qs));
      }
    }
  }

  // ---------------------------------------------------------------- tables with a row per VID

  /** The guard on a table with a row per VID speaks of the plain map and the VLAN list only. */
  ghost predicate Harmless(view: map<int, Members>, vlans: seq<int>, q: Request) {
    match q
    case AddVlans(vids) => MissingOnce(vids, vlans) && forall v :: v in vids ==> Current(view, vlans, v)
    case DelVlans(vids, force) =>
      if !force && !AllListed(vids, vlans) then !AllIn(view, vids)
      else
        && ListedOnce(view, Select(vids, vlans, true))
        && if force then forall v :: v in vids && v in view ==> v in vlans else AllIn(view, vids) || NoneIn(view, vids)
    case AddVlanToPort(v, _, _) => Current(view, vlans, v)
    case DelVlansFromPort(vids, port) =>
      if AllListed(vids, vlans) then AllIn(view, vids) else !AllIn(view, vids) || Idle(view, vids, port)
  }

  /** No VID that is there is listed twice. */
  ghost predicate ListedOnce(view: map<int, Members>, vids: seq<int>) {
    forall i, j :: 0 <= i < j < |vids| && vids[i] == vids[j] ==> vids[i] !in view
  }

  lemma UnsharedDelSafe(rows: seq<Row>, vids: seq<int>)
    requires Unshared(rows)
    ensures DelSafe(rows, vids) <==> ListedOnce(View(rows), vids)
  {
    forall i, j | 0 <= i < j < |vids| && Find(rows, vids[i]).Some?
      ensures Find(rows, vids[i]) == Find(rows, vids[j]) <==> vids[i] == vids[j]
      ensures |Find(rows, vids[i]).value.vids| == 1
    {
      UnsharedRow(rows, vids[i]);
      UnsharedRow(rows, vids[j]);
    }
    if DelSafe(rows, vids) {
      forall i, j | 0 <= i < j < |vids| && vids[i] == vids[j]
        ensures vids[i] !in View(rows)
      {
        assert Find(rows, vids[i]) == Find(rows, vids[j]);
      }
    }
  }

  lemma UnsharedStale(t: Table, vlans: seq<int>, q: Request)
    requires WellFormed(t) && Unshared(t.rows)
    ensures StaleGuard(t, vlans, q) <==> Harmless(View(t.rows), vlans, q)
  {
    match q
    case AddVlans(_) =>
    case DelVlans(vids, _) =>
      UnsharedDelSafe(t.rows, Select(vids, vlans, true));
    case AddVlanToPort(v, _, _) =>
      UnsharedRow(t.rows, v);
    case DelVlansFromPort(vids, _) =>
      forall v {
        UnsharedRow(t.rows, v);
      }
  }

  lemma ServeKeepsUnshared(t: Table, vlans: seq<int>, q: Request)
    requires WellFormed(t) && Unshared(t.rows) && StaleGuard(t, vlans, q)
    ensures Unshared(ServeOne(t, vlans, q).table.rows)
  {
    match q
    case AddVlans(vids) =>
      AddVlansCall(t, vlans, vids);
      AddVlanKeepsUnshared(t, Select(vids, vlans, false));
    case DelVlans(vids, force) =>
      DelVlansKeepUnshared(t, vlans, vids, force);
    case AddVlanToPort(v, port, pvid) =>
      AddVlanToPortKeepsUnshared(t, vlans, v, port, pvid);
    case DelVlansFromPort(vids, port) =>
      NoneMissing(vids, vlans);
      if AllListed(vids, vlans) {
        OneCallOf(t, vlans, q, DelFromPort(vids, port));
        DelPortKeepsUnshared(t, vids, port);
      } else {
        NoCall(t, vlans, q);
      }
  }

  lemma DelVlansKeepUnshared(t: Table, vlans: seq<int>, vids: seq<int>, force: bool)
    requires WellFormed(t) && Unshared(t.rows) && StaleGuard(t, vlans, DelVlans(vids, force))
    ensures Unshared(ServeOne(t, vlans, DelVlans(vids, force)).table.rows)
  {
    var existing := Select(vids, vlans, true);
    NoneMissing(vids, vlans);
    if force || AllListed(vids, vlans) {
      OneCallOf(t, vlans, DelVlans(vids, force), DelVlan(existing));
      StepKeepsUnshared(t, DelVlan(existing));
    } else {
      NoCall(t, vlans, DelVlans(vids, force));
    }
  }

  lemma AddVlanToPortKeepsUnshared(t: Table, vlans: seq<int>, v: int, port: string, pvid: bool)
    requires Unshared(t.rows)
    ensures Unshared(ServeOne(t, vlans, AddVlanToPort(v, port, pvid)).table.rows)
  {
    var q, op := AddVlanToPort(v, port, pvid), AddToPort(v, port, pvid);
    if v in vlans {
      assert Calls(q, vlans) == [op];
      OneCallOf(t, vlans, q, op);
      AddToPortKeepsUnshared(t, v, port, pvid);
    } else {
      assert Calls(q, vlans) == [AddVlan([v]), op];
      TwoCallsOf(t, vlans, q, [v], op);
      AddVlanKeepsUnshared(t, [v]);
      AddToPortKeepsUnshared(AddVlanRun(t, [v]), v, port, pvid);
    }
  }

  ghost predicate HarmlessThroughout(view: map<int, Members>, vlans: seq<int>, qs: seq<Request>) {
    qs != [] ==>
      HarmlessThroughout(view, vlans, Front(qs)) && Harmless(IdealServe(view, Front(qs)), vlans, Last(qs))
  }

  /** From one row per VID the condition on the whole sequence speaks of the plain map and the VLAN list only. */
  lemma {:induction false} ServeOnUnshared(t: Table, vlans: seq<int>, qs: seq<Request>)
    requires WellFormed(t) && Unshared(t.rows)
    ensures ServedThroughout(t, vlans, qs) <==> HarmlessThroughout(View(t.rows), vlans, qs)
    ensures ServedThroughout(t, vlans, qs) ==> Unshared(ServeOn(t, vlans, qs).rows)
  {
    if qs != [] {
      ServeOnUnshared(t, vlans, Front(qs));
      if ServedThroughout(t, vlans, Front(qs)) {
        var now := ServeOn(t, vlans, Front(qs));
        ServedMeans(t, vlans, Front(qs));
        StaleExact(now, vlans, Last(qs));
        UnsharedStale(now, vlans, Last(qs));
        if StaleGuard(now, vlans, Last(qs)) {
          ServeKeepsUnshared(now, vlans, Last(qs));
        }
      }
    }
  }

  // ---------------------------------------------------------------- requests about different VIDs

  /** The VIDs that a request may add or delete. */
  ghost predicate Changes(q: Request, v: int) {
    match q
    case AddVlans(vids) => v in vids
    case DelVlans(vids, _) => v in vids
    case AddVlanToPort(w, _, _) => v == w
    case DelVlansFromPort(_, _) => false
  }

  ghost predicate Names(q: Request, v: int) {
    match q
    case AddVlans(vids) => v in vids
    case DelVlans(vids, _) => v in vids
    case AddVlanToPort(w, _, _) => v == w
    case DelVlansFromPort(vids, _) => v in vids
  }

  lemma {:induction false} StaysCurrent(view: map<int, Members>, vlans: seq<int>, qs: seq<Request>, v: int)
    requires Current(view, vlans, v) && forall q <- qs :: !Changes(q, v)
    ensures Current(IdealServe(view, qs), vlans, v)
  {
    if qs != [] {
      var q := qs[|qs| - 1];
      assert q in qs;
      StaysCurrent(view, vlans, Front(qs), v);
    }
  }

  lemma {:induction false} SelectSame(vids: seq<int>, vlans: seq<int>, other: seq<int>, present: bool)
    requires forall v <- vids :: v in vlans <==> v in other
    ensures Select(vids, vlans, present) == Select(vids, other, present)
  {
    if vids != [] {
      var v := vids[|vids| - 1];
      assert v in vids && (v in vlans <==> v in other);
      assert vids == Front(vids) + [v];
      SelectSame(Front(vids), vlans, other, present);
    }
  }

  /** A request comes to the same calls on two lists that agree on the VIDs that it names. */
  lemma SameCalls(q: Request, vlans: seq<int>, other: seq<int>)
    requires forall v :: Names(q, v) ==> (v in vlans <==> v in other)
    ensures Calls(q, vlans) == Calls(q, other)
  {
    match q
    case AddVlans(vids) => SelectSame(vids, vlans, other, false);
    case DelVlans(vids, _) =>
      SelectSame(vids, vlans, other, false);
      SelectSame(vids, vlans, other, true);
    case AddVlanToPort(v, _, _) =>
      assert Names(q, v);
    case DelVlansFromPort(vids, _) => SelectSame(vids, vlans, other, false);
  }

  /** No later request names a VID that an earlier one adds or deletes. */
  ghost predicate Independent(qs: seq<Request>) {
    forall i, j, v :: 0 <= i < j < |qs| && Changes(qs[i], v) ==> !Names(qs[j], v)
  }

  /** Served with the view refreshed before every request. */
  ghost predicate ServedFresh(t: Table, qs: seq<Request>) {
    qs != [] ==>
      var now := Serve(t, Front(qs));
      ServedFresh(t, Front(qs)) && ServedOn(now, VlansOf(now.rows), Last(qs))
  }

  lemma IndependentFront(qs: seq<Request>, v: int)
    requires qs != [] && Independent(qs)
    ensures Independent(Front(qs))
    ensures Names(Last(qs), v) ==> forall q <- Front(qs) :: !Changes(q, v)
  {
    var before := Front(qs);
    assert forall i :: 0 <= i < |before| ==> before[i] == qs[i];
    if Names(Last(qs), v) {
      forall q | q in before
        ensures !Changes(q, v)
      {
        var i :| 0 <= i < |before| && before[i] == q;
        assert qs[i] == q && qs[|qs| - 1] == Last(qs);
      }
    }
  }

  /** After requests about other VIDs the next one comes to the same calls on the old list as on a fresh one. */
  lemma OldListWillDo(t: Table, now: Table, qs: seq<Request>)
    requires qs != [] && Independent(qs) && Means(now, IdealServe(View(t.rows), Front(qs)))
    ensures Calls(Last(qs), VlansOf(t.rows)) == Calls(Last(qs), VlansOf(now.rows))
  {
    var view, vlans, q := View(t.rows), VlansOf(t.rows), Last(qs);
    forall v | Names(q, v)
      ensures v in vlans <==> v in VlansOf(now.rows)
    {
      FreshView(t, v);
      FreshView(now, v);
      IndependentFront(qs, v);
      StaysCurrent(view, vlans, Front(qs), v);
    }
    SameCalls(q, vlans, VlansOf(now.rows));
  }

  /**
   * Requests of which no later one names a VID that an earlier one adds or deletes need no fresh view: on
   * any table the old one serves them exactly when a fresh one does, and leaves the same table.
   */
  lemma {:induction false} IndependentServed(t: Table, qs: seq<Request>)
    requires WellFormed(t) && Independent(qs)
    ensures ServedThroughout(t, VlansOf(t.rows), qs) <==> ServedFresh(t, qs)
    ensures ServedFresh(t, qs) ==> ServeOn(t, VlansOf(t.rows), qs) == Serve(t, qs)
  {
    if qs != [] {
      IndependentFront(qs, 0);
      IndependentServed(t, Front(qs));
      if ServedFresh(t, Front(qs)) {
        ServedMeans(t, VlansOf(t.rows), Front(qs));
        OldListWillDo(t, Serve(t, Front(qs)), qs);
      }
    }
  }

  // ---------------------------------------------------------------- a new VID

  /** On every table a new VID ends up in two rows when it is added and then a port to it. */
  lemma NewVlanTwice(t: Table, v: int, port: string)
    requires WellFormed(t) && v !in View(t.rows)
    ensures !WellFormed(ServeOn(t, VlansOf(t.rows), [AddVlans([v]), AddVlanToPort(v, port, false)]))
  {
    var vlans, add, q := VlansOf(t.rows), AddVlans([v]), AddVlanToPort(v, port, false);
    FreshView(t, v);
    AddedAlone(t, v);
    AddNewVlan(t, vlans, v);
    PortToNewVlan(AddVlanRun(t, [v]), vlans, v, port, false);
    ServeTwo(t, vlans, add, q);
    ClashBreaks(ServeOn(t, vlans, [add, q]));
  }

  lemma ServeTwo(t: Table, vlans: seq<int>, q: Request, next: Request)
    ensures ServeOn(t, vlans, [q, next]) == ServeOne(ServeOne(t, vlans, q).table, vlans, next).table
  {
    assert Front([q]) == [] && Front([q, next]) == [q];
    assert ServeOn(t, vlans, []) == t;
    assert ServeOn(t, vlans, [q]) == ServeOne(t, vlans, q).table;
  }

  lemma AddNewVlan(t: Table, vlans: seq<int>, v: int)
    requires v !in vlans
    ensures ServeOne(t, vlans, AddVlans([v])) == Reply(AddVlanRun(t, [v]), false)
  {
    assert Front([v]) == [];
    assert Select([v], vlans, false) == [v];
    AddVlansCall(t, vlans, [v]);
  }
}
