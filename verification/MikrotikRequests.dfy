/**
 * The VLAN requests of the switch base class on a MikroTik switch: its guards look at the view of the
 * device and then call the driver. Here the view is that of the table at the time of the request.
 */
module MikrotikRequests {
  import opened Common
  import opened BridgeTable
  import opened MikrotikDelete
  import opened MikrotikDeletePort
  import opened MikrotikDriver
  import opened MikrotikRuns
  import opened MikrotikSwitch

  datatype Request =
    | AddVlans(vids: seq<int>)
    | DelVlans(vids: seq<int>, force: bool)
    | AddVlanToPort(vid: int, port: string, pvid: bool)
    | DelVlansFromPort(vids: seq<int>, port: string)

  function Select(vids: seq<int>, vlans: seq<int>, present: bool): (r: seq<int>)
    ensures forall v :: v in r <==> v in vids && (v in vlans) == present
    ensures NoDup(vids) ==> NoDup(r)
  {
    if vids == [] then []
    else
      var rest := Select(Front(vids), vlans, present);
      assert vids == Front(vids) + [Last(vids)];
      assert forall i :: 0 <= i < |rest| ==> rest[i] in rest;
      assert NoDup(vids) ==> Last(vids) !in Front(vids);
      if (Last(vids) in vlans) == present then rest + [Last(vids)] else rest
  }

  /** What is selected stays in order. */
  lemma {:induction false} SelectInOrder(vids: seq<int>, vlans: seq<int>, present: bool, k: nat)
    requires k <= |vids|
    ensures Select(vids[..k], vlans, present) <= Select(vids, vlans, present)
  {
    if k == |vids| {
      assert vids[..k] == vids;
    } else {
      assert Front(vids)[..k] == vids[..k];
      SelectInOrder(Front(vids), vlans, present, k);
    }
  }

  /**
   * The driver calls that a request comes to, for a port that exists in the mode asked for. `vlans` is
   * the list in the view. The membership guards of the trunk and access lists never hold a call back,
   * because those lists hold text.
   */
  function Calls(q: Request, vlans: seq<int>): seq<Op> {
    match q
    case AddVlans(vids) =>
      var missing := Select(vids, vlans, false);
      if missing == [] then [] else [AddVlan(missing)]
    case DelVlans(vids, force) =>
      if !force && Select(vids, vlans, false) != [] then [] else [DelVlan(Select(vids, vlans, true))]
    case AddVlanToPort(vid, port, pvid) =>
      (if vid in vlans then [] else [AddVlan([vid])]) + [AddToPort(vid, port, pvid)]
    case DelVlansFromPort(vids, port) =>
      if Select(vids, vlans, false) != [] then [] else [DelFromPort(vids, port)]
  }

  /** The table after each request, repaired: `update_info` refreshes the view in between. */
  function Serve(t: Table, qs: seq<Request>): Table {
    if qs == [] then t
    else
      var now := Serve(t, Front(qs));
      Run(now, Calls(Last(qs), VlansOf(now.rows))).0
  }

  // ---------------------------------------------------------------- what a request is for

  ghost function Declare(view: map<int, Members>, v: int): map<int, Members> {
    if v in view then view else view[v := Members({BRIDGE}, {})]
  }

  ghost function Ideal(view: map<int, Members>, q: Request): map<int, Members> {
    match q
    case AddVlans(vids) => ViewWithVlans(view, vids)
    case DelVlans(vids, force) =>
      if !force && exists v :: v in vids && v !in view then view else view - Elements(vids)
    case AddVlanToPort(v, port, pvid) =>
      var declared := Declare(view, v);
      var m := declared[v];
      if port in (if pvid then m.tagged else m.untagged) then declared else declared[v := WithPort(m, port, pvid)]
    case DelVlansFromPort(vids, port) =>
      if exists v :: v in vids && v !in view then view else IdealDelPort(view, vids, port)
  }

  ghost function IdealServe(view: map<int, Members>, qs: seq<Request>): map<int, Members> {
    if qs == [] then view else Ideal(IdealServe(view, Front(qs)), Last(qs))
  }

  ghost predicate Distinct(q: Request) {
    match q
    case AddVlans(vids) => NoDup(vids)
    case DelVlans(vids, _) => NoDup(vids)
    case _ => true
  }

  lemma {:induction false} DeclaredAll(declared: set<int>, vids: seq<int>)
    requires forall v :: v in vids ==> v in declared
    ensures DeclaredPrefix(declared, vids) == vids
  {
    if vids != [] {
      var v := vids[|vids| - 1];
      assert v in vids;
      assert vids == Front(vids) + [Last(vids)];
      DeclaredAll(declared, Front(vids));
    }
  }

  lemma FreshView(t: Table, v: int)
    ensures v in VlansOf(t.rows) <==> v in View(t.rows)
  {
    VlansOfMeaning(t.rows);
  }

  lemma OneCall(t: Table, op: Op)
    requires WellFormed(t) && Unshared(t.rows) && Proper(View(t.rows), op)
    ensures var o := Step(t, op);
            WellFormed(o.table) && Unshared(o.table.rows) && View(o.table.rows) == IdealStep(View(t.rows), op).view
    ensures Run(t, [op]).0 == Step(t, op).table
  {
    UnsharedGuard(t, op);
    StepExact(t, op);
    StepKeepsUnshared(t, op);
    assert [op][1..] == [];
  }

  lemma ServeAdd(t: Table, vids: seq<int>)
    requires WellFormed(t) && Unshared(t.rows) && NoDup(vids)
    ensures Served(t, AddVlans(vids))
  {
    forall v { FreshView(t, v); }
    var missing := Select(vids, VlansOf(t.rows), false);
    if missing != [] {
      OneCall(t, AddVlan(missing));
    }
    MissingOnly(View(t.rows), vids, missing);
  }

  lemma MissingOnly(view: map<int, Members>, vids: seq<int>, missing: seq<int>)
    requires forall v :: v in missing <==> v in vids && v !in view
    ensures ViewWithVlans(view, missing) == ViewWithVlans(view, vids)
    ensures missing == [] ==> ViewWithVlans(view, vids) == view
  {
    var some, all := ViewWithVlans(view, missing), ViewWithVlans(view, vids);
    forall v
      ensures v in some <==> v in all
      ensures missing == [] ==> (v in all <==> v in view)
    {
      assert v in missing <==> v in vids && v !in view;
    }
  }

  lemma ServeDel(t: Table, vids: seq<int>, force: bool)
    requires WellFormed(t) && Unshared(t.rows) && NoDup(vids)
    ensures Served(t, DelVlans(vids, force))
  {
    Held(t, vids);
    var existing := Select(vids, VlansOf(t.rows), true);
    SelectExisting(t, vids);
    OneCall(t, DelVlan(existing));
    ExistingOnly(View(t.rows), vids, existing);
  }

  lemma SelectExisting(t: Table, vids: seq<int>)
    ensures forall v :: v in Select(vids, VlansOf(t.rows), true) <==> v in vids && v in View(t.rows)
  {
    forall v
      ensures v in Select(vids, VlansOf(t.rows), true) <==> v in vids && v in View(t.rows)
    {
      FreshView(t, v);
    }
  }

  lemma ExistingOnly(view: map<int, Members>, vids: seq<int>, existing: seq<int>)
    requires forall v :: v in existing <==> v in vids && v in view
    ensures view - Elements(existing) == view - Elements(vids)
  {
    forall v | v in view
      ensures v in Elements(existing) <==> v in Elements(vids)
    {
      assert v in existing <==> v in vids && v in view;
    }
  }

  lemma ServeAddToPort(t: Table, v: int, port: string, pvid: bool)
    requires WellFormed(t) && Unshared(t.rows)
    ensures Served(t, AddVlanToPort(v, port, pvid))
  {
    var op := AddToPort(v, port, pvid);
    FreshView(t, v);
    PortAdded(View(t.rows), v, port, pvid);
    if v in View(t.rows) {
      assert Calls(AddVlanToPort(v, port, pvid), VlansOf(t.rows)) == [op];
      OneCall(t, op);
    } else {
      assert Calls(AddVlanToPort(v, port, pvid), VlansOf(t.rows)) == [AddVlan([v]), op];
      TwoCallsMeet(t, AddVlan([v]), op);
    }
  }

  lemma TwoCallsMeet(t: Table, op: Op, next: Op)
    requires WellFormed(t) && Unshared(t.rows)
    requires Proper(View(t.rows), op) && Proper(IdealStep(View(t.rows), op).view, next)
    ensures var after := Run(t, [op, next]).0;
            && WellFormed(after) && Unshared(after.rows)
            && View(after.rows) == IdealStep(IdealStep(View(t.rows), op).view, next).view
  {
    OneCall(t, op);
    OneCall(Step(t, op).table, next);
    TwoCalls(t, op, next);
  }

  lemma TwoCalls(t: Table, op: Op, next: Op)
    ensures Run(t, [op, next]).0 == Step(Step(t, op).table, next).table
  {
    var o := Step(t, op);
    assert [next][1..] == [];
    assert Run(o.table, [next]).0 == Step(o.table, next).table;
    assert [op, next][1..] == [next];
  }

  /** Declaring the VID first, when it is missing, and then adding the port. */
  lemma PortAdded(view: map<int, Members>, v: int, port: string, pvid: bool)
    ensures var declared := if v in view then view else IdealStep(view, AddVlan([v])).view;
            IdealStep(declared, AddToPort(v, port, pvid)).view == Ideal(view, AddVlanToPort(v, port, pvid))
  {
    ViewWithOneVlan(view, v);
    assert ViewWithVlans(view, [v]) == IdealStep(view, AddVlan([v])).view;
  }

  lemma ServeDelFromPort(t: Table, vids: seq<int>, port: string)
    requires WellFormed(t) && Unshared(t.rows)
    ensures Served(t, DelVlansFromPort(vids, port))
  {
    Held(t, vids);
    if Select(vids, VlansOf(t.rows), false) == [] {
      DeclaredAll(View(t.rows).Keys, vids);
      OneCall(t, DelFromPort(vids, port));
    }
  }

  /** The guard lets the call through exactly when every VID is there. */
  lemma Held(t: Table, vids: seq<int>)
    ensures Select(vids, VlansOf(t.rows), false) == [] <==> forall v :: v in vids ==> v in View(t.rows)
  {
    var missing := Select(vids, VlansOf(t.rows), false);
    forall v
      ensures v in missing <==> v in vids && v !in View(t.rows)
    {
      FreshView(t, v);
    }
    if missing != [] {
      var v := missing[0];
      assert v in missing;
      assert v in vids && v !in View(t.rows);
    } else {
      forall v | v in vids
        ensures v in View(t.rows)
      {
        assert v !in missing;
      }
    }
  }

  ghost predicate Served(t: Table, q: Request) {
    var after := Run(t, Calls(q, VlansOf(t.rows))).0;
    WellFormed(after) && Unshared(after.rows) && View(after.rows) == Ideal(View(t.rows), q)
  }

  lemma RequestServed(t: Table, q: Request)
    requires WellFormed(t) && Unshared(t.rows) && Distinct(q)
    ensures Served(t, q)
  {
    match q
    case AddVlans(vids) => ServeAdd(t, vids);
    case DelVlans(vids, force) => ServeDel(t, vids, force);
    case AddVlanToPort(v, port, pvid) => ServeAddToPort(t, v, port, pvid);
    case DelVlansFromPort(vids, port) => ServeDelFromPort(t, vids, port);
  }

  /**
   * Repaired, with the view refreshed before every request, whatever sequence of requests a switch is
   * sent, starting from a table with a row per VID: the table keeps that form and always means the plain
   * map that the requests describe.
   */
  lemma {:induction false} RequestsServed(t: Table, qs: seq<Request>)
    requires WellFormed(t) && Unshared(t.rows) && forall q <- qs :: Distinct(q)
    ensures WellFormed(Serve(t, qs)) && Unshared(Serve(t, qs).rows)
    ensures View(Serve(t, qs).rows) == IdealServe(View(t.rows), qs)
  {
    if qs != [] {
      assert qs == Front(qs) + [Last(qs)];
      assert Distinct(qs[|qs| - 1]);
      RequestsServed(t, Front(qs));
      RequestServed(Serve(t, Front(qs)), Last(qs));
    }
  }

  // ---------------------------------------------------------------- one request on any table

  /** No VID that is missing is listed twice. */
  predicate MissingOnce(vids: seq<int>, vlans: seq<int>) {
    forall i, j :: 0 <= i < j < |vids| && vids[i] == vids[j] ==> vids[i] in vlans
  }

  lemma {:induction false} SelectOnce(vids: seq<int>, vlans: seq<int>)
    ensures NoDup(Select(vids, vlans, false)) <==> MissingOnce(vids, vlans)
  {
    if vids != [] {
      var before, v := Front(vids), vids[|vids| - 1];
      SelectOnce(before, vlans);
      assert vids == before + [v];
      MissingOnceSnoc(before, v, vlans);
      NoDupSnoc(Select(before, vlans, false), v);
    }
  }

  lemma NoDupSnoc(s: seq<int>, v: int)
    ensures NoDup(s + [v]) <==> NoDup(s) && v !in s
  {
    NoDupConcat(s, [v]);
  }

  lemma MissingOnceSnoc(vids: seq<int>, v: int, vlans: seq<int>)
    ensures MissingOnce(vids + [v], vlans) <==> MissingOnce(vids, vlans) && (v in vids ==> v in vlans)
  {
    var all := vids + [v];
    assert forall i :: 0 <= i < |vids| ==> all[i] == vids[i];
    if v in vids {
      var i :| 0 <= i < |vids| && vids[i] == v;
      assert all[i] == all[|vids|];
    }
  }

  /** A condition on table and request that a caller can check before the call. */
  ghost predicate RequestGuard(t: Table, q: Request) {
    match q
    case AddVlans(vids) => MissingOnce(vids, VlansOf(t.rows))
    case DelVlans(vids, force) =>
      (!force && exists v :: v in vids && v !in View(t.rows)) || DelSafe(t.rows, Select(vids, VlansOf(t.rows), true))
    case AddVlanToPort(v, port, pvid) => v in View(t.rows) ==> Guard(t, AddToPort(v, port, pvid))
    case DelVlansFromPort(vids, port) => (exists v :: v in vids && v !in View(t.rows)) || PortSafe(t.rows, vids)
  }

  lemma OneOp(t: Table, op: Op)
    requires WellFormed(t)
    ensures MeetsThroughout(t, [op]) <==> Guard(t, op)
    ensures Run(t, [op]).0 == Step(t, op).table
    ensures Guard(t, op) ==>
      WellFormed(Step(t, op).table) && View(Step(t, op).table.rows) == IdealStep(View(t.rows), op).view
  {
    StepExact(t, op);
    assert [op][1..] == [];
  }

  /** A VLAN just added has a row of its own. */
  lemma AddedAlone(t: Table, v: int)
    requires WellFormed(t) && v !in View(t.rows)
    ensures var now := Step(t, AddVlan([v])).table;
            Guard(t, AddVlan([v])) && WellFormed(now) && v in View(now.rows) && !Shared(now.rows, v)
  {
    var row := Row(t.nextId, [v], [BRIDGE], []);
    assert AddVlanRun(t, []) == t && Front([v]) == [];
    assert AddVlanRun(t, [v]) == t.(rows := t.rows + [row], nextId := t.nextId + 1);
    PutKeeps(t, row);
    assert Find(t.rows + [row], v) == Some(row);
  }

  lemma AddVlanToPortExact(t: Table, v: int, port: string, pvid: bool)
    requires WellFormed(t)
    ensures MeetsThroughout(t, Calls(AddVlanToPort(v, port, pvid), VlansOf(t.rows)))
       <==> RequestGuard(t, AddVlanToPort(v, port, pvid))
    ensures RequestGuard(t, AddVlanToPort(v, port, pvid)) ==> Meaning(t, AddVlanToPort(v, port, pvid))
  {
    var q, op := AddVlanToPort(v, port, pvid), AddToPort(v, port, pvid);
    FreshView(t, v);
    PortAdded(View(t.rows), v, port, pvid);
    if v in View(t.rows) {
      assert Calls(q, VlansOf(t.rows)) == [op];
      OneOp(t, op);
    } else {
      assert Calls(q, VlansOf(t.rows)) == [AddVlan([v]), op];
      AddedAlone(t, v);
      TwoOps(t, AddVlan([v]), op);
    }
  }

  lemma TwoOps(t: Table, op: Op, next: Op)
    requires WellFormed(t) && Guard(t, op) && Guard(Step(t, op).table, next)
    ensures MeetsThroughout(t, [op, next])
    ensures var after := Run(t, [op, next]).0;
            WellFormed(after) && View(after.rows) == IdealStep(IdealStep(View(t.rows), op).view, next).view
  {
    OneOp(t, op);
    OneOp(Step(t, op).table, next);
    TwoCalls(t, op, next);
    assert [op, next][1..] == [next];
  }

  /** The table means afterwards what the request is for. */
  ghost predicate Meaning(t: Table, q: Request) {
    var after := Run(t, Calls(q, VlansOf(t.rows))).0;
    WellFormed(after) && View(after.rows) == Ideal(View(t.rows), q)
  }

  lemma AddVlansExact(t: Table, vids: seq<int>)
    requires WellFormed(t)
    ensures MeetsThroughout(t, Calls(AddVlans(vids), VlansOf(t.rows))) <==> RequestGuard(t, AddVlans(vids))
    ensures RequestGuard(t, AddVlans(vids)) ==> Meaning(t, AddVlans(vids))
  {
    forall v { FreshView(t, v); }
    var missing := Select(vids, VlansOf(t.rows), false);
    SelectOnce(vids, VlansOf(t.rows));
    if missing != [] {
      OneOp(t, AddVlan(missing));
    }
    MissingOnly(View(t.rows), vids, missing);
  }

  lemma DelVlansExact(t: Table, vids: seq<int>, force: bool)
    requires WellFormed(t)
    ensures MeetsThroughout(t, Calls(DelVlans(vids, force), VlansOf(t.rows)))
       <==> RequestGuard(t, DelVlans(vids, force))
    ensures RequestGuard(t, DelVlans(vids, force)) ==> Meaning(t, DelVlans(vids, force))
  {
    Held(t, vids);
    var existing := Select(vids, VlansOf(t.rows), true);
    if force || Select(vids, VlansOf(t.rows), false) == [] {
      SelectExisting(t, vids);
      OneOp(t, DelVlan(existing));
      ExistingOnly(View(t.rows), vids, existing);
    }
  }

  lemma DelVlansFromPortExact(t: Table, vids: seq<int>, port: string)
    requires WellFormed(t)
    ensures MeetsThroughout(t, Calls(DelVlansFromPort(vids, port), VlansOf(t.rows)))
       <==> RequestGuard(t, DelVlansFromPort(vids, port))
    ensures RequestGuard(t, DelVlansFromPort(vids, port)) ==> Meaning(t, DelVlansFromPort(vids, port))
  {
    Held(t, vids);
    if Select(vids, VlansOf(t.rows), false) == [] {
      assert Calls(DelVlansFromPort(vids, port), VlansOf(t.rows)) == [DelFromPort(vids, port)];
      AllDeclared(t, vids, port);
      OneOp(t, DelFromPort(vids, port));
    }
  }

  lemma AllDeclared(t: Table, vids: seq<int>, port: string)
    requires forall v :: v in vids ==> v in View(t.rows)
    ensures Guard(t, DelFromPort(vids, port)) == PortSafe(t.rows, vids)
    ensures IdealStep(View(t.rows), DelFromPort(vids, port)).view == IdealDelPort(View(t.rows), vids, port)
  {
    assert View(t.rows).Keys == Vids(t.rows);
    DeclaredAll(View(t.rows).Keys, vids);
  }

  /**
   * One request on any table, shared rows and repeated VIDs included: every call it comes to does what it
   * is for if and only if the guard holds; and then the request does to the plain map what it is for.
   */
  lemma RequestExact(t: Table, q: Request)
    requires WellFormed(t)
    ensures MeetsThroughout(t, Calls(q, VlansOf(t.rows))) <==> RequestGuard(t, q)
    ensures RequestGuard(t, q) ==> Meaning(t, q)
  {
    match q
    case AddVlans(vids) => AddVlansExact(t, vids);
    case DelVlans(vids, force) => DelVlansExact(t, vids, force);
    case AddVlanToPort(v, port, pvid) => AddVlanToPortExact(t, v, port, pvid);
    case DelVlansFromPort(vids, port) => DelVlansFromPortExact(t, vids, port);
  }

  // ---------------------------------------------------------------- view and driver repaired

  /** The plain run of the calls that a request comes to on a list that is right about every VID. */
  lemma CallsMean(view: map<int, Members>, vlans: seq<int>, q: Request)
    requires forall v :: v in vlans <==> v in view
    ensures IdealRun(view, Calls(q, vlans)).0 == Ideal(view, q)
  {
    match q
    case AddVlans(vids) =>
      MissingOnly(view, vids, Select(vids, vlans, false));
      IdealOne(view, AddVlan(Select(vids, vlans, false)));
    case DelVlans(vids, force) =>
      ExistingOnly(view, vids, Select(vids, vlans, true));
      IdealOne(view, DelVlan(Select(vids, vlans, true)));
      NoneMissing(vids, vlans);
    case AddVlanToPort(v, port, pvid) =>
      PortAdded(view, v, port, pvid);
      IdealOne(view, AddToPort(v, port, pvid));
      IdealTwo(view, AddVlan([v]), AddToPort(v, port, pvid));
      assert v in vlans ==> Calls(q, vlans) == [AddToPort(v, port, pvid)];
      assert v !in vlans ==> Calls(q, vlans) == [AddVlan([v]), AddToPort(v, port, pvid)];
    case DelVlansFromPort(vids, port) =>
      NoneMissing(vids, vlans);
      IdealOne(view, DelFromPort(vids, port));
      if Select(vids, vlans, false) == [] {
        DeclaredAll(view.Keys, vids);
      }
  }

  lemma IdealOne(view: map<int, Members>, op: Op)
    ensures IdealRun(view, []).0 == view
    ensures IdealRun(view, [op]).0 == IdealStep(view, op).view
  {
    assert [op][1..] == [];
  }

  lemma IdealTwo(view: map<int, Members>, op: Op, next: Op)
    ensures IdealRun(view, [op, next]).0 == IdealStep(IdealStep(view, op).view, next).view
  {
    IdealOne(IdealStep(view, op).view, next);
    assert [op, next][1..] == [next];
  }

  predicate AllListed(vids: seq<int>, vlans: seq<int>) {
    forall v <- vids :: v in vlans
  }

  lemma NoneMissing(vids: seq<int>, vlans: seq<int>)
    ensures Select(vids, vlans, false) == [] <==> AllListed(vids, vlans)
  {
    var missing := Select(vids, vlans, false);
    if missing != [] {
      var v := missing[0];
      assert v in missing;
      assert v in vids && v !in vlans;
    } else {
      forall v | v in vids
        ensures v in vlans
      {
        assert v !in missing;
      }
    }
  }

  /** The table after each request with the view refreshed before it and the driver repaired. */
  function ServeRepaired(t: Table, qs: seq<Request>): Table {
    if qs == [] then t
    else
      var now := ServeRepaired(t, Front(qs));
      RepairedRun(now, Calls(Last(qs), VlansOf(now.rows))).0
  }

  /**
   * With view and driver repaired, every sequence of requests from every table, shared rows and repeated
   * VIDs included: each VID stays in one row, and the table always means the plain map.
   */
  lemma {:induction false} RepairedServed(t: Table, qs: seq<Request>)
    requires WellFormed(t)
    ensures WellFormed(ServeRepaired(t, qs)) && View(ServeRepaired(t, qs).rows) == IdealServe(View(t.rows), qs)
  {
    if qs != [] {
      RepairedServed(t, Front(qs));
      RepairedOnce(ServeRepaired(t, Front(qs)), Last(qs));
    }
  }

  lemma RepairedOnce(t: Table, q: Request)
    requires WellFormed(t)
    ensures var after := RepairedRun(t, Calls(q, VlansOf(t.rows))).0;
            WellFormed(after) && View(after.rows) == Ideal(View(t.rows), q)
  {
    forall v { FreshView(t, v); }
    RepairedRunRefines(t, Calls(q, VlansOf(t.rows)));
    CallsMean(View(t.rows), VlansOf(t.rows), q);
  }
}
