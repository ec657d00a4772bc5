/**
 * `add_port_vlan` on a port of a MikroTik switch: the VLANs are added, and then the port to one after the
 * other, all on the view of the beginning. An exception ends the request where it is raised.
 */
module MikrotikPortVlans {
  import opened Common
  import opened BridgeTable
  import opened MikrotikDelete
  import opened MikrotikDeletePort
  import opened MikrotikDriver
  import opened MikrotikRuns
  import opened MikrotikSwitch
  import opened MikrotikRequests
  import opened MikrotikStale

  // ---------------------------------------------------------------- the request

  /** The loop over the VIDs. */
  function TagAll(t: Table, vlans: seq<int>, vids: seq<int>, port: string): Reply {
    if vids == [] then Reply(t, false)
    else
      var o := TagAll(t, vlans, Front(vids), port);
      if o.raised then o else ServeOne(o.table, vlans, AddVlanToPort(Last(vids), port, false))
  }

  /** A request without VIDs is an error. */
  function AddPortVlan(t: Table, vids: seq<int>, port: string): Reply {
    var vlans := VlansOf(t.rows);
    if vids == [] then Reply(t, true) else TagAll(ServeOne(t, vlans, AddVlans(vids)).table, vlans, vids, port)
  }

  lemma {:induction false} RaiseStopsTagging(t: Table, vlans: seq<int>, vids: seq<int>, port: string, n: nat)
    requires n <= |vids| && TagAll(t, vlans, vids[..n], port).raised
    ensures TagAll(t, vlans, vids, port) == TagAll(t, vlans, vids[..n], port)
  {
    if n == |vids| {
      assert vids[..n] == vids;
    } else {
      assert Front(vids)[..n] == vids[..n];
      RaiseStopsTagging(t, vlans, Front(vids), port, n);
    }
  }

  /** `add_vlan` of the base class. */
  method AddMissing(s: Microtik, vids: seq<int>)
    modifies s.rest
    ensures Reply(s.rest.table, false) == ServeOne(old(s.rest.table), s.vlans, AddVlans(vids))
  {
    var missing := Select(vids, s.vlans, false);
    AddVlansCall(s.rest.table, s.vlans, vids);
    if missing != [] {
      s.AddVlan(missing);
    }
  }

  /** `add_vlan_to_port` of the base class, for a port that exists in the mode asked for. */
  method AddToPortOf(s: Microtik, vid: int, port: string, pvid: bool) returns (raised: bool)
    modifies s.rest
    ensures var q := MikrotikRequests.AddVlanToPort(vid, port, pvid);
            Reply(s.rest.table, raised) == ServeOne(old(s.rest.table), s.vlans, q)
  {
    ghost var q, op := MikrotikRequests.AddVlanToPort(vid, port, pvid), AddToPort(vid, port, pvid);
    if vid !in s.vlans {
      AddNewVlan(s.rest.table, s.vlans, vid);
      assert Calls(q, s.vlans) == [AddVlan([vid]), op];
      TwoCallsOf(s.rest.table, s.vlans, q, [vid], op);
      AddMissing(s, [vid]);
    } else {
      assert Calls(q, s.vlans) == [op];
      OneCallOf(s.rest.table, s.vlans, q, op);
    }
    raised := s.AddVlanToPort(vid, port, pvid);
  }

  method TagPorts(s: Microtik, vids: seq<int>, port: string) returns (raised: bool)
    modifies s.rest
    ensures Reply(s.rest.table, raised) == TagAll(old(s.rest.table), s.vlans, vids, port)
  {
    raised := false;
    for k := 0 to |vids|
      invariant !raised && Reply(s.rest.table, false) == TagAll(old(s.rest.table), s.vlans, vids[..k], port)
    {
      assert Front(vids[..k + 1]) == vids[..k];
      raised := AddToPortOf(s, vids[k], port, false);
      if raised {
        RaiseStopsTagging(old(s.rest.table), s.vlans, vids, port, k + 1);
        return;
      }
    }
    assert vids[..|vids|] == vids;
  }

  method TagPort(s: Microtik, vids: seq<int>, port: string) returns (raised: bool)
    requires s.vlans == VlansOf(s.rest.table.rows)
    modifies s.rest
    ensures Reply(s.rest.table, raised) == AddPortVlan(old(s.rest.table), vids, port)
  {
    if vids == [] {
      return true;
    }
    AddMissing(s, vids);
    raised := TagPorts(s, vids, port);
  }

  // ---------------------------------------------------------------- one VID that is there

  /** The VIDs with a row of their own. */
  ghost function Own(rows: seq<Row>): set<int> {
    set v | v in Vids(rows) && !Shared(rows, v)
  }

  /** Adding the port to this VID raises. */
  ghost predicate Stops(t: Table, v: int, port: string) {
    v in View(t.rows) && (port in View(t.rows)[v].untagged || (t.strict && v !in Own(t.rows)))
  }

  /** The listed VIDs with a row of their own carry the port tagged. */
  ghost function Tagged(view: map<int, Members>, own: set<int>, vids: seq<int>, port: string): map<int, Members> {
    map v | v in view :: if v in vids && v in own then WithPort(view[v], port, false) else view[v]
  }

  /** The table after the port has been added to some VIDs. */
  ghost predicate Tagging(t: Table, now: Table, vids: seq<int>, port: string) {
    && WellFormed(now) && now.strict == t.strict && Own(now.rows) == Own(t.rows)
    && View(now.rows) == Tagged(View(t.rows), Own(t.rows), vids, port)
  }

  lemma TagShared(t: Table, v: int, port: string)
    requires WellFormed(t) && Shared(t.rows, v)
    ensures var o := Step(t, AddToPort(v, port, false));
            (o.raised <==> Stops(t, v, port)) && Tagging(t, o.table, if o.raised then [] else [v], port)
  {
    SharedRowUntouched(t, v, port, false);
    SharedOwn(t, v, port);
    SharedStops(t, v, port);
    TagsNothing(View(t.rows), Own(t.rows), v, port);
  }

  lemma SharedStops(t: Table, v: int, port: string)
    requires Shared(t.rows, v)
    ensures v in View(t.rows) && v !in Own(t.rows)
    ensures Stops(t, v, port) <==> t.strict || Conflict(Find(t.rows, v).value, port, false)
  {
    var row := Find(t.rows, v).value;
    assert port in MembersOf(row).untagged <==> port in row.untagged;
  }

  lemma TagsNothing(view: map<int, Members>, own: set<int>, v: int, port: string)
    ensures Tagged(view, own, [], port) == view
    ensures v !in own ==> Tagged(view, own, [v], port) == view
    ensures v in own && v in view ==> Tagged(view, own, [v], port) == view[v := WithPort(view[v], port, false)]
  {
  }

  lemma SharedOwn(t: Table, v: int, port: string)
    requires WellFormed(t) && Shared(t.rows, v)
    ensures var o := Step(t, AddToPort(v, port, false));
            Own(o.table.rows) == Own(t.rows) && o.table.strict == t.strict
  {
    var row := Find(t.rows, v).value;
    var f := Enlarged(row, port, false, true);
    PatchNothing(t.rows, row.id);
    EmptyRowOwn(t, Row(t.nextId, [], Value(f.tagged, []), Value(f.untagged, [])));
  }

  lemma EmptyRowOwn(t: Table, row: Row)
    requires WellFormed(t) && row.id == t.nextId && row.vids == []
    ensures Own(t.rows + [row]) == Own(t.rows)
  {
    PutKeeps(t, row);
  }

  lemma PatchedOwn(rows: seq<Row>, id: nat, f: Fields)
    requires f.vids.None?
    ensures Own(PatchRows(rows, id, f)) == Own(rows)
  {
    forall v
      ensures Find(PatchRows(rows, id, f), v).Some? == Find(rows, v).Some?
      ensures Shared(PatchRows(rows, id, f), v) == Shared(rows, v)
    {
      PatchedFind(rows, id, f, v, 0);
    }
  }

  /** The goal of the call on a VID with a row of its own. */
  lemma TagGoal(view: map<int, Members>, own: set<int>, v: int, port: string)
    requires v in view && v in own
    ensures IdealStep(view, AddToPort(v, port, false))
         == if port in view[v].untagged then Goal(view, true) else Goal(Tagged(view, own, [v], port), false)
  {
    TagsNothing(view, own, v, port);
  }

  lemma OwnKept(t: Table, v: int, port: string)
    requires v in Own(t.rows)
    ensures var after := Step(t, AddToPort(v, port, false)).table;
            Own(after.rows) == Own(t.rows) && after.strict == t.strict
  {
    PatchedOwn(t.rows, Find(t.rows, v).value.id, Enlarged(Find(t.rows, v).value, port, false, false));
  }

  lemma TagOwn(t: Table, v: int, port: string)
    requires WellFormed(t) && v in Own(t.rows)
    ensures var o := Step(t, AddToPort(v, port, false));
            (o.raised <==> Stops(t, v, port)) && Tagging(t, o.table, if o.raised then [] else [v], port)
  {
    var view, own := View(t.rows), Own(t.rows);
    AddToOwnRow(t, v, port, false);
    OwnKept(t, v, port);
    TagGoal(view, own, v, port);
    TagsNothing(view, own, v, port);
  }

  lemma TagOne(t: Table, v: int, port: string)
    requires WellFormed(t) && v in View(t.rows)
    ensures var o := Step(t, AddToPort(v, port, false));
            (o.raised <==> Stops(t, v, port)) && Tagging(t, o.table, if o.raised then [] else [v], port)
  {
    if Shared(t.rows, v) {
      TagShared(t, v, port);
    } else {
      TagOwn(t, v, port);
    }
  }

  // ---------------------------------------------------------------- all VIDs are there

  /** The listed VIDs before the first one at which the request stops. */
  ghost function Done(t: Table, vids: seq<int>, port: string): (r: seq<int>)
    ensures r <= vids
  {
    if vids == [] then []
    else
      var done := Done(t, Front(vids), port);
      if done == Front(vids) && !Stops(t, Last(vids), port) then vids else done
  }

  lemma {:induction false} DoneAll(t: Table, vids: seq<int>, port: string)
    ensures Done(t, vids, port) == vids <==> forall v :: v in vids ==> !Stops(t, v, port)
  {
    if vids != [] {
      assert vids == Front(vids) + [Last(vids)];
      DoneAll(t, Front(vids), port);
    }
  }

  lemma TaggedTwice(view: map<int, Members>, own: set<int>, vids: seq<int>, more: seq<int>, port: string)
    ensures Tagged(Tagged(view, own, vids, port), own, more, port) == Tagged(view, own, vids + more, port)
  {
    forall v | v in view
      ensures Tagged(Tagged(view, own, vids, port), own, more, port)[v] == Tagged(view, own, vids + more, port)[v]
    {
      assert WithPort(WithPort(view[v], port, false), port, false) == WithPort(view[v], port, false);
    }
  }

  lemma StopsSame(t: Table, now: Table, vids: seq<int>, v: int, port: string)
    requires Tagging(t, now, vids, port)
    ensures v in View(now.rows) <==> v in View(t.rows)
    ensures Stops(now, v, port) <==> Stops(t, v, port)
  {
    var view := View(t.rows);
    assert v in view ==> Tagged(view, Own(t.rows), vids, port)[v].untagged == view[v].untagged;
  }

  lemma TaggingOn(t: Table, now: Table, after: Table, vids: seq<int>, more: seq<int>, port: string)
    requires Tagging(t, now, vids, port) && Tagging(now, after, more, port)
    ensures Tagging(t, after, vids + more, port)
  {
    TaggedTwice(View(t.rows), Own(t.rows), vids, more, port);
  }

  lemma TagNext(t: Table, now: Table, vids: seq<int>, v: int, port: string)
    requires Tagging(t, now, vids, port) && v in View(t.rows)
    ensures var o := Step(now, AddToPort(v, port, false));
            (o.raised <==> Stops(t, v, port)) && Tagging(t, o.table, if o.raised then vids else vids + [v], port)
  {
    var o := Step(now, AddToPort(v, port, false));
    StopsSame(t, now, vids, v, port);
    TagOne(now, v, port);
    var more := if o.raised then [] else [v];
    assert vids + more == if o.raised then vids else vids + [v];
    TaggingOn(t, now, o.table, vids, more, port);
  }

  lemma {:induction false} TagAllMeaning(t: Table, vlans: seq<int>, vids: seq<int>, port: string)
    requires WellFormed(t) && AllIn(View(t.rows), vids) && AllListed(vids, vlans)
    ensures var o, done := TagAll(t, vlans, vids, port), Done(t, vids, port);
            (o.raised <==> done != vids) && Tagging(t, o.table, done, port)
  {
    if vids == [] {
      TagsNothing(View(t.rows), Own(t.rows), 0, port);
    } else {
      var v, before := vids[|vids| - 1], Front(vids);
      assert v in vids && vids == before + [v];
      TagAllMeaning(t, vlans, before, port);
      var o := TagAll(t, vlans, before, port);
      if !o.raised {
        var q, op := MikrotikRequests.AddVlanToPort(v, port, false), AddToPort(v, port, false);
        assert Calls(q, vlans) == [op];
        OneCallOf(o.table, vlans, q, op);
        TagNext(t, o.table, before, v, port);
      }
    }
  }

  // ---------------------------------------------------------------- some VID is missing

  /** Rows are only added, and VIDs never leave their rows. */
  ghost predicate Grown(t: Table, now: Table) {
    && (Bounded(t) ==> Bounded(now))
    && (forall v :: Find(t.rows, v).Some? ==> Find(now.rows, v).Some?)
    && (Clash(t.rows) ==> Clash(now.rows))
  }

  lemma PutGrows(t: Table, f: Fields)
    ensures Grown(t, Put(t, f).table)
    ensures !Put(t, f).raised && f.vids.Some? ==> forall v <- f.vids.value :: Find(Put(t, f).table.rows, v).Some?
  {
    var row := Row(t.nextId, Value(f.vids, []), Value(f.tagged, []), Value(f.untagged, []));
    var rows := t.rows + [row];
    assert row in rows;
    forall v | Find(rows, v).None?
      ensures Find(t.rows, v).None? && v !in row.vids
    {
      assert forall r :: r in t.rows ==> r in rows;
    }
    if Clash(t.rows) {
      ClashAppended(t.rows, row);
    }
  }

  lemma PatchGrows(t: Table, id: nat, f: Fields)
    requires f.vids.None?
    ensures Grown(t, Patch(t, id, f).table)
  {
    var rows := PatchRows(t.rows, id, f);
    forall v
      ensures Find(t.rows, v).Some? ==> Find(rows, v).Some?
    {
      PatchedFind(t.rows, id, f, v, 0);
    }
    forall row | row in rows && Bounded(t)
      ensures row.id < t.nextId
    {
      var i :| 0 <= i < |rows| && rows[i] == row;
      assert t.rows[i] in t.rows;
    }
    if Clash(t.rows) {
      ClashStays(t.rows, id, f);
    }
  }

  lemma PortGrows(t: Table, v: int, port: string)
    ensures Grown(t, Step(t, AddToPort(v, port, false)).table)
  {
    if Find(t.rows, v).Some? {
      var row := Find(t.rows, v).value;
      PatchNothing(t.rows, row.id);
      PutGrows(t, Enlarged(row, port, false, true));
      PatchGrows(t, row.id, Enlarged(row, port, false, false));
      ThreeTables(t, v, row, port);
    }
  }

  /** What adding a port comes to: nothing, a patch of the row, or an empty row. */
  lemma ThreeTables(t: Table, v: int, row: Row, port: string)
    requires Find(t.rows, v) == Some(row)
    ensures var after := Step(t, AddToPort(v, port, false)).table;
            || after == t || after == Put(t, Enlarged(row, port, false, true)).table
            || after == Patch(t, row.id, Enlarged(row, port, false, false)).table
  {
    PatchNothing(t.rows, row.id);
  }

  lemma {:induction false} VlansGrow(t: Table, vids: seq<int>)
    ensures Grown(t, AddVlanRun(t, vids))
    ensures forall v :: v in vids ==> Find(AddVlanRun(t, vids).rows, v).Some?
  {
    if vids != [] {
      var before, v := Front(vids), vids[|vids| - 1];
      assert vids == before + [v];
      VlansGrow(t, before);
      PutGrows(AddVlanRun(t, before), NewVlan(v));
      assert v in [v];
    }
  }

  lemma TagGrows(t: Table, vlans: seq<int>, v: int, port: string)
    ensures Grown(t, ServeOne(t, vlans, MikrotikRequests.AddVlanToPort(v, port, false)).table)
  {
    var q, op := MikrotikRequests.AddVlanToPort(v, port, false), AddToPort(v, port, false);
    if v in vlans {
      assert Calls(q, vlans) == [op];
      OneCallOf(t, vlans, q, op);
      PortGrows(t, v, port);
    } else {
      assert Calls(q, vlans) == [AddVlan([v]), op];
      TwoCallsOf(t, vlans, q, [v], op);
      VlansGrow(t, [v]);
      PortGrows(AddVlanRun(t, [v]), v, port);
    }
  }

  lemma {:induction false} TagAllGrows(t: Table, vlans: seq<int>, vids: seq<int>, port: string)
    ensures Grown(t, TagAll(t, vlans, vids, port).table)
  {
    if vids != [] {
      TagAllGrows(t, vlans, Front(vids), port);
      TagGrows(TagAll(t, vlans, Front(vids), port).table, vlans, Last(vids), port);
    }
  }

  /** A VID that is there and that the list misses gets a second row, unless the request ends before. */
  lemma {:induction false} AddedTwice(t: Table, vlans: seq<int>, vids: seq<int>, port: string)
    requires Bounded(t) && AllIn(View(t.rows), vids) && !AllListed(vids, vlans)
    ensures var o := TagAll(t, vlans, vids, port);
            o.raised || Clash(o.table.rows)
  {
    var before, v := Front(vids), vids[|vids| - 1];
    var o := TagAll(t, vlans, before, port);
    assert v in vids && vids == before + [v];
    if !o.raised {
      TagAllGrows(t, vlans, before, port);
      TagGrows(o.table, vlans, v, port);
      if AllListed(before, vlans) {
        PortToNewVlan(o.table, vlans, v, port, false);
      } else {
        AddedTwice(t, vlans, before, port);
      }
    }
  }

  // ---------------------------------------------------------------- new VIDs

  /** The two rows of each new VID: those that the request adds first, the first `n` tagged, and those it adds again. */
  ghost function TwoRows(t: Table, vids: seq<int>, port: string, n: nat): (r: seq<Row>)
    requires n <= |vids|
    ensures |r| == |vids| + n
    ensures forall i :: 0 <= i < n ==> r[i] == Row(t.nextId + i, [vids[i]], [BRIDGE, port], [])
    ensures forall i :: n <= i < |vids| ==> r[i] == Row(t.nextId + i, [vids[i]], [BRIDGE], [])
    ensures forall i :: |vids| <= i < |vids| + n ==> r[i] == Row(t.nextId + i, [vids[i - |vids|]], [BRIDGE], [])
  {
    seq(|vids| + n, i requires 0 <= i < |vids| + n =>
      Row(t.nextId + i, [vids[if i < |vids| then i else i - |vids|]], if i < n then [BRIDGE, port] else [BRIDGE], []))
  }

  ghost function TwoRowsTable(t: Table, vids: seq<int>, port: string, n: nat): Table
    requires n <= |vids|
  {
    Table(t.rows + TwoRows(t, vids, port, n), t.nextId + |vids| + n, t.strict)
  }

  ghost predicate Numbered(t: Table) {
    (forall r :: r in t.rows ==> r.id < t.nextId) && UniqueIds(t.rows)
  }

  ghost predicate AllNew(t: Table, vids: seq<int>) {
    Numbered(t) && NoDup(vids) && forall i, j :: 0 <= i < |t.rows| && 0 <= j < |vids| ==> vids[j] !in t.rows[i].vids
  }

  lemma NumberedRows(t: Table, more: seq<Row>)
    requires Numbered(t) && forall i :: 0 <= i < |more| ==> more[i].id == t.nextId + i
    ensures UniqueIds(t.rows + more)
  {
    forall r, s | r in t.rows + more && s in t.rows + more && r.id == s.id
      ensures r == s
    {
      if r in more {
        var i :| 0 <= i < |more| && more[i] == r;
        assert s !in t.rows;
        var j :| 0 <= j < |more| && more[j] == s;
        assert i == j;
      } else {
        assert r in t.rows;
        assert s !in more;
      }
    }
  }

  lemma FirstOfTwo(t: Table, vids: seq<int>, port: string, n: nat, more: seq<Row>)
    requires AllNew(t, vids) && n < |vids|
    ensures FirstAt(t.rows + TwoRows(t, vids, port, n) + more, vids[n], 0, |t.rows| + n)
  {
  }

  lemma TagFirst(t: Table, v: int, port: string, k: nat)
    requires UniqueIds(t.rows) && FirstAt(t.rows, v, 0, k) && |t.rows[k].vids| == 1 && port !in t.rows[k].untagged
    requires forall i :: 0 <= i < |t.rows| && i != k ==> t.rows[i].id != t.rows[k].id
    ensures MikrotikDriver.AddVlanToPort(t, v, port, false)
         == Reply(t.(rows := t.rows[k := Longer(t.rows[k], port, false)]), false)
  {
    var o := MikrotikDriver.AddVlanToPort(t, v, port, false);
    AddToPortRows(t, v, port, false, k);
    assert o.table.rows == t.rows[k := Longer(t.rows[k], port, false)];
  }

  lemma OneMoreTagged(t: Table, vids: seq<int>, port: string, n: nat, again: Row)
    requires n < |vids| && again == Row(t.nextId + |vids| + n, [vids[n]], [BRIDGE], [])
    ensures var two := TwoRows(t, vids, port, n) + [again];
            && two[n] == Row(t.nextId + n, [vids[n]], [BRIDGE], [])
            && (forall i :: 0 <= i < |two| ==> two[i].id == t.nextId + i)
            && two[n := Longer(two[n], port, false)] == TwoRows(t, vids, port, n + 1)
  {
    assert [BRIDGE] + [port] == [BRIDGE, port];
  }

  /** The first of the two rows of a new VID is tagged. */
  lemma TagAmongNew(t: Table, more: seq<Row>, v: int, port: string, n: nat)
    requires Numbered(t) && n < |more| && FirstAt(t.rows + more, v, 0, |t.rows| + n)
    requires more[n] == Row(t.nextId + n, [v], [BRIDGE], [])
    requires forall i :: 0 <= i < |more| ==> more[i].id == t.nextId + i
    ensures var after := t.rows + more[n := Longer(more[n], port, false)];
            MikrotikDriver.AddVlanToPort(Table(t.rows + more, t.nextId + |more|, t.strict), v, port, false)
            == Reply(Table(after, t.nextId + |more|, t.strict), false)
  {
    var rows, k := t.rows + more, |t.rows| + n;
    NumberedRows(t, more);
    forall i | 0 <= i < |rows| && i != k
      ensures rows[i].id != rows[k].id
    {
      if i < |t.rows| {
        assert rows[i] in t.rows;
      } else {
        assert rows[i] == more[i - |t.rows|];
      }
    }
    TagFirst(Table(rows, t.nextId + |more|, t.strict), v, port, k);
    assert rows[k := Longer(rows[k], port, false)] == t.rows + more[n := Longer(more[n], port, false)];
  }

  /** The table in which a VID has just been added. */
  ghost function Added(t: Table, v: int): Table {
    Table(t.rows + [Row(t.nextId, [v], [BRIDGE], [])], t.nextId + 1, t.strict)
  }

  /** A VID that the list misses is added, and then tagged. */
  lemma AddedThenTagged(t: Table, vlans: seq<int>, v: int, port: string, o: Reply)
    requires v !in vlans && MikrotikDriver.AddVlanToPort(Added(t, v), v, port, false) == o
    ensures ServeOne(t, vlans, MikrotikRequests.AddVlanToPort(v, port, false)) == o
  {
    var q, op := MikrotikRequests.AddVlanToPort(v, port, false), AddToPort(v, port, false);
    assert Calls(q, vlans) == [AddVlan([v]), op];
    TwoCallsOf(t, vlans, q, [v], op);
    AddVlanRows(t, [v]);
    assert Rows(t, [v]) == [Row(t.nextId, [v], [BRIDGE], [])];
  }

  lemma TagNew(t: Table, vids: seq<int>, port: string, n: nat, again: Row, now: Table)
    requires AllNew(t, vids) && n < |vids| && again == Row(t.nextId + |vids| + n, [vids[n]], [BRIDGE], [])
    requires now == Table(t.rows + TwoRows(t, vids, port, n) + [again], t.nextId + |vids| + n + 1, t.strict)
    ensures MikrotikDriver.AddVlanToPort(now, vids[n], port, false) == Reply(TwoRowsTable(t, vids, port, n + 1), false)
  {
    var two := TwoRows(t, vids, port, n) + [again];
    FirstOfTwo(t, vids, port, n, [again]);
    OneMoreTagged(t, vids, port, n, again);
    assert now.rows == t.rows + two;
    TagAmongNew(t, two, vids[n], port, n);
  }

  lemma {:induction false} TagAllNew(t: Table, vlans: seq<int>, vids: seq<int>, port: string, n: nat)
    requires AllNew(t, vids) && n <= |vids| && forall v :: v in vids ==> v !in vlans
    ensures TagAll(TwoRowsTable(t, vids, port, 0), vlans, vids[..n], port)
         == Reply(TwoRowsTable(t, vids, port, n), false)
  {
    if n > 0 {
      assert Front(vids[..n]) == vids[..n - 1];
      TagAllNew(t, vlans, vids, port, n - 1);
      assert vids[n - 1] in vids;
      var now, after := TwoRowsTable(t, vids, port, n - 1), TwoRowsTable(t, vids, port, n);
      TagNew(t, vids, port, n - 1, Row(now.nextId, [vids[n - 1]], [BRIDGE], []), Added(now, vids[n - 1]));
      AddedThenTagged(now, vlans, vids[n - 1], port, Reply(after, false));
    }
  }

  /** Two rows are appended for each of these VIDs: the first with the port, the second without. */
  ghost predicate EachTwice(t: Table, vids: seq<int>, port: string, after: Table) {
    var n := |vids|;
    && after == Table(after.rows, t.nextId + 2 * n, t.strict)
    && |after.rows| == |t.rows| + 2 * n && t.rows <= after.rows
    && forall i :: 0 <= i < n ==>
         && after.rows[|t.rows| + i] == Row(t.nextId + i, [vids[i]], [BRIDGE, port], [])
         && after.rows[|t.rows| + n + i] == Row(t.nextId + n + i, [vids[i]], [BRIDGE], [])
  }

  lemma ReadTwoRows(t: Table, vids: seq<int>, port: string)
    ensures EachTwice(t, vids, port, TwoRowsTable(t, vids, port, |vids|))
  {
    var n, rows, all := |vids|, TwoRows(t, vids, port, |vids|), t.rows + TwoRows(t, vids, port, |vids|);
    forall i | 0 <= i < n
      ensures all[|t.rows| + i] == Row(t.nextId + i, [vids[i]], [BRIDGE, port], [])
      ensures all[|t.rows| + n + i] == Row(t.nextId + n + i, [vids[i]], [BRIDGE], [])
    {
      assert all[|t.rows| + i] == rows[i] && all[|t.rows| + n + i] == rows[n + i];
    }
  }

  /**
   * On every table: new VIDs, each listed once, are added, and each is added again before it is tagged. The
   * port ends up in the first of its two rows, and nothing raises.
   */
  lemma NewVlansTagged(t: Table, vids: seq<int>, port: string)
    requires WellFormed(t) && vids != [] && NoDup(vids) && NoneIn(View(t.rows), vids)
    ensures var o := AddPortVlan(t, vids, port);
            !o.raised && EachTwice(t, vids, port, o.table)
  {
    NoneThere(t, vids);
    TagNewFromStart(t, vids, port);
    ReadTwoRows(t, vids, port);
  }

  lemma NoneThere(t: Table, vids: seq<int>)
    requires WellFormed(t) && NoDup(vids) && NoneIn(View(t.rows), vids)
    ensures AllNew(t, vids) && forall v :: v in vids ==> v !in VlansOf(t.rows)
  {
    forall v | v in vids
      ensures v !in VlansOf(t.rows)
    {
      FreshView(t, v);
    }
    forall i, j | 0 <= i < |t.rows| && 0 <= j < |vids|
      ensures vids[j] !in t.rows[i].vids
    {
      assert vids[j] in vids && t.rows[i] in t.rows;
      assert Find(t.rows, vids[j]).None?;
    }
  }

  lemma TagNewFromStart(t: Table, vids: seq<int>, port: string)
    requires AllNew(t, vids) && vids != [] && forall v :: v in vids ==> v !in VlansOf(t.rows)
    ensures AddPortVlan(t, vids, port) == Reply(TwoRowsTable(t, vids, port, |vids|), false)
  {
    var vlans := VlansOf(t.rows);
    AddsAll(t, vlans, vids, port);
    TagAllNew(t, vlans, vids, port, |vids|);
    assert vids[..|vids|] == vids;
  }

  lemma AddsAll(t: Table, vlans: seq<int>, vids: seq<int>, port: string)
    requires vids != [] && forall v :: v in vids ==> v !in vlans
    ensures ServeOne(t, vlans, AddVlans(vids)) == Reply(TwoRowsTable(t, vids, port, 0), false)
  {
    SelectAllMissing(vids, vlans);
    AddVlansCall(t, vlans, vids);
    AddVlanRows(t, vids);
    assert Rows(t, vids) == TwoRows(t, vids, port, 0);
  }

  lemma {:induction false} SelectAllMissing(vids: seq<int>, vlans: seq<int>)
    requires forall v :: v in vids ==> v !in vlans
    ensures Select(vids, vlans, false) == vids
  {
    if vids != [] {
      var v := vids[|vids| - 1];
      assert v in vids && vids == Front(vids) + [v];
      SelectAllMissing(Front(vids), vlans);
      assert Select(vids, vlans, false) == Select(Front(vids), vlans, false) + [v];
    }
  }

  /** The first tagging of one new VID. */
  lemma NewVlanTagged(t: Table, v: int, port: string)
    requires WellFormed(t) && v !in View(t.rows)
    ensures AddPortVlan(t, [v], port)
         == Reply(Table(t.rows + [Row(t.nextId, [v], [BRIDGE, port], []), Row(t.nextId + 1, [v], [BRIDGE], [])],
                        t.nextId + 2, t.strict), false)
  {
    NewVlansTagged(t, [v], port);
    var rows := AddPortVlan(t, [v], port).table.rows;
    assert rows[|t.rows|..] == [rows[|t.rows|], rows[|t.rows| + 1]];
    assert rows == t.rows + rows[|t.rows|..];
  }

  // ---------------------------------------------------------------- the whole request

  lemma AddsNothing(t: Table, vids: seq<int>)
    requires AllIn(View(t.rows), vids)
    ensures AllListed(vids, VlansOf(t.rows))
    ensures ServeOne(t, VlansOf(t.rows), AddVlans(vids)) == Reply(t, false)
  {
    forall v | v in vids
      ensures v in VlansOf(t.rows)
    {
      FreshView(t, v);
    }
    NoneMissing(vids, VlansOf(t.rows));
    NoCall(t, VlansOf(t.rows), AddVlans(vids));
  }

  /**
   * With all its VIDs there, on any table: the request stops at the first VID that holds the port
   * untagged, or whose row is shared on a device that refuses the wrong column; up to there it tags the
   * VIDs that have a row of their own, and it does nothing else.
   */
  lemma PortVlansMeaning(t: Table, vids: seq<int>, port: string)
    requires WellFormed(t) && vids != [] && AllIn(View(t.rows), vids)
    ensures var o, done := AddPortVlan(t, vids, port), Done(t, vids, port);
            && (o.raised <==> done != vids)
            && (o.raised <==> exists v :: v in vids && Stops(t, v, port))
            && Means(o.table, Tagged(View(t.rows), Own(t.rows), done, port))
  {
    AddsNothing(t, vids);
    TagAllMeaning(t, VlansOf(t.rows), vids, port);
    DoneAll(t, vids, port);
  }

  lemma PortVlansTwice(t: Table, vids: seq<int>, port: string)
    requires WellFormed(t) && !AllIn(View(t.rows), vids)
    ensures var o := AddPortVlan(t, vids, port);
            o.raised || Clash(o.table.rows)
  {
    var vlans := VlansOf(t.rows);
    var missing := Select(vids, vlans, false);
    var now := AddVlanRun(t, missing);
    AddVlansCall(t, vlans, vids);
    VlansGrow(t, missing);
    forall v | v in vids
      ensures v in View(now.rows)
    {
      FreshView(t, v);
      assert v in missing <==> v !in vlans;
    }
    var v :| v in vids && v !in View(t.rows);
    FreshView(t, v);
    AddedTwice(now, vlans, vids, port);
  }

  /** All listed VIDs are declared and carry the port tagged. */
  ghost function AllTagged(view: map<int, Members>, vids: seq<int>, port: string): map<int, Members> {
    var declared := ViewWithVlans(view, vids);
    map v | v in declared :: if v in vids then WithPort(declared[v], port, false) else declared[v]
  }

  /** What a caller can check of one VID before the call. */
  ghost predicate Taggable(t: Table, v: int, port: string) {
    && v in View(t.rows) && port !in View(t.rows)[v].untagged
    && (Shared(t.rows, v) ==> !t.strict && port in View(t.rows)[v].tagged)
  }

  lemma TaggedAll(view: map<int, Members>, own: set<int>, vids: seq<int>, port: string)
    requires AllIn(view, vids)
    ensures Tagged(view, own, vids, port) == AllTagged(view, vids, port)
       <==> forall v :: v in vids && v !in own ==> port in view[v].tagged
  {
    var a, b := Tagged(view, own, vids, port), AllTagged(view, vids, port);
    MissingOnly(view, vids, []);
    forall v | v in view
      ensures a[v] == b[v] <==> (v in vids && v !in own ==> port in view[v].tagged)
    {
      assert view[v].tagged + {port} == view[v].tagged <==> port in view[v].tagged;
    }
    if forall v :: v in vids && v !in own ==> port in view[v].tagged {
      assert forall v :: v in view ==> a[v] == b[v];
    }
  }

  /**
   * On any table: the request comes back with all its VIDs declared and the port tagged in each, every
   * VID in one row and nothing else changed, if and only if every one of its VIDs was there before, did
   * not hold the port untagged, and had a row of its own or, on a device that ignores the wrong column,
   * held the port already.
   */
  lemma PortVlansExact(t: Table, vids: seq<int>, port: string)
    requires WellFormed(t)
    ensures var o := AddPortVlan(t, vids, port);
            !o.raised && Means(o.table, AllTagged(View(t.rows), vids, port))
            <==> vids != [] && forall v :: v in vids ==> Taggable(t, v, port)
  {
    if vids != [] {
      if AllIn(View(t.rows), vids) {
        PortVlansMeaning(t, vids, port);
        TaggedAll(View(t.rows), Own(t.rows), vids, port);
        AllTaggable(t, vids, port);
      } else {
        PortVlansTwice(t, vids, port);
        var v :| v in vids && v !in View(t.rows);
        assert !Taggable(t, v, port);
      }
    }
  }

  lemma AllTaggable(t: Table, vids: seq<int>, port: string)
    requires AllIn(View(t.rows), vids)
    ensures (forall v :: v in vids ==> Taggable(t, v, port))
       <==> (forall v :: v in vids ==> !Stops(t, v, port))
            && forall v :: v in vids && v !in Own(t.rows) ==> port in View(t.rows)[v].tagged
  {
    forall v | v in vids
      ensures Taggable(t, v, port)
         <==> !Stops(t, v, port) && (v !in Own(t.rows) ==> port in View(t.rows)[v].tagged)
    {
      assert v in View(t.rows);
    }
  }

  /** Both VIDs are there, the first holds the port untagged: the request ends, and the second is never tagged. */
  lemma PortVlansWitness(port: string)
    ensures var t := Table([Row(0, [10], [], [port]), Row(1, [20], [BRIDGE], [])], 2, true);
            && WellFormed(t) && AllIn(View(t.rows), [10, 20])
            && AddPortVlan(t, [10, 20], port).raised
            && View(AddPortVlan(t, [10, 20], port).table.rows) == View(t.rows)
  {
    var t := Table([Row(0, [10], [], [port]), Row(1, [20], [BRIDGE], [])], 2, true);
    WitnessTable(t, port);
    PortVlansMeaning(t, [10, 20], port);
    StopsAtOnce(t, [10, 20], port);
    TagsNothing(View(t.rows), Own(t.rows), 0, port);
  }

  lemma {:induction false} StopsAtOnce(t: Table, vids: seq<int>, port: string)
    requires vids != [] && Stops(t, vids[0], port)
    ensures Done(t, vids, port) == []
  {
    if |vids| > 1 {
      StopsAtOnce(t, Front(vids), port);
    }
  }

  lemma WitnessTable(t: Table, port: string)
    requires t == Table([Row(0, [10], [], [port]), Row(1, [20], [BRIDGE], [])], 2, true)
    ensures WellFormed(t) && 10 in View(t.rows) && 20 in View(t.rows) && Stops(t, 10, port)
  {
    var first, second := t.rows[0], t.rows[1];
    assert forall row :: row in t.rows <==> row == first || row == second;
    assert 10 in first.vids && 20 in second.vids;
    FindUnique(t.rows, first, 10);
    FindUnique(t.rows, second, 20);
    assert port in first.untagged;
  }
}
