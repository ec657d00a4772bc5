/**
 * Taking a port out of VLANs. Like the deletion of VLANs the loop works on one early reading of
 * the table, and it gives every VID of a shared row a row of its own.
 */
module MikrotikDeletePort {
  import opened Common
  import opened BridgeTable
  import opened MikrotikDelete

  function KeepPorts(row: Row, port: string): Fields {
    Fields(None, Some(Without(row.tagged, port)), Some(Without(row.untagged, port)), false)
  }

  function OwnRow(row: Row, vid: int, port: string): Fields {
    Fields(Some([vid]), Some(Without(row.tagged, port)), Some(Without(row.untagged, port)), false)
  }

  /** One turn of the `_del_vlan_to_port` loop. */
  function DelPortStep(stale: seq<Row>, t: Table, vid: int, port: string): Reply {
    match Find(stale, vid)
    case None => Reply(t, true)
    case Some(row) =>
      if |row.vids| == 1 then Patch(t, row.id, KeepPorts(row, port))
      else
        var o := Patch(t, row.id, KeepVids(Without(row.vids, vid)));
        if o.raised then o else Put(o.table, OwnRow(row, vid, port))
  }

  function DelPortRun(t: Table, vids: seq<int>, port: string): Reply {
    if vids == [] then Reply(t, false)
    else
      var o := DelPortRun(t, Front(vids), port);
      if o.raised then o else DelPortStep(t.rows, o.table, Last(vids), port)
  }

  // ---------------------------------------------------------------- closed form

  function PortFate(row: Row, vids: seq<int>, port: string): Row {
    match LastListed(vids, row.vids)
    case None => row
    case Some(v) =>
      if |row.vids| == 1 then Overwrite(row, KeepPorts(row, port)) else row.(vids := Without(row.vids, v))
  }

  function PortFates(rows: seq<Row>, vids: seq<int>, port: string): (r: seq<Row>)
    ensures |r| == |rows|
    ensures forall i :: 0 <= i < |rows| ==> r[i] == PortFate(rows[i], vids, port) && r[i].id == rows[i].id
  {
    seq(|rows|, i requires 0 <= i < |rows| => PortFate(rows[i], vids, port))
  }

  predicate Shared(rows: seq<Row>, vid: int) {
    Find(rows, vid).Some? && |Find(rows, vid).value.vids| != 1
  }

  function NewRow(t: Table, id: nat, vid: int, port: string): Row
    requires Find(t.rows, vid).Some?
  {
    var row := Find(t.rows, vid).value;
    Row(id, [vid], Without(row.tagged, port), Without(row.untagged, port))
  }

  /** The rows split off: one for every listed occurrence of a VID whose row serves others too. */
  function SplitOff(t: Table, vids: seq<int>, port: string): seq<Row> {
    if vids == [] then []
    else
      var rest := SplitOff(t, Front(vids), port);
      if Shared(t.rows, Last(vids)) then rest + [NewRow(t, t.nextId + |rest|, Last(vids), port)] else rest
  }

  lemma {:induction false} SplitOffIds(t: Table, vids: seq<int>, port: string)
    ensures forall i :: 0 <= i < |SplitOff(t, vids, port)| ==> SplitOff(t, vids, port)[i].id == t.nextId + i
  {
    if vids != [] {
      SplitOffIds(t, Front(vids), port);
    }
  }

  ghost predicate Declared(rows: seq<Row>, vids: seq<int>) {
    forall v :: v in vids ==> Find(rows, v).Some?
  }

  function DelPortTable(t: Table, vids: seq<int>, port: string): Table {
    var split := SplitOff(t, vids, port);
    Table(PortFates(t.rows, vids, port) + split, t.nextId + |split|, t.strict)
  }

  lemma {:induction false} DelPortClosedForm(t: Table, vids: seq<int>, port: string)
    requires WellFormed(t) && Declared(t.rows, vids)
    ensures DelPortRun(t, vids, port) == Reply(DelPortTable(t, vids, port), false)
  {
    if vids == [] {
      assert PortFates(t.rows, vids, port) == t.rows;
    } else {
      var prefix, vid := Front(vids), Last(vids);
      assert vids == prefix + [vid];
      DelPortClosedForm(t, prefix, port);
      DelPortStepClosed(t, prefix, vid, port);
    }
  }

  /** Patching the row of `vid` turns the rows as the shorter list leaves them into those of the longer one. */
  lemma PatchedFates(t: Table, prefix: seq<int>, vid: int, port: string, row: Row, f: Fields)
    requires WellFormed(t) && Find(t.rows, vid) == Some(row)
    requires f == if |row.vids| == 1 then KeepPorts(row, port) else KeepVids(Without(row.vids, vid))
    ensures PatchRows(PortFates(t.rows, prefix, port), row.id, f) == PortFates(t.rows, prefix + [vid], port)
  {
    FateOfOthers(t.rows, row, prefix, vid);
    forall i | 0 <= i < |t.rows|
      ensures PatchRows(PortFates(t.rows, prefix, port), row.id, f)[i] == PortFate(t.rows[i], prefix + [vid], port)
    {
      assert t.rows[i] in t.rows;
      if t.rows[i].id == row.id {
        PatchedFate(row, prefix, vid, port);
      }
    }
  }

  lemma PatchedFate(row: Row, prefix: seq<int>, vid: int, port: string)
    requires vid in row.vids && LastListed(prefix + [vid], row.vids) == Some(vid)
    ensures var f := if |row.vids| == 1 then KeepPorts(row, port) else KeepVids(Without(row.vids, vid));
            Overwrite(PortFate(row, prefix, port), f) == PortFate(row, prefix + [vid], port)
  {
  }

  lemma PatchSparesNew(rows: seq<Row>, added: seq<Row>, id: nat, f: Fields)
    requires forall i :: 0 <= i < |added| ==> added[i].id != id
    ensures PatchRows(rows + added, id, f) == PatchRows(rows, id, f) + added
  {
  }

  lemma DelPortPatch(t: Table, prefix: seq<int>, vid: int, port: string, row: Row, f: Fields)
    requires WellFormed(t) && Find(t.rows, vid) == Some(row)
    requires f == if |row.vids| == 1 then KeepPorts(row, port) else KeepVids(Without(row.vids, vid))
    ensures var rows := PortFates(t.rows, prefix + [vid], port) + SplitOff(t, prefix, port);
            Patch(DelPortTable(t, prefix, port), row.id, f)
            == Reply(DelPortTable(t, prefix, port).(rows := rows), false)
  {
    var fates, split := PortFates(t.rows, prefix, port), SplitOff(t, prefix, port);
    assert HasId(fates + split, row.id) by {
      var k :| 0 <= k < |t.rows| && t.rows[k] == row;
      assert fates[k] in fates + split;
    }
    PatchedFates(t, prefix, vid, port, row, f);
    SplitOffIds(t, prefix, port);
    PatchSparesNew(fates, split, row.id, f);
  }

  lemma DelPortStepClosed(t: Table, prefix: seq<int>, vid: int, port: string)
    requires WellFormed(t) && Find(t.rows, vid).Some?
    ensures DelPortStep(t.rows, DelPortTable(t, prefix, port), vid, port)
            == Reply(DelPortTable(t, prefix + [vid], port), false)
  {
    var row := Find(t.rows, vid).value;
    SplitOffSnoc(t, prefix, vid, port);
    if Shared(t.rows, vid) {
      DelPortPatch(t, prefix, vid, port, row, KeepVids(Without(row.vids, vid)));
      SplitsOwnRow(t, prefix, PortFates(t.rows, prefix + [vid], port), vid, port);
    } else {
      DelPortPatch(t, prefix, vid, port, row, KeepPorts(row, port));
    }
  }

  lemma SplitsOwnRow(t: Table, prefix: seq<int>, fates: seq<Row>, vid: int, port: string)
    requires Shared(t.rows, vid)
    requires var row, now := Find(t.rows, vid).value, DelPortTable(t, prefix, port);
             Patch(now, row.id, KeepVids(Without(row.vids, vid)))
             == Reply(now.(rows := fates + SplitOff(t, prefix, port)), false)
    ensures var split := SplitOff(t, prefix, port);
            var more := split + [NewRow(t, t.nextId + |split|, vid, port)];
            DelPortStep(t.rows, DelPortTable(t, prefix, port), vid, port)
            == Reply(Table(fates + more, t.nextId + |more|, t.strict), false)
  {
    var row, split := Find(t.rows, vid).value, SplitOff(t, prefix, port);
    PutsOwnRow(t.rows, DelPortTable(t, prefix, port), fates + split, vid, port, row);
    Regroup(fates, split, NewRow(t, t.nextId + |split|, vid, port));
  }

  lemma PutsOwnRow(stale: seq<Row>, now: Table, rows: seq<Row>, vid: int, port: string, row: Row)
    requires Find(stale, vid) == Some(row) && |row.vids| != 1
    requires Patch(now, row.id, KeepVids(Without(row.vids, vid))) == Reply(now.(rows := rows), false)
    ensures var own := Row(now.nextId, [vid], Without(row.tagged, port), Without(row.untagged, port));
            DelPortStep(stale, now, vid, port) == Reply(Table(rows + [own], now.nextId + 1, now.strict), false)
  {
  }

  lemma Regroup(fates: seq<Row>, split: seq<Row>, added: Row)
    ensures fates + (split + [added]) == (fates + split) + [added]
  {
  }

  lemma SplitOffSnoc(t: Table, prefix: seq<int>, vid: int, port: string)
    requires Find(t.rows, vid).Some?
    ensures var split := SplitOff(t, prefix, port);
            SplitOff(t, prefix + [vid], port)
            == if Shared(t.rows, vid) then split + [NewRow(t, t.nextId + |split|, vid, port)] else split
  {
    SplitOffLast(t, prefix + [vid], port);
    assert Front(prefix + [vid]) == prefix;
  }

  lemma SplitOffLast(t: Table, vids: seq<int>, port: string)
    requires vids != [] && Find(t.rows, Last(vids)).Some?
    ensures var split := SplitOff(t, Front(vids), port);
            SplitOff(t, vids, port)
            == if Shared(t.rows, Last(vids)) then split + [NewRow(t, t.nextId + |split|, Last(vids), port)] else split
  {
  }

  // ---------------------------------------------------------------- what it means

  /** No two listed VIDs are served by one shared row. */
  ghost predicate PortSafe(rows: seq<Row>, vids: seq<int>) {
    forall i, j :: 0 <= i < j < |vids| && Find(rows, vids[i]).Some? && Find(rows, vids[i]) == Find(rows, vids[j])
      ==> |Find(rows, vids[i]).value.vids| == 1
  }

  ghost function WithoutPort(m: Members, port: string): Members {
    Members(m.tagged - {port}, m.untagged - {port})
  }

  ghost function IdealDelPort(view: map<int, Members>, vids: seq<int>, port: string): map<int, Members> {
    map v | v in view :: if v in vids then WithoutPort(view[v], port) else view[v]
  }

  lemma FateMembers(t: Table, vids: seq<int>, port: string)
    requires WellFormed(t)
    ensures forall r :: r in t.rows ==> PortFate(r, vids, port) in PortFates(t.rows, vids, port)
    ensures forall r' :: r' in PortFates(t.rows, vids, port) ==>
      ById(t.rows, r'.id).Some? && PortFate(ById(t.rows, r'.id).value, vids, port) == r'
  {
    var fates := PortFates(t.rows, vids, port);
    forall r | r in t.rows
      ensures PortFate(r, vids, port) in fates
    {
      var i :| 0 <= i < |t.rows| && t.rows[i] == r;
      assert fates[i] in fates;
    }
    forall r' | r' in fates
      ensures ById(t.rows, r'.id).Some? && PortFate(ById(t.rows, r'.id).value, vids, port) == r'
    {
      var i :| 0 <= i < |fates| && fates[i] == r';
      assert t.rows[i] in t.rows;
    }
  }

  /** Every split-off row serves one listed VID of a shared row. */
  ghost predicate IsSplit(t: Table, vids: seq<int>, port: string, row: Row) {
    exists v :: v in vids && Shared(t.rows, v) && row == NewRow(t, row.id, v, port)
  }

  lemma {:induction false} SplitMembers(t: Table, vids: seq<int>, port: string)
    ensures forall row :: row in SplitOff(t, vids, port) ==> IsSplit(t, vids, port, row)
  {
    if vids != [] {
      SplitMembers(t, Front(vids), port);
      assert vids == Front(vids) + [Last(vids)];
      forall row | row in SplitOff(t, vids, port)
        ensures IsSplit(t, vids, port, row)
      {
        if row in SplitOff(t, Front(vids), port) {
          assert IsSplit(t, Front(vids), port, row);
        }
      }
    }
  }

  lemma {:induction false} SplitCovers(t: Table, vids: seq<int>, port: string, v: int) returns (k: nat)
    requires v in vids && Shared(t.rows, v)
    ensures k < |SplitOff(t, vids, port)| && SplitOff(t, vids, port)[k] == NewRow(t, t.nextId + k, v, port)
  {
    assert vids == Front(vids) + [Last(vids)];
    if Last(vids) == v {
      k := |SplitOff(t, Front(vids), port)|;
    } else {
      k := SplitCovers(t, Front(vids), port, v);
    }
  }

  /** A VID listed twice in a shared row ends up in two split-off rows. */
  lemma {:induction false} SplitTwice(t: Table, vids: seq<int>, port: string, i: nat, j: nat) returns (a: nat, b: nat)
    requires i < j < |vids| && vids[i] == vids[j] && Shared(t.rows, vids[j])
    ensures a < b < |SplitOff(t, vids, port)|
    ensures vids[i] in SplitOff(t, vids, port)[a].vids && vids[i] in SplitOff(t, vids, port)[b].vids
  {
    if j == |vids| - 1 {
      assert Front(vids)[i] == vids[i];
      a := SplitCovers(t, Front(vids), port, vids[i]);
      b := |SplitOff(t, Front(vids), port)|;
    } else {
      a, b := SplitTwice(t, Front(vids), port, i, j);
    }
  }

  lemma NotListedBefore(t: Table, vids: seq<int>)
    requires vids != [] && PortSafe(t.rows, vids) && Shared(t.rows, Last(vids))
    ensures Last(vids) !in Front(vids)
  {
    forall i | 0 <= i < |vids| - 1
      ensures vids[i] != Last(vids)
    {
      assert vids[|vids| - 1] == Last(vids);
    }
  }

  lemma {:induction false} SplitOnce(t: Table, vids: seq<int>, port: string)
    requires PortSafe(t.rows, vids)
    ensures forall a, b :: 0 <= a < b < |SplitOff(t, vids, port)| ==>
      SplitOff(t, vids, port)[a].vids != SplitOff(t, vids, port)[b].vids
  {
    if vids != [] {
      var v, rest := Last(vids), SplitOff(t, Front(vids), port);
      SplitOnce(t, Front(vids), port);
      SplitMembers(t, Front(vids), port);
      if Shared(t.rows, v) {
        forall a | 0 <= a < |rest|
          ensures rest[a].vids != [v]
        {
          assert rest[a] in rest;
          NotListedBefore(t, vids);
        }
      }
    }
  }

  lemma SafeMeansLast(t: Table, vids: seq<int>, v: int)
    requires WellFormed(t) && PortSafe(t.rows, vids) && v in vids && Shared(t.rows, v)
    ensures LastListed(vids, Find(t.rows, v).value.vids) == Some(v)
  {
    var row := Find(t.rows, v).value;
    var last := LastListed(vids, row.vids).value;
    FindUnique(t.rows, row, last);
    var i :| 0 <= i < |vids| && vids[i] == v;
    var j :| 0 <= j < |vids| && vids[j] == last;
    assert i < j ==> Find(t.rows, vids[i]) == Find(t.rows, vids[j]);
  }

  lemma FatesKeepWellFormed(t: Table, vids: seq<int>, port: string)
    requires WellFormed(t)
    ensures WellFormed(t.(rows := PortFates(t.rows, vids, port)))
  {
    FateMembers(t, vids, port);
    var fates := PortFates(t.rows, vids, port);
    forall r | r in fates
      ensures r.id < t.nextId && NoDup(r.vids)
    {
      var r0 := ById(t.rows, r.id).value;
      assert r == PortFate(r0, vids, port);
    }
    forall r, s | r in fates && s in fates && (r.id == s.id || Share(r, s))
      ensures r == s
    {
      FatesOfOneRow(t, vids, port, ById(t.rows, r.id).value, ById(t.rows, s.id).value);
    }
  }

  lemma FatesOfOneRow(t: Table, vids: seq<int>, port: string, r: Row, s: Row)
    requires WellFormed(t) && r in t.rows && s in t.rows
    requires r.id == s.id || Share(PortFate(r, vids, port), PortFate(s, vids, port))
    ensures r == s
  {
    if r.id != s.id {
      var v :| v in PortFate(r, vids, port).vids && v in PortFate(s, vids, port).vids;
      assert v in r.vids && v in s.vids;
      assert Share(r, s);
    }
  }

  lemma SplitIsWellFormed(t: Table, vids: seq<int>, port: string)
    requires PortSafe(t.rows, vids)
    ensures var split := SplitOff(t, vids, port);
            UniqueIds(split) && Partition(split)
            && forall r :: r in split ==> t.nextId <= r.id < t.nextId + |split| && NoDup(r.vids)
  {
    var split := SplitOff(t, vids, port);
    SplitOffIds(t, vids, port);
    SplitMembers(t, vids, port);
    SplitOnce(t, vids, port);
    forall r | r in split
      ensures |r.vids| == 1
    {
      assert IsSplit(t, vids, port, r);
    }
    DistinctRows(split, t.nextId);
  }

  /** Rows numbered one after the other, each with one VID of its own. */
  lemma DistinctRows(rows: seq<Row>, first: nat)
    requires forall i :: 0 <= i < |rows| ==> rows[i].id == first + i
    requires forall r :: r in rows ==> |r.vids| == 1
    requires forall a, b :: 0 <= a < b < |rows| ==> rows[a].vids != rows[b].vids
    ensures UniqueIds(rows) && Partition(rows)
  {
    forall r, s | r in rows && s in rows && (r.id == s.id || Share(r, s))
      ensures r == s
    {
      var a :| 0 <= a < |rows| && rows[a] == r;
      var b :| 0 <= b < |rows| && rows[b] == s;
      if Share(r, s) {
        SharedSingle(r, s);
      }
    }
  }

  lemma SharedSingle(r: Row, s: Row)
    requires |r.vids| == 1 && |s.vids| == 1 && Share(r, s)
    ensures r.vids == s.vids
  {
    var v :| v in r.vids && v in s.vids;
    assert r.vids == [v] && s.vids == [v];
  }

  lemma FatesAvoidSplit(t: Table, vids: seq<int>, port: string, r: Row, s: Row)
    requires WellFormed(t) && PortSafe(t.rows, vids)
    requires r in PortFates(t.rows, vids, port) && s in SplitOff(t, vids, port)
    ensures !Share(r, s)
  {
    FateMembers(t, vids, port);
    SplitMembers(t, vids, port);
    var v :| v in vids && Shared(t.rows, v) && s == NewRow(t, s.id, v, port);
    SafeMeansLast(t, vids, v);
    if v in r.vids {
      FindUnique(t.rows, ById(t.rows, r.id).value, v);
    }
  }

  lemma DelPortKeepsWellFormed(t: Table, vids: seq<int>, port: string)
    requires WellFormed(t) && PortSafe(t.rows, vids)
    ensures WellFormed(DelPortTable(t, vids, port))
  {
    var fates, split := PortFates(t.rows, vids, port), SplitOff(t, vids, port);
    FatesKeepWellFormed(t, vids, port);
    SplitIsWellFormed(t, vids, port);
    forall r, s | r in fates + split && s in fates + split && Share(r, s)
      ensures r == s
    {
      if r in fates && s in split {
        FatesAvoidSplit(t, vids, port, r, s);
      } else if r in split && s in fates {
        FatesAvoidSplit(t, vids, port, s, r);
      }
    }
  }

  lemma ClashSplitsTwice(t: Table, vids: seq<int>, port: string, i: nat, j: nat)
    requires i < j < |vids| && vids[i] == vids[j] && Shared(t.rows, vids[j])
    ensures !WellFormed(DelPortTable(t, vids, port))
  {
    var fates, split := PortFates(t.rows, vids, port), SplitOff(t, vids, port);
    SplitOffIds(t, vids, port);
    var a, b := SplitTwice(t, vids, port, i, j);
    assert split[a] in fates + split && split[b] in fates + split;
    assert Share(split[a], split[b]);
  }

  lemma ClashLeavesBehind(t: Table, vids: seq<int>, port: string, v: int)
    requires WellFormed(t) && v in vids && Shared(t.rows, v)
    requires LastListed(vids, Find(t.rows, v).value.vids) != Some(v)
    ensures !WellFormed(DelPortTable(t, vids, port))
  {
    var fates, split := PortFates(t.rows, vids, port), SplitOff(t, vids, port);
    var fate := PortFate(Find(t.rows, v).value, vids, port);
    SplitOffIds(t, vids, port);
    FateMembers(t, vids, port);
    var k := SplitCovers(t, vids, port, v);
    assert split[k] in fates + split && fate in fates + split;
    assert v in fate.vids && v in split[k].vids;
    assert Share(fate, split[k]);
  }

  lemma DelPortBreaksPartition(t: Table, vids: seq<int>, port: string)
    requires WellFormed(t) && !PortSafe(t.rows, vids)
    ensures !WellFormed(DelPortTable(t, vids, port))
  {
    var i, j :| 0 <= i < j < |vids| && Find(t.rows, vids[i]).Some? && Find(t.rows, vids[i]) == Find(t.rows, vids[j])
      && |Find(t.rows, vids[i]).value.vids| != 1;
    var row := Find(t.rows, vids[i]).value;
    if vids[i] == vids[j] {
      ClashSplitsTwice(t, vids, port, i, j);
    } else {
      ClashLeavesBehind(t, vids, port, if LastListed(vids, row.vids) == Some(vids[i]) then vids[j] else vids[i]);
    }
  }

  lemma DelPortViewSplit(t: Table, vids: seq<int>, port: string, v: int)
    requires WellFormed(t) && PortSafe(t.rows, vids) && v in vids && Shared(t.rows, v)
    ensures Carries(DelPortTable(t, vids, port).rows, v, WithoutPort(MembersOf(Find(t.rows, v).value), port))
  {
    DelPortKeepsWellFormed(t, vids, port);
    var k := SplitCovers(t, vids, port, v);
    FindUnique(DelPortTable(t, vids, port).rows, SplitOff(t, vids, port)[k], v);
  }

  lemma DelPortViewKept(t: Table, vids: seq<int>, port: string, v: int, row: Row)
    requires WellFormed(t) && PortSafe(t.rows, vids) && Find(t.rows, v) == Some(row)
    requires !(v in vids && Shared(t.rows, v))
    ensures Carries(DelPortTable(t, vids, port).rows, v,
                    if v in vids then WithoutPort(MembersOf(row), port) else MembersOf(row))
  {
    DelPortKeepsWellFormed(t, vids, port);
    FateStays(t, vids, port, row);
    FateOfKept(row, vids, port, v);
    FindUnique(DelPortTable(t, vids, port).rows, PortFate(row, vids, port), v);
  }

  lemma FateStays(t: Table, vids: seq<int>, port: string, row: Row)
    requires row in t.rows
    ensures PortFate(row, vids, port) in DelPortTable(t, vids, port).rows
  {
    var i :| 0 <= i < |t.rows| && t.rows[i] == row;
    assert DelPortTable(t, vids, port).rows[i] == PortFate(row, vids, port);
  }

  /** A VID of its own row, or one that is not listed, is still served by what becomes of its row. */
  lemma FateOfKept(row: Row, vids: seq<int>, port: string, v: int)
    requires v in row.vids && (|row.vids| == 1 || v !in vids)
    ensures var fate := PortFate(row, vids, port);
            v in fate.vids
            && MembersOf(fate) == if v in vids then WithoutPort(MembersOf(row), port) else MembersOf(row)
  {
    if |row.vids| == 1 {
      assert row.vids == [v];
    }
  }

  lemma DelPortAddsNothing(t: Table, vids: seq<int>, port: string, v: int)
    requires WellFormed(t)
    requires Find(DelPortTable(t, vids, port).rows, v).Some?
    ensures Find(t.rows, v).Some?
  {
    FateMembers(t, vids, port);
    SplitMembers(t, vids, port);
    var row' := Find(DelPortTable(t, vids, port).rows, v).value;
    if row' !in PortFates(t.rows, vids, port) {
      assert IsSplit(t, vids, port, row');
    }
  }

  lemma DelPortMeaning(t: Table, vids: seq<int>, port: string)
    requires WellFormed(t) && PortSafe(t.rows, vids)
    ensures View(DelPortTable(t, vids, port).rows) == IdealDelPort(View(t.rows), vids, port)
  {
    var rows := DelPortTable(t, vids, port).rows;
    forall v | Find(t.rows, v).Some?
      ensures Carries(rows, v, IdealDelPort(View(t.rows), vids, port)[v])
    {
      if v in vids && Shared(t.rows, v) {
        DelPortViewSplit(t, vids, port, v);
      } else {
        DelPortViewKept(t, vids, port, v, Find(t.rows, v).value);
      }
    }
    forall v | Find(rows, v).Some?
      ensures Find(t.rows, v).Some?
    {
      DelPortAddsNothing(t, vids, port, v);
    }
    ViewIs(rows, IdealDelPort(View(t.rows), vids, port));
  }

  lemma DelPortTableExact(t: Table, vids: seq<int>, port: string)
    requires WellFormed(t)
    ensures var after := DelPortTable(t, vids, port);
            && (WellFormed(after) <==> PortSafe(t.rows, vids))
            && (PortSafe(t.rows, vids) ==> View(after.rows) == IdealDelPort(View(t.rows), vids, port))
  {
    if PortSafe(t.rows, vids) {
      DelPortKeepsWellFormed(t, vids, port);
      DelPortMeaning(t, vids, port);
    } else {
      DelPortBreaksPartition(t, vids, port);
    }
  }

  /**
   * `_del_vlan_to_port` on declared VIDs keeps every VID in one row exactly when no two listed VIDs
   * are served by one shared row; and then it takes the port out of the listed VLANs and changes
   * nothing else.
   */
  lemma DelPortExact(t: Table, vids: seq<int>, port: string)
    requires WellFormed(t) && Declared(t.rows, vids)
    ensures var o := DelPortRun(t, vids, port);
            && !o.raised
            && (WellFormed(o.table) <==> PortSafe(t.rows, vids))
            && (PortSafe(t.rows, vids) ==> View(o.table.rows) == IdealDelPort(View(t.rows), vids, port))
  {
    DelPortClosedForm(t, vids, port);
    DelPortTableExact(t, vids, port);
  }
}
