/** The MikroTik driver object: its loops over the REST endpoint, and the view it keeps of the device. */
module MikrotikSwitch {
  import opened Common
  import opened BridgeTable
  import opened MikrotikDelete
  import opened MikrotikDeletePort
  import opened MikrotikDriver

  /** An entry of a trunk list: an integer, or the decimal text of one. */
  datatype Entry = Number(n: int) | Text(n: int)

  // ---------------------------------------------------------------- the switch view as a function of the table

  function VlansOf(rows: seq<Row>): seq<int> {
    if rows == [] then [] else AppendNew(VlansOf(Front(rows)), Last(rows).vids)
  }

  function Texts(vids: seq<int>): (r: seq<Entry>)
    ensures |r| == |vids| && forall i :: 0 <= i < |vids| ==> r[i] == Text(vids[i])
  {
    seq(|vids|, i requires 0 <= i < |vids| => Text(vids[i]))
  }

  /** What one row adds to the trunk list of `port`: all its VIDs for every time it names the port. */
  function TrunkOfRow(vids: seq<int>, tagged: seq<string>, port: string): seq<Entry> {
    if tagged == [] then []
    else TrunkOfRow(vids, Front(tagged), port) + if Last(tagged) == port then Texts(vids) else []
  }

  function TrunkOf(rows: seq<Row>, port: string): seq<Entry> {
    if rows == [] then [] else TrunkOf(Front(rows), port) + TrunkOfRow(Last(rows).vids, Last(rows).tagged, port)
  }

  /** The list names the VIDs of the earlier rows first. */
  lemma {:induction false} VlansOfInOrder(rows: seq<Row>, k: nat)
    requires k <= |rows|
    ensures VlansOf(rows[..k]) <= VlansOf(rows)
  {
    if k == |rows| {
      assert rows[..k] == rows;
    } else {
      assert Front(rows)[..k] == rows[..k];
      VlansOfInOrder(Front(rows), k);
      AppendNewPrefix(VlansOf(Front(rows)), Last(rows).vids, 0);
    }
  }

  /** So does a trunk list. */
  lemma {:induction false} TrunkOfInOrder(rows: seq<Row>, port: string, k: nat)
    requires k <= |rows|
    ensures TrunkOf(rows[..k], port) <= TrunkOf(rows, port)
  {
    if k == |rows| {
      assert rows[..k] == rows;
    } else {
      assert Front(rows)[..k] == rows[..k];
      TrunkOfInOrder(Front(rows), port, k);
    }
  }

  lemma {:induction false} VlansOfMeaning(rows: seq<Row>)
    ensures NoDup(VlansOf(rows))
    ensures forall v :: v in VlansOf(rows) <==> Find(rows, v).Some?
  {
    if rows != [] {
      VlansOfMeaning(Front(rows));
      AppendNewMembers(VlansOf(Front(rows)), Last(rows).vids);
      assert rows == Front(rows) + [Last(rows)];
    }
  }

  lemma {:induction false} TrunkOfRowMeaning(vids: seq<int>, tagged: seq<string>, port: string)
    ensures forall e :: e in TrunkOfRow(vids, tagged, port) <==> port in tagged && e.Text? && e.n in vids
    ensures NoDup(tagged) ==> TrunkOfRow(vids, tagged, port) == if port in tagged then Texts(vids) else []
  {
    if tagged != [] {
      TrunkOfRowMeaning(vids, Front(tagged), port);
      assert tagged == Front(tagged) + [Last(tagged)];
      assert NoDup(tagged) ==> Last(tagged) !in Front(tagged);
      assert forall e :: e in Texts(vids) <==> e.Text? && e.n in vids by {
        forall e: Entry | e.Text? && e.n in vids
          ensures e in Texts(vids)
        {
          var i :| 0 <= i < |vids| && vids[i] == e.n;
          assert Texts(vids)[i] == e;
        }
      }
    }
  }

  /** Some row tags `port` with `v`. */
  ghost predicate Tags(rows: seq<Row>, v: int, port: string) {
    exists row :: row in rows && v in row.vids && port in row.tagged
  }

  lemma {:induction false} TrunkOfMeaning(rows: seq<Row>, port: string)
    ensures forall e :: e in TrunkOf(rows, port) <==> e.Text? && Tags(rows, e.n, port)
  {
    if rows != [] {
      var before, row := Front(rows), Last(rows);
      TrunkOfMeaning(before, port);
      TrunkOfRowMeaning(row.vids, row.tagged, port);
      assert rows == before + [row];
      forall v
        ensures Tags(rows, v, port) <==> Tags(before, v, port) || (v in row.vids && port in row.tagged)
      {
      }
    }
  }

  lemma NoDupConcat<T>(a: seq<T>, b: seq<T>)
    ensures NoDup(a + b) <==> NoDup(a) && NoDup(b) && forall x :: x in a ==> x !in b
  {
    var all := a + b;
    assert forall i :: 0 <= i < |a| ==> all[i] == a[i];
    assert forall i :: 0 <= i < |b| ==> all[|a| + i] == b[i];
    if NoDup(all) {
      forall i, j | 0 <= i < |a| && 0 <= j < |b|
        ensures a[i] != b[j]
      {
        assert all[i] != all[|a| + j];
      }
      forall i, j | 0 <= i < j < |b|
        ensures b[i] != b[j]
      {
        assert all[|a| + i] != all[|a| + j];
      }
    }
    if NoDup(a) && NoDup(b) && forall x :: x in a ==> x !in b {
      forall i, j | 0 <= i < j < |all|
        ensures all[i] != all[j]
      {
        if i < |a| <= j {
          assert a[i] in a && b[j - |a|] in b;
        }
      }
    }
  }

  /** The port is listed at most once. */
  predicate Once(tagged: seq<string>, port: string) {
    forall i, j :: 0 <= i < j < |tagged| && tagged[i] == tagged[j] ==> tagged[i] != port
  }

  lemma OnceSnoc(tagged: seq<string>, last: string, port: string)
    ensures Once(tagged + [last], port) <==> Once(tagged, port) && (last == port ==> port !in tagged)
  {
    var all := tagged + [last];
    assert forall i :: 0 <= i < |tagged| ==> all[i] == tagged[i];
    if last == port && port in tagged {
      var i :| 0 <= i < |tagged| && tagged[i] == port;
      assert all[i] == all[|tagged|];
    }
  }

  lemma {:induction false} TrunkOfRowNoDup(vids: seq<int>, tagged: seq<string>, port: string)
    requires NoDup(vids)
    ensures NoDup(TrunkOfRow(vids, tagged, port)) <==> vids == [] || Once(tagged, port)
  {
    if tagged != [] {
      var before, last := Front(tagged), Last(tagged);
      assert tagged == before + [last];
      TrunkOfRowNoDup(vids, before, port);
      TrunkOfRowMeaning(vids, before, port);
      OnceSnoc(before, last, port);
      NoDupConcat(TrunkOfRow(vids, before, port), if last == port then Texts(vids) else []);
      if vids != [] {
        assert Texts(vids)[0] in Texts(vids);
        assert Text(vids[0]) in TrunkOfRow(vids, before, port) <==> port in before;
      }
    }
  }

  /** Every row with VIDs lists the port at most once. */
  ghost predicate OnceInRows(rows: seq<Row>, port: string) {
    forall row :: row in rows && row.vids != [] ==> Once(row.tagged, port)
  }

  lemma {:induction false} TrunkOfNoDup(rows: seq<Row>, port: string)
    requires NoDup(rows) && Partition(rows) && forall row :: row in rows ==> NoDup(row.vids)
    ensures NoDup(TrunkOf(rows, port)) <==> OnceInRows(rows, port)
  {
    if rows != [] {
      var before, row := Front(rows), Last(rows);
      assert rows == before + [row];
      TrunkOfNoDup(before, port);
      TrunkOfRowMeaning(row.vids, row.tagged, port);
      TrunkOfRowNoDup(row.vids, row.tagged, port);
      TrunkOfMeaning(before, port);
      NoDupConcat(TrunkOf(before, port), TrunkOfRow(row.vids, row.tagged, port));
      forall e | e in TrunkOf(before, port)
        ensures e !in TrunkOfRow(row.vids, row.tagged, port)
      {
        var other :| other in before && e.n in other.vids && port in other.tagged;
        if e.n in row.vids {
          assert Share(row, other);
        }
      }
    }
  }

  /**
   * The view after `retrieve_vlans`, for every table: `vlans` lists each VID of the table once, and the
   * trunk list of a port names, as text, exactly the VIDs that tag it; once each exactly when no row with
   * VIDs lists the port again. It never holds an integer. The guards of the base class look for integers,
   * so they always find a VID missing from a trunk list.
   */
  lemma ViewAgrees(t: Table, port: string, v: int)
    requires WellFormed(t)
    ensures NoDup(VlansOf(t.rows)) && Elements(VlansOf(t.rows)) == View(t.rows).Keys
    ensures Text(v) in TrunkOf(t.rows, port) <==> v in View(t.rows) && port in View(t.rows)[v].tagged
    ensures Number(v) !in TrunkOf(t.rows, port)
    ensures NoDup(t.rows) ==> (NoDup(TrunkOf(t.rows, port)) <==> OnceInRows(t.rows, port))
  {
    VlansAgree(t.rows);
    TrunkOfMeaning(t.rows, port);
    if NoDup(t.rows) {
      TrunkOfNoDup(t.rows, port);
    }
    TagsAgree(t.rows, v, port);
  }

  lemma VlansAgree(rows: seq<Row>)
    ensures NoDup(VlansOf(rows)) && Elements(VlansOf(rows)) == View(rows).Keys
  {
    VlansOfMeaning(rows);
    forall v
      ensures v in Elements(VlansOf(rows)) <==> v in View(rows).Keys
    {
      assert v in VlansOf(rows) <==> Find(rows, v).Some?;
    }
  }

  lemma TagsAgree(rows: seq<Row>, v: int, port: string)
    requires Partition(rows)
    ensures Tags(rows, v, port) <==> v in View(rows) && port in View(rows)[v].tagged
  {
    if Tags(rows, v, port) {
      var row :| row in rows && v in row.vids && port in row.tagged;
      FindUnique(rows, row, v);
    }
  }

  // ---------------------------------------------------------------- the driver

  lemma {:induction false} RaiseStopsDelVlan(t: Table, vids: seq<int>, n: nat)
    requires n <= |vids| && DelVlanRun(t, vids[..n]).raised
    ensures DelVlanRun(t, vids) == DelVlanRun(t, vids[..n])
  {
    if n == |vids| {
      assert vids[..n] == vids;
    } else {
      assert Front(vids)[..n] == vids[..n];
      RaiseStopsDelVlan(t, Front(vids), n);
    }
  }

  lemma {:induction false} RaiseStopsDelPort(t: Table, vids: seq<int>, port: string, n: nat)
    requires n <= |vids| && DelPortRun(t, vids[..n], port).raised
    ensures DelPortRun(t, vids, port) == DelPortRun(t, vids[..n], port)
  {
    if n == |vids| {
      assert vids[..n] == vids;
    } else {
      assert Front(vids)[..n] == vids[..n];
      RaiseStopsDelPort(t, Front(vids), port, n);
    }
  }

  lemma TrunkOfRowSnoc(trunk: seq<Entry>, vids: seq<int>, tagged: seq<string>, port: string, j: nat)
    requires j < |tagged|
    ensures var more := if tagged[j] == port then Texts(vids) else [];
            trunk + TrunkOfRow(vids, tagged[..j + 1], port) == trunk + TrunkOfRow(vids, tagged[..j], port) + more
  {
    assert Front(tagged[..j + 1]) == tagged[..j];
  }

  class Microtik {
    const rest: RosRest
    const phyPorts: seq<string>
    var vlans: seq<int>
    var trunkVlans: map<string, seq<Entry>>

    constructor (rest: RosRest, phyPorts: seq<string>)
      ensures this.rest == rest && this.phyPorts == phyPorts
      ensures vlans == [] && trunkVlans == map port | port in phyPorts :: []
    {
      this.rest := rest;
      this.phyPorts := phyPorts;
      vlans := [];
      trunkVlans := map port | port in phyPorts :: [];
    }

    method AddVlan(vids: seq<int>)
      modifies rest
      ensures rest.table == AddVlanRun(old(rest.table), vids)
    {
      for i := 0 to |vids|
        invariant rest.table == AddVlanRun(old(rest.table), vids[..i])
      {
        var raised := rest.PutRow(NewVlan(vids[i]));
        assert Front(vids[..i + 1]) == vids[..i];
      }
      assert vids[..|vids|] == vids;
    }

    method DelVlan(vids: seq<int>) returns (raised: bool)
      modifies rest
      ensures Reply(rest.table, raised) == DelVlanRun(old(rest.table), vids)
    {
      var stale := rest.Get();
      raised := false;
      for i := 0 to |vids|
        invariant !raised && Reply(rest.table, raised) == DelVlanRun(old(rest.table), vids[..i])
      {
        match Find(stale, vids[i]) {
          case Some(row) =>
            if |row.vids| == 1 {
              raised := rest.DeleteRow(row.id);
            } else {
              raised := rest.PatchRow(row.id, KeepVids(Without(row.vids, vids[i])));
            }
          case None =>
        }
        assert Front(vids[..i + 1]) == vids[..i];
        if raised {
          RaiseStopsDelVlan(old(rest.table), vids, i + 1);
          return;
        }
      }
      assert vids[..|vids|] == vids;
    }

    method AddVlanToPort(vid: int, port: string, pvid: bool) returns (raised: bool)
      modifies rest
      ensures Reply(rest.table, raised) == MikrotikDriver.AddVlanToPort(old(rest.table), vid, port, pvid)
    {
      var table := rest.Get();
      var found := Find(table, vid);
      if found.None? {
        return true;
      }
      var row := found.value;
      if |row.vids| > 1 {
        raised := rest.PatchRow(row.id, Fields(None, None, None, true));
        if raised {
          return;
        }
      }
      var data;
      if pvid {
        if port in row.tagged {
          return true;
        }
        data := Fields(None, None, Some(row.untagged + [port]), |row.vids| > 1);
      } else {
        if port in row.untagged {
          return true;
        }
        data := Fields(None, Some(row.tagged + [port]), None, |row.vids| > 1);
      }
      if |row.vids| > 1 {
        raised := rest.PutRow(data);
      } else {
        raised := rest.PatchRow(row.id, data);
      }
    }

    method DelVlanToPort(vids: seq<int>, port: string) returns (raised: bool)
      modifies rest
      ensures Reply(rest.table, raised) == DelPortRun(old(rest.table), vids, port)
    {
      var stale := rest.Get();
      raised := false;
      for i := 0 to |vids|
        invariant !raised && Reply(rest.table, raised) == DelPortRun(old(rest.table), vids[..i], port)
      {
        assert Front(vids[..i + 1]) == vids[..i];
        var found := Find(stale, vids[i]);
        if found.None? {
          RaiseStopsDelPort(old(rest.table), vids, port, i + 1);
          return true;
        }
        var row := found.value;
        if |row.vids| == 1 {
          raised := rest.PatchRow(row.id, KeepPorts(row, port));
        } else {
          raised := rest.PatchRow(row.id, KeepVids(Without(row.vids, vids[i])));
          if !raised {
            raised := rest.PutRow(OwnRow(row, vids[i], port));
          }
        }
        if raised {
          RaiseStopsDelPort(old(rest.table), vids, port, i + 1);
          return;
        }
      }
      assert vids[..|vids|] == vids;
    }

    /** The innermost loop of `retrieve_vlans`: a port the switch does not have is skipped. */
    method NoteTaggedPort(vids: seq<int>, port: string)
      modifies `trunkVlans
      ensures trunkVlans.Keys == old(trunkVlans).Keys
      ensures forall p :: p in trunkVlans ==>
        trunkVlans[p] == old(trunkVlans)[p] + if p == port then Texts(vids) else []
    {
      if port in trunkVlans {
        for k := 0 to |vids|
          invariant trunkVlans.Keys == old(trunkVlans).Keys
          invariant forall p :: p in trunkVlans ==>
            trunkVlans[p] == old(trunkVlans)[p] + if p == port then Texts(vids[..k]) else []
        {
          trunkVlans := trunkVlans[port := trunkVlans[port] + [Text(vids[k])]];
          assert Texts(vids[..k + 1]) == Texts(vids[..k]) + [Text(vids[k])];
        }
        assert vids[..|vids|] == vids;
      }
    }

    /** What `retrieve_vlans` does with one row. */
    method NoteRow(row: Row)
      modifies `vlans, `trunkVlans
      ensures vlans == AppendNew(old(vlans), row.vids)
      ensures trunkVlans.Keys == old(trunkVlans).Keys
      ensures forall p :: p in trunkVlans ==>
        trunkVlans[p] == old(trunkVlans)[p] + TrunkOfRow(row.vids, row.tagged, p)
    {
      for j := 0 to |row.vids|
        invariant vlans == AppendNew(old(vlans), row.vids[..j])
        invariant trunkVlans == old(trunkVlans)
      {
        assert Front(row.vids[..j + 1]) == row.vids[..j];
        if row.vids[j] !in vlans {
          vlans := vlans + [row.vids[j]];
        }
      }
      assert row.vids[..|row.vids|] == row.vids;
      for j := 0 to |row.tagged|
        invariant vlans == AppendNew(old(vlans), row.vids)
        invariant trunkVlans.Keys == old(trunkVlans).Keys
        invariant forall p :: p in trunkVlans ==>
          trunkVlans[p] == old(trunkVlans)[p] + TrunkOfRow(row.vids, row.tagged[..j], p)
      {
        ghost var before := trunkVlans;
        NoteTaggedPort(row.vids, row.tagged[j]);
        forall p | p in trunkVlans
          ensures trunkVlans[p] == old(trunkVlans)[p] + TrunkOfRow(row.vids, row.tagged[..j + 1], p)
        {
          TrunkOfRowSnoc(old(trunkVlans)[p], row.vids, row.tagged, p, j);
        }
      }
      assert row.tagged[..|row.tagged|] == row.tagged;
    }

    /** `update_info` empties the lists and then calls this. */
    method RetrieveVlans()
      requires vlans == [] && trunkVlans == map port | port in phyPorts :: []
      modifies `vlans, `trunkVlans
      ensures vlans == VlansOf(rest.table.rows)
      ensures trunkVlans == map port | port in phyPorts :: TrunkOf(rest.table.rows, port)
    {
      var rows := rest.Get();
      for i := 0 to |rows|
        invariant vlans == VlansOf(rows[..i])
        invariant trunkVlans == map port | port in phyPorts :: TrunkOf(rows[..i], port)
      {
        NoteRow(rows[i]);
        assert Front(rows[..i + 1]) == rows[..i];
      }
      assert rows[..|rows|] == rows;
    }
  }
}
