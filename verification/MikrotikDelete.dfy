/**
 * Deleting VLANs from the bridge. The operation reads the row table once and then walks the list
 * of VIDs, deciding every step on that first reading.
 */
module MikrotikDelete {
  import opened Common
  import opened BridgeTable

  // ---------------------------------------------------------------- the operation

  function KeepVids(vids: seq<int>): Fields {
    Fields(Some(vids), None, None, false)
  }

  /** One turn of the `_del_vlan` loop: `stale` is the table as read before the loop. */
  function DelVlanStep(stale: seq<Row>, t: Table, vid: int): Reply {
    match Find(stale, vid)
    case None => Reply(t, false)
    case Some(row) =>
      if |row.vids| == 1 then Delete(t, row.id)
      else Patch(t, row.id, KeepVids(Without(row.vids, vid)))
  }

  function DelVlanRun(t: Table, vids: seq<int>): Reply {
    if vids == [] then Reply(t, false)
    else
      var o := DelVlanRun(t, Front(vids));
      if o.raised then o else DelVlanStep(t.rows, o.table, Last(vids))
  }

  // ---------------------------------------------------------------- what becomes of one row

  /** The last listed VID that the row serves: the one whose turn writes the row last. */
  function LastListed(vids: seq<int>, members: seq<int>): (r: Option<int>)
    ensures r.Some? ==> r.value in vids && r.value in members
    ensures r.None? ==> forall v :: v in vids ==> v !in members
  {
    if vids == [] then None
    else
      assert vids == Front(vids) + [Last(vids)];
      if Last(vids) in members then Some(Last(vids)) else LastListed(Front(vids), members)
  }

  function DelFate(row: Row, vids: seq<int>): Option<Row> {
    match LastListed(vids, row.vids)
    case None => Some(row)
    case Some(v) => if |row.vids| == 1 then None else Some(row.(vids := Without(row.vids, v)))
  }

  /** Some VID with a row of its own is listed twice, so its row would be deleted twice. */
  ghost predicate DoubleDelete(rows: seq<Row>, vids: seq<int>) {
    exists i, j :: 0 <= i < j < |vids| && vids[i] == vids[j]
      && Find(rows, vids[j]).Some? && |Find(rows, vids[j]).value.vids| == 1
  }

  /** `after` holds exactly what `DelFate` leaves of each row of `before`. */
  ghost predicate DelClosed(before: seq<Row>, after: seq<Row>, vids: seq<int>) {
    && (forall r :: r in before && DelFate(r, vids).Some? ==> DelFate(r, vids).value in after)
    && (forall r' :: r' in after ==> ById(before, r'.id).Some? && DelFate(ById(before, r'.id).value, vids) == Some(r'))
  }

  lemma FateOfOthers(before: seq<Row>, row: Row, prefix: seq<int>, vid: int)
    requires Partition(before) && Find(before, vid) == Some(row)
    ensures forall r :: r in before && r != row ==> DelFate(r, prefix + [vid]) == DelFate(r, prefix)
    ensures LastListed(prefix + [vid], row.vids) == Some(vid)
  {
    assert Front(prefix + [vid]) == prefix;
    forall r | r in before && r != row
      ensures vid !in r.vids
    {
      if vid in r.vids {
        assert Share(r, row);
      }
    }
  }

  lemma DelStepDeletes(t: Table, now: Table, prefix: seq<int>, vid: int)
    requires WellFormed(t) && DelClosed(t.rows, now.rows, prefix)
    requires Find(t.rows, vid).Some? && |Find(t.rows, vid).value.vids| == 1
    ensures var o := DelVlanStep(t.rows, now, vid);
            && (o.raised <==> vid in prefix)
            && (!o.raised ==> DelClosed(t.rows, o.table.rows, prefix + [vid]))
  {
    var row := Find(t.rows, vid).value;
    FateOfOthers(t.rows, row, prefix, vid);
    assert row.vids == [vid];
    assert DelFate(row, prefix).Some? <==> vid !in prefix;
    assert HasId(now.rows, row.id) <==> DelFate(row, prefix).Some?;
  }

  lemma DelStepShrinks(t: Table, now: Table, prefix: seq<int>, vid: int)
    requires WellFormed(t) && DelClosed(t.rows, now.rows, prefix)
    requires Find(t.rows, vid).Some? && |Find(t.rows, vid).value.vids| != 1
    ensures var o := DelVlanStep(t.rows, now, vid);
            !o.raised && DelClosed(t.rows, o.table.rows, prefix + [vid])
  {
    var row := Find(t.rows, vid).value;
    FateOfOthers(t.rows, row, prefix, vid);
    assert DelFate(row, prefix).value in now.rows;
    var after := PatchRows(now.rows, row.id, KeepVids(Without(row.vids, vid)));
    PatchedMembers(now.rows, row.id, KeepVids(Without(row.vids, vid)));
  }

  lemma DelStepClosed(t: Table, now: Table, prefix: seq<int>, vid: int)
    requires WellFormed(t) && DelClosed(t.rows, now.rows, prefix)
    ensures var o := DelVlanStep(t.rows, now, vid);
            && (o.raised <==> vid in prefix && Find(t.rows, vid).Some? && |Find(t.rows, vid).value.vids| == 1)
            && o.table.nextId == now.nextId && o.table.strict == now.strict
            && (!o.raised ==> DelClosed(t.rows, o.table.rows, prefix + [vid]))
  {
    match Find(t.rows, vid)
    case None =>
      assert Front(prefix + [vid]) == prefix;
    case Some(row) =>
      if |row.vids| == 1 {
        DelStepDeletes(t, now, prefix, vid);
      } else {
        DelStepShrinks(t, now, prefix, vid);
      }
  }

  lemma {:induction false} DelVlanClosedForm(t: Table, vids: seq<int>)
    requires WellFormed(t)
    ensures var o := DelVlanRun(t, vids);
            && (o.raised <==> DoubleDelete(t.rows, vids))
            && o.table.nextId == t.nextId && o.table.strict == t.strict
            && (!o.raised ==> DelClosed(t.rows, o.table.rows, vids))
  {
    if vids != [] {
      var prefix, vid := Front(vids), Last(vids);
      DelVlanClosedForm(t, prefix);
      assert vids == prefix + [vid];
      DoubleDeleteSnoc(t.rows, prefix, vid);
      if !DelVlanRun(t, prefix).raised {
        DelStepClosed(t, DelVlanRun(t, prefix).table, prefix, vid);
      }
    }
  }

  lemma DoubleDeleteSnoc(rows: seq<Row>, prefix: seq<int>, vid: int)
    ensures DoubleDelete(rows, prefix + [vid]) <==>
            DoubleDelete(rows, prefix)
            || (vid in prefix && Find(rows, vid).Some? && |Find(rows, vid).value.vids| == 1)
  {
    var vids := prefix + [vid];
    if DoubleDelete(rows, prefix) {
      var i, j :| 0 <= i < j < |prefix| && prefix[i] == prefix[j]
        && Find(rows, prefix[j]).Some? && |Find(rows, prefix[j]).value.vids| == 1;
      assert vids[i] == vids[j];
    }
    if vid in prefix {
      var i :| 0 <= i < |prefix| && prefix[i] == vid;
      assert vids[i] == vids[|prefix|];
    }
  }

  // ---------------------------------------------------------------- deleting VLANs: what it means

  /** The VID whose turn was the last to write its row: no row carries it any more. */
  ghost predicate IsGone(rows: seq<Row>, vids: seq<int>, v: int) {
    Find(rows, v).Some? && LastListed(vids, Find(rows, v).value.vids) == Some(v)
  }

  ghost function Gone(rows: seq<Row>, vids: seq<int>): set<int> {
    set v | v in vids && IsGone(rows, vids, v)
  }

  /** Two listed VIDs served by one row clash; only repeating a VID of a shared row is harmless. */
  ghost predicate DelSafe(rows: seq<Row>, vids: seq<int>) {
    forall i, j :: 0 <= i < j < |vids| && Find(rows, vids[i]).Some? && Find(rows, vids[i]) == Find(rows, vids[j])
      ==> vids[i] == vids[j] && |Find(rows, vids[i]).value.vids| != 1
  }

  lemma DelKeepsWellFormed(t: Table, vids: seq<int>)
    requires WellFormed(t) && !DoubleDelete(t.rows, vids)
    ensures WellFormed(DelVlanRun(t, vids).table)
  {
    DelVlanClosedForm(t, vids);
    var after := DelVlanRun(t, vids).table.rows;
    forall r, s | r in after && s in after && (r.id == s.id || Share(r, s))
      ensures r == s
    {
      var r0, s0 := ById(t.rows, r.id).value, ById(t.rows, s.id).value;
      if Share(r, s) {
        var v :| v in r.vids && v in s.vids;
        assert v in r0.vids && v in s0.vids;
        assert Share(r0, s0);
      }
    }
  }

  lemma Several(vids: seq<int>, v: int, w: int)
    requires v in vids && w in vids && v != w
    ensures |vids| != 1
  {
  }

  lemma DelKeepsRow(t: Table, after: seq<Row>, vids: seq<int>, v: int)
    requires WellFormed(t) && DelClosed(t.rows, after, vids) && Partition(after)
    requires Find(t.rows, v).Some? && !IsGone(t.rows, vids, v)
    ensures Find(after, v).Some? && MembersOf(Find(after, v).value) == MembersOf(Find(t.rows, v).value)
  {
    var row := Find(t.rows, v).value;
    match LastListed(vids, row.vids)
    case None =>
      FindUnique(after, row, v);
    case Some(last) =>
      Several(row.vids, v, last);
      FindUnique(after, DelFate(row, vids).value, v);
  }

  lemma DelAddsNothing(t: Table, after: seq<Row>, vids: seq<int>, v: int)
    requires WellFormed(t) && DelClosed(t.rows, after, vids)
    requires Find(after, v).Some?
    ensures Find(t.rows, v).Some? && !IsGone(t.rows, vids, v)
  {
    FindUnique(t.rows, ById(t.rows, Find(after, v).value.id).value, v);
  }

  /**
   * What `_del_vlan` really does, for every table and list: it raises exactly when it deletes a row
   * twice, and otherwise removes, from each row, only the VID listed last.
   */
  lemma DelVlanMeaning(t: Table, vids: seq<int>)
    requires WellFormed(t)
    ensures var o := DelVlanRun(t, vids);
            && (o.raised <==> DoubleDelete(t.rows, vids))
            && (!o.raised ==> WellFormed(o.table) && View(o.table.rows) == View(t.rows) - Gone(t.rows, vids))
  {
    DelVlanClosedForm(t, vids);
    if !DelVlanRun(t, vids).raised {
      DelKeepsWellFormed(t, vids);
      var after := DelVlanRun(t, vids).table.rows;
      forall v | v in View(t.rows) && v !in Gone(t.rows, vids)
        ensures v in View(after) && View(after)[v] == View(t.rows)[v]
      {
        DelKeepsRow(t, after, vids, v);
      }
      forall v | v in View(after)
        ensures v in View(t.rows) && v !in Gone(t.rows, vids)
      {
        DelAddsNothing(t, after, vids, v);
      }
    }
  }

  lemma SafeMeansGone(t: Table, vids: seq<int>, v: int)
    requires WellFormed(t) && DelSafe(t.rows, vids) && v in vids && Find(t.rows, v).Some?
    ensures IsGone(t.rows, vids, v)
  {
    var row := Find(t.rows, v).value;
    var last := LastListed(vids, row.vids).value;
    FindUnique(t.rows, row, last);
    var i :| 0 <= i < |vids| && vids[i] == v;
    var j :| 0 <= j < |vids| && vids[j] == last;
    assert i != j ==> vids[if i < j then i else j] == vids[if i < j then j else i];
  }

  lemma UnsafeMeansSurvivor(t: Table, vids: seq<int>) returns (survivor: int)
    requires WellFormed(t) && !DelSafe(t.rows, vids) && !DoubleDelete(t.rows, vids)
    ensures survivor in vids && Find(t.rows, survivor).Some? && !IsGone(t.rows, vids, survivor)
  {
    var i, j :| 0 <= i < j < |vids| && Find(t.rows, vids[i]).Some? && Find(t.rows, vids[i]) == Find(t.rows, vids[j])
      && !(vids[i] == vids[j] && |Find(t.rows, vids[i]).value.vids| != 1);
    survivor := if IsGone(t.rows, vids, vids[i]) then vids[j] else vids[i];
  }

  /**
   * `_del_vlan` deletes just the listed VIDs exactly when no row is hit twice. Otherwise it raises,
   * or a listed VID survives because a later patch of the same row writes it back.
   */
  lemma DelVlanExact(t: Table, vids: seq<int>)
    requires WellFormed(t)
    ensures var o := DelVlanRun(t, vids);
            (!o.raised && View(o.table.rows) == View(t.rows) - Elements(vids)) <==> DelSafe(t.rows, vids)
  {
    DelVlanMeaning(t, vids);
    if DelSafe(t.rows, vids) {
      forall v | v in View(t.rows)
        ensures v in Gone(t.rows, vids) <==> v in Elements(vids)
      {
        if v in vids {
          SafeMeansGone(t, vids, v);
        }
      }
      assert View(t.rows) - Gone(t.rows, vids) == View(t.rows) - Elements(vids);
    } else if !DoubleDelete(t.rows, vids) {
      var v := UnsafeMeansSurvivor(t, vids);
      assert v in View(t.rows) - Gone(t.rows, vids);
    }
  }
}
