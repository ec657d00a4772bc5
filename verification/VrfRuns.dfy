/**
 * Sequences of bind and unbind requests on one switch: the guards of the base class, the updates of
 * the Comware driver and the device that receives its scripts.
 */
module VrfRuns {
  import opened Common
  import opened VrfBinding

  datatype Op = Bind(rd1: string, rd2: string) | Unbind(rd1: string, rd2: string)

  datatype Outcome =
    | Missing         // one of the VRFs does not exist
    | Unchanged       // already as asked
    | Changed(script: seq<Command>)
    | AsymmetryError  // only one of the two imports the other
    | SameRdError
    | NoScriptError

  datatype Check = BothBound | NeitherBound | OneSided

  // ---------------------------------------------------------------- lookups and guards

  /** Both lookups of the base class, `get_vrf_by_rd` and `get_vrf_by_name`, compare the RD. */
  function FindRd(vrfs: seq<Vrf>, rd: string, from: nat := 0): (r: Option<nat>)
    requires from <= |vrfs|
    ensures r.Some? ==> from <= r.value < |vrfs| && vrfs[r.value].rd == rd
    ensures r.Some? ==> forall k :: from <= k < r.value ==> vrfs[k].rd != rd
    ensures r.None? ==> forall k :: from <= k < |vrfs| ==> vrfs[k].rd != rd
    decreases |vrfs| - from
  {
    if from == |vrfs| then None
    else if vrfs[from].rd == rd then Some(from)
    else FindRd(vrfs, rd, from + 1)
  }

  function FindName(vrfs: seq<Vrf>, name: string, from: nat := 0): (r: Option<nat>)
    requires from <= |vrfs|
    ensures r.Some? ==> from <= r.value < |vrfs| && vrfs[r.value].name == name
    ensures r.Some? ==> forall k :: from <= k < r.value ==> vrfs[k].name != name
    ensures r.None? ==> forall k :: from <= k < |vrfs| ==> vrfs[k].name != name
    decreases |vrfs| - from
  {
    if from == |vrfs| then None
    else if vrfs[from].name == name then Some(from)
    else FindName(vrfs, name, from + 1)
  }

  function Known(vrfs: seq<Vrf>, rds: seq<string>): (r: seq<Vrf>)
  {
    if rds == [] then []
    else
      var found := FindRd(vrfs, Last(rds));
      Known(vrfs, Front(rds)) + if found.Some? then [vrfs[found.value]] else []
  }

  /** The list that `get_bound_vrfs` builds: RDs that no VRF of the switch has are passed over. */
  function BoundVrfs(vrfs: seq<Vrf>, name: string): seq<Vrf> {
    var found := FindName(vrfs, name);
    if found.None? then [] else Known(vrfs, vrfs[found.value].imports)
  }

  function CheckBinding(vrfs: seq<Vrf>, v1: Vrf, v2: Vrf): Check {
    if v1 == v2 then BothBound
    else
      var in1, in2 := v2 in BoundVrfs(vrfs, v1.name), v1 in BoundVrfs(vrfs, v2.name);
      if in1 && in2 then BothBound else if !in1 && !in2 then NeitherBound else OneSided
  }

  function Step(vrfs: seq<Vrf>, op: Op, exportFirst: bool): (seq<Vrf>, Outcome) {
    var i, j := FindRd(vrfs, op.rd1), FindRd(vrfs, op.rd2);
    if i.None? || j.None? then (vrfs, Missing)
    else
      var v1, v2 := vrfs[i.value], vrfs[j.value];
      match (CheckBinding(vrfs, v1, v2), op)
      case (OneSided, _) => (vrfs, AsymmetryError)
      case (BothBound, Bind(_, _)) => (vrfs, Unchanged)
      case (NeitherBound, Unbind(_, _)) => (vrfs, Unchanged)
      case (NeitherBound, Bind(_, _)) =>
        var (w1, w2) := BindPair(v1, v2, exportFirst);
        (vrfs[i.value := w1][j.value := w2], Changed(BindScript(w1, w2)))
      case (BothBound, Unbind(_, _)) =>
        if v1.rd == v2.rd then (vrfs, SameRdError)
        else
          var (w1, w2) := UnbindPair(v1, v2);
          var script := UnbindScript(v1, v2);
          (vrfs[i.value := w1][j.value := w2], if script == [] then NoScriptError else Changed(script))
  }

  /** What unbinding two VRFs that are found bound comes to. */
  lemma StepUnbinds(vrfs: seq<Vrf>, i: nat, j: nat, op: Op, exportFirst: bool)
    requires i < |vrfs| && j < |vrfs| && vrfs[i].rd != vrfs[j].rd && op == Unbind(vrfs[i].rd, vrfs[j].rd)
    requires FindRd(vrfs, op.rd1) == Some(i) && FindRd(vrfs, op.rd2) == Some(j)
    requires CheckBinding(vrfs, vrfs[i], vrfs[j]) == BothBound
    ensures var (w1, w2) := UnbindPair(vrfs[i], vrfs[j]);
            var script := UnbindScript(vrfs[i], vrfs[j]);
            Step(vrfs, op, exportFirst)
            == (vrfs[i := w1][j := w2], if script == [] then NoScriptError else Changed(script))
  {
  }

  /** Of two VRFs found bound the request to unbind finds no command to send exactly when neither imports the other. */
  lemma NothingToUnbind(vrfs: seq<Vrf>, i: nat, j: nat, op: Op, exportFirst: bool)
    requires i < |vrfs| && j < |vrfs| && vrfs[i].rd != vrfs[j].rd && op == Unbind(vrfs[i].rd, vrfs[j].rd)
    requires FindRd(vrfs, op.rd1) == Some(i) && FindRd(vrfs, op.rd2) == Some(j)
    requires CheckBinding(vrfs, vrfs[i], vrfs[j]) == BothBound
    ensures var neither := vrfs[j].rd !in vrfs[i].imports && vrfs[i].rd !in vrfs[j].imports;
            Step(vrfs, op, exportFirst).1 == NoScriptError <==> neither
  {
    StepUnbinds(vrfs, i, j, op, exportFirst);
    EmptyScript(vrfs[i], vrfs[j]);
  }

  // ---------------------------------------------------------------- the invariant and the plain meaning

  ghost predicate UniqueKeys(vrfs: seq<Vrf>) {
    forall i, j :: 0 <= i < |vrfs| && 0 <= j < |vrfs| && (vrfs[i].rd == vrfs[j].rd || vrfs[i].name == vrfs[j].name)
      ==> i == j
  }

  ghost predicate Imports(vrfs: seq<Vrf>, i: nat, j: nat)
    requires i < |vrfs| && j < |vrfs|
  {
    vrfs[j].rd in vrfs[i].imports
  }

  /** Every VRF exports exactly its own RD, or, if exports come first, possibly nothing yet. */
  ghost predicate Good(vrfs: seq<Vrf>, exportFirst: bool) {
    && UniqueKeys(vrfs)
    && (forall v :: v in vrfs ==> NoDup(v.imports))
    && (forall v :: v in vrfs ==> v.exports == [v.rd] || (exportFirst && v.exports == []))
    && (forall i, j :: 0 <= i < |vrfs| && 0 <= j < |vrfs| ==> Imports(vrfs, i, j) == Imports(vrfs, j, i))
  }

  ghost function Rds(vrfs: seq<Vrf>): set<string> {
    set v | v in vrfs :: v.rd
  }

  /** The pairs of RDs, both of this switch, of which the first VRF imports the second. */
  ghost function Links(vrfs: seq<Vrf>): set<(string, string)> {
    set i, j | 0 <= i < |vrfs| && 0 <= j < |vrfs| && i != j && Imports(vrfs, i, j) :: (vrfs[i].rd, vrfs[j].rd)
  }

  ghost function IdealStep(links: set<(string, string)>, rds: set<string>, op: Op): set<(string, string)> {
    if op.rd1 !in rds || op.rd2 !in rds || op.rd1 == op.rd2 then links
    else
      var pair := {(op.rd1, op.rd2), (op.rd2, op.rd1)};
      if op.Bind? then links + pair else links - pair
  }

  /** How a request must end, given what is linked. */
  ghost predicate IdealOutcome(links: set<(string, string)>, rds: set<string>, op: Op, o: Outcome) {
    if op.rd1 !in rds || op.rd2 !in rds then o.Missing?
    else if op.rd1 == op.rd2 then (if op.Bind? then o.Unchanged? else o.SameRdError?)
    else if op.Bind? == ((op.rd1, op.rd2) in links) then o.Unchanged?
    else o.Changed?
  }

  ghost predicate AgreesAll(d: Device, vrfs: seq<Vrf>) {
    forall v :: v in vrfs ==> Agrees(d, v)
  }

  lemma {:induction false} KnownMembers(vrfs: seq<Vrf>, rds: seq<string>, j: nat)
    requires UniqueKeys(vrfs) && j < |vrfs|
    ensures vrfs[j] in Known(vrfs, rds) <==> vrfs[j].rd in rds
  {
    if rds != [] {
      KnownMembers(vrfs, Front(rds), j);
      assert rds == Front(rds) + [Last(rds)];
    }
  }

  lemma CheckMeaning(vrfs: seq<Vrf>, i: nat, j: nat)
    requires UniqueKeys(vrfs) && i < |vrfs| && j < |vrfs|
    ensures CheckBinding(vrfs, vrfs[i], vrfs[j])
      == if i == j || (Imports(vrfs, i, j) && Imports(vrfs, j, i)) then BothBound
         else if !Imports(vrfs, i, j) && !Imports(vrfs, j, i) then NeitherBound
         else OneSided
  {
    KnownMembers(vrfs, vrfs[i].imports, j);
    KnownMembers(vrfs, vrfs[j].imports, i);
  }

  lemma FindRdIs(vrfs: seq<Vrf>, rd: string)
    ensures FindRd(vrfs, rd).Some? <==> rd in Rds(vrfs)
  {
  }

  lemma LinkOf(vrfs: seq<Vrf>, i: nat, j: nat)
    requires UniqueKeys(vrfs) && i < |vrfs| && j < |vrfs|
    ensures (vrfs[i].rd, vrfs[j].rd) in Links(vrfs) <==> i != j && Imports(vrfs, i, j)
  {
  }

  /**
   * `get_vrf_by_name` compares the RD: it finds the VRF of that name, or finds none when there is none,
   * exactly when the VRF of the name has it for its RD, or there is neither such a name nor such an RD.
   */
  lemma LookupByNameExact(vrfs: seq<Vrf>, name: string)
    requires UniqueKeys(vrfs)
    ensures FindRd(vrfs, name) == FindName(vrfs, name)
       <==> forall v :: v in vrfs ==> (v.name == name <==> v.rd == name)
  {
    var i, j := FindRd(vrfs, name), FindName(vrfs, name);
    if i == j {
      forall v | v in vrfs
        ensures v.name == name <==> v.rd == name
      {
        var k :| 0 <= k < |vrfs| && vrfs[k] == v;
      }
    } else if i.Some? {
      assert vrfs[i.value] in vrfs;
    } else {
      assert vrfs[j.value] in vrfs;
    }
  }

  // ---------------------------------------------------------------- one request

  /** The only effect on imports: the pair links up, or comes apart, both ways. */
  ghost predicate Relinked(before: seq<Vrf>, after: seq<Vrf>, i: nat, j: nat, linked: bool)
    requires |before| == |after|
  {
    forall k, l :: 0 <= k < |before| && 0 <= l < |before| ==>
      (Imports(after, k, l) <==> if (k == i && l == j) || (k == j && l == i) then linked else Imports(before, k, l))
  }

  lemma BindRelinks(vrfs: seq<Vrf>, i: nat, j: nat, exportFirst: bool)
    requires Good(vrfs, exportFirst) && i < |vrfs| && j < |vrfs| && i != j
    requires !Imports(vrfs, i, j)
    ensures var (w1, w2) := BindPair(vrfs[i], vrfs[j], exportFirst);
            var after := vrfs[i := w1][j := w2];
            && w1 == Vrf(vrfs[i].name, vrfs[i].rd, [vrfs[i].rd], vrfs[i].imports + [vrfs[j].rd])
            && w2 == Vrf(vrfs[j].name, vrfs[j].rd, [vrfs[j].rd], vrfs[j].imports + [vrfs[i].rd])
            && Relinked(vrfs, after, i, j, true)
  {
    var v1, v2 := vrfs[i], vrfs[j];
    assert v1 in vrfs && v2 in vrfs;
    assert Imports(vrfs, j, i) == Imports(vrfs, i, j);
    assert AppendNew(v1.imports, [v2.rd]) == v1.imports + [v2.rd] by { AppendOneNew(v1.imports, v2.rd); }
    assert AppendNew(v2.imports, [v1.rd]) == v2.imports + [v1.rd] by { AppendOneNew(v2.imports, v1.rd); }
  }

  lemma AppendOneNew(list: seq<string>, x: string)
    ensures x !in list ==> AppendNew(list, [x]) == list + [x]
  {
    assert Front([x]) == [];
    assert AppendNew(list, []) == list;
  }

  lemma {:induction false} RemoveOnly(s: seq<string>, x: string)
    requires NoDup(s)
    ensures RemoveFirst(s, x) == Without(s, x)
  {
    if s != [] {
      assert s == [s[0]] + s[1..];
      RemoveOnly(s[1..], x);
    }
  }

  lemma UnbindRelinks(vrfs: seq<Vrf>, i: nat, j: nat, exportFirst: bool)
    requires Good(vrfs, exportFirst) && i < |vrfs| && j < |vrfs| && i != j
    ensures var (w1, w2) := UnbindPair(vrfs[i], vrfs[j]);
            var after := vrfs[i := w1][j := w2];
            && w1 == vrfs[i].(imports := Without(vrfs[i].imports, vrfs[j].rd)) && NoDup(w1.imports)
            && w2 == vrfs[j].(imports := Without(vrfs[j].imports, vrfs[i].rd)) && NoDup(w2.imports)
            && Relinked(vrfs, after, i, j, false)
  {
    assert vrfs[i] in vrfs && vrfs[j] in vrfs;
    RemoveOnly(vrfs[i].imports, vrfs[j].rd);
    RemoveOnly(vrfs[j].imports, vrfs[i].rd);
    Unlinked(vrfs, i, j);
  }

  lemma Unlinked(vrfs: seq<Vrf>, i: nat, j: nat)
    requires UniqueKeys(vrfs) && i < |vrfs| && j < |vrfs| && i != j
    ensures var w1 := vrfs[i].(imports := Without(vrfs[i].imports, vrfs[j].rd));
            var w2 := vrfs[j].(imports := Without(vrfs[j].imports, vrfs[i].rd));
            Relinked(vrfs, vrfs[i := w1][j := w2], i, j, false)
  {
  }

  lemma PairKeepsGood(vrfs: seq<Vrf>, i: nat, j: nat, w1: Vrf, w2: Vrf, linked: bool, exportFirst: bool)
    requires Good(vrfs, exportFirst) && i < |vrfs| && j < |vrfs| && i != j
    requires w1.name == vrfs[i].name && w1.rd == vrfs[i].rd && NoDup(w1.imports)
    requires w2.name == vrfs[j].name && w2.rd == vrfs[j].rd && NoDup(w2.imports)
    requires w1.exports == [w1.rd] || w1.exports == vrfs[i].exports
    requires w2.exports == [w2.rd] || w2.exports == vrfs[j].exports
    requires Relinked(vrfs, vrfs[i := w1][j := w2], i, j, linked)
    ensures Good(vrfs[i := w1][j := w2], exportFirst)
  {
    var after := vrfs[i := w1][j := w2];
    assert vrfs[i] in vrfs && vrfs[j] in vrfs;
    forall k | 0 <= k < |vrfs|
      ensures after[k].rd == vrfs[k].rd && after[k].name == vrfs[k].name && NoDup(after[k].imports)
      ensures after[k].exports == [after[k].rd] || (exportFirst && after[k].exports == [])
    {
      assert vrfs[k] in vrfs;
    }
    forall k, l | 0 <= k < |after| && 0 <= l < |after|
      ensures Imports(after, k, l) == Imports(after, l, k)
    {
      assert Imports(vrfs, k, l) == Imports(vrfs, l, k);
    }
  }

  lemma PairLinks(vrfs: seq<Vrf>, after: seq<Vrf>, i: nat, j: nat, linked: bool)
    requires UniqueKeys(vrfs) && i < |vrfs| && j < |vrfs| && i != j
    requires |after| == |vrfs| && forall k :: 0 <= k < |vrfs| ==> after[k].rd == vrfs[k].rd
    requires Relinked(vrfs, after, i, j, linked)
    ensures var pair := {(vrfs[i].rd, vrfs[j].rd), (vrfs[j].rd, vrfs[i].rd)};
            Links(after) == if linked then Links(vrfs) + pair else Links(vrfs) - pair
  {
    var pair := {(vrfs[i].rd, vrfs[j].rd), (vrfs[j].rd, vrfs[i].rd)};
    var goal := if linked then Links(vrfs) + pair else Links(vrfs) - pair;
    forall x, y
      ensures (x, y) in Links(after) <==> (x, y) in goal
    {
      PairLink(vrfs, after, i, j, linked, x, y);
    }
  }

  lemma PairLink(vrfs: seq<Vrf>, after: seq<Vrf>, i: nat, j: nat, linked: bool, x: string, y: string)
    requires UniqueKeys(vrfs) && i < |vrfs| && j < |vrfs| && i != j
    requires |after| == |vrfs| && forall k :: 0 <= k < |vrfs| ==> after[k].rd == vrfs[k].rd
    requires Relinked(vrfs, after, i, j, linked)
    ensures (x, y) in Links(after) <==>
      if (x == vrfs[i].rd && y == vrfs[j].rd) || (x == vrfs[j].rd && y == vrfs[i].rd) then linked
      else (x, y) in Links(vrfs)
  {
    if (x, y) in Links(after) {
      var k, l :| 0 <= k < |after| && 0 <= l < |after| && k != l && Imports(after, k, l)
        && (after[k].rd, after[l].rd) == (x, y);
      assert Imports(after, k, l) <==>
        if (k == i && l == j) || (k == j && l == i) then linked else Imports(vrfs, k, l);
    } else if (x, y) in Links(vrfs) {
      var k, l :| 0 <= k < |vrfs| && 0 <= l < |vrfs| && k != l && Imports(vrfs, k, l)
        && (vrfs[k].rd, vrfs[l].rd) == (x, y);
      assert (after[k].rd, after[l].rd) == (x, y);
    }
    assert linked ==> Imports(after, i, j) && Imports(after, j, i);
    assert linked ==> (after[i].rd, after[j].rd) in Links(after) && (after[j].rd, after[i].rd) in Links(after);
  }

  // ---------------------------------------------------------------- runs

  /** The device after the script of a request, if the request has one. */
  function Deliver(d: Device, o: Outcome): Device {
    if o.Changed? then ExecuteAll(d, o.script) else d
  }

  lemma PairAgrees(d: Device, d': Device, vrfs: seq<Vrf>, i: nat, j: nat, w1: Vrf, w2: Vrf)
    requires UniqueKeys(vrfs) && AgreesAll(d, vrfs) && i < |vrfs| && j < |vrfs| && i != j
    requires w1.name == vrfs[i].name && w2.name == vrfs[j].name
    requires d'.instances == d.instances[w1.name := TargetsOf(w1)][w2.name := TargetsOf(w2)]
    ensures AgreesAll(d', vrfs[i := w1][j := w2])
  {
    var after := vrfs[i := w1][j := w2];
    forall v | v in after
      ensures Agrees(d', v)
    {
      var k :| 0 <= k < |after| && after[k] == v;
      assert Agrees(d, vrfs[k]);
    }
  }

  lemma BindMeets(vrfs: seq<Vrf>, d: Device, i: nat, j: nat, exportFirst: bool)
    requires Good(vrfs, exportFirst) && i < |vrfs| && j < |vrfs| && i != j && !Imports(vrfs, i, j)
    ensures var (w1, w2) := BindPair(vrfs[i], vrfs[j], exportFirst);
            var after := vrfs[i := w1][j := w2];
            && Good(after, exportFirst) && Rds(after) == Rds(vrfs)
            && Links(after) == Links(vrfs) + {(vrfs[i].rd, vrfs[j].rd), (vrfs[j].rd, vrfs[i].rd)}
            && (AgreesAll(d, vrfs) ==> AgreesAll(ExecuteAll(d, BindScript(w1, w2)), after))
  {
    var (w1, w2) := BindPair(vrfs[i], vrfs[j], exportFirst);
    var after := vrfs[i := w1][j := w2];
    assert Imports(vrfs, j, i) == Imports(vrfs, i, j);
    assert vrfs[i] in vrfs && vrfs[j] in vrfs;
    BindRelinks(vrfs, i, j, exportFirst);
    PairKeepsGood(vrfs, i, j, w1, w2, true, exportFirst);
    PairLinks(vrfs, after, i, j, true);
    SameRds(vrfs, after);
    if AgreesAll(d, vrfs) {
      BindAgrees(vrfs, d, i, j, w1, w2, exportFirst);
    }
  }

  lemma BindAgrees(vrfs: seq<Vrf>, d: Device, i: nat, j: nat, w1: Vrf, w2: Vrf, exportFirst: bool)
    requires UniqueKeys(vrfs) && AgreesAll(d, vrfs) && i < |vrfs| && j < |vrfs| && i != j
    requires (w1, w2) == BindPair(vrfs[i], vrfs[j], exportFirst)
    ensures AgreesAll(ExecuteAll(d, BindScript(w1, w2)), vrfs[i := w1][j := w2])
  {
    assert vrfs[i] in vrfs && vrfs[j] in vrfs;
    BindScriptAgrees(d, vrfs[i], vrfs[j], exportFirst);
    PairAgrees(d, ExecuteAll(d, BindScript(w1, w2)), vrfs, i, j, w1, w2);
  }

  lemma TargetsWithout(v: Vrf, rd: string)
    ensures TargetsOf(v.(imports := Without(v.imports, rd)))
         == Targets(Elements(v.exports), Elements(v.imports) - {rd})
  {
  }

  lemma UnbindAgrees(vrfs: seq<Vrf>, d: Device, i: nat, j: nat, w1: Vrf, w2: Vrf)
    requires UniqueKeys(vrfs) && AgreesAll(d, vrfs) && i < |vrfs| && j < |vrfs| && i != j
    requires w1 == vrfs[i].(imports := Without(vrfs[i].imports, vrfs[j].rd))
    requires w2 == vrfs[j].(imports := Without(vrfs[j].imports, vrfs[i].rd))
    ensures AgreesAll(ExecuteAll(d, UnbindScript(vrfs[i], vrfs[j])), vrfs[i := w1][j := w2])
  {
    assert vrfs[i] in vrfs && vrfs[j] in vrfs;
    ExecuteUnbindScript(d, vrfs[i], vrfs[j]);
    TargetsWithout(vrfs[i], vrfs[j].rd);
    TargetsWithout(vrfs[j], vrfs[i].rd);
    PairAgrees(d, ExecuteAll(d, UnbindScript(vrfs[i], vrfs[j])), vrfs, i, j, w1, w2);
  }

  lemma UnbindMeets(vrfs: seq<Vrf>, d: Device, i: nat, j: nat, exportFirst: bool)
    requires Good(vrfs, exportFirst) && i < |vrfs| && j < |vrfs| && i != j
    ensures var (w1, w2) := UnbindPair(vrfs[i], vrfs[j]);
            var after := vrfs[i := w1][j := w2];
            && Good(after, exportFirst) && Rds(after) == Rds(vrfs)
            && Links(after) == Links(vrfs) - {(vrfs[i].rd, vrfs[j].rd), (vrfs[j].rd, vrfs[i].rd)}
            && (AgreesAll(d, vrfs) ==> AgreesAll(ExecuteAll(d, UnbindScript(vrfs[i], vrfs[j])), after))
  {
    var (w1, w2) := UnbindPair(vrfs[i], vrfs[j]);
    UnbindRelinks(vrfs, i, j, exportFirst);
    UnbindKeeps(vrfs, i, j, w1, w2, exportFirst);
    if AgreesAll(d, vrfs) {
      UnbindAgrees(vrfs, d, i, j, w1, w2);
    }
  }

  lemma UnbindKeeps(vrfs: seq<Vrf>, i: nat, j: nat, w1: Vrf, w2: Vrf, exportFirst: bool)
    requires Good(vrfs, exportFirst) && i < |vrfs| && j < |vrfs| && i != j
    requires w1 == vrfs[i].(imports := w1.imports) && NoDup(w1.imports)
    requires w2 == vrfs[j].(imports := w2.imports) && NoDup(w2.imports)
    requires Relinked(vrfs, vrfs[i := w1][j := w2], i, j, false)
    ensures var after := vrfs[i := w1][j := w2];
            && Good(after, exportFirst) && Rds(after) == Rds(vrfs)
            && Links(after) == Links(vrfs) - {(vrfs[i].rd, vrfs[j].rd), (vrfs[j].rd, vrfs[i].rd)}
  {
    var after := vrfs[i := w1][j := w2];
    PairKeepsGood(vrfs, i, j, w1, w2, false, exportFirst);
    PairLinks(vrfs, after, i, j, false);
    SameRds(vrfs, after);
  }

  lemma SameRds(vrfs: seq<Vrf>, after: seq<Vrf>)
    requires |after| == |vrfs| && forall k :: 0 <= k < |vrfs| ==> after[k].rd == vrfs[k].rd
    ensures Rds(after) == Rds(vrfs)
  {
    forall rd
      ensures rd in Rds(after) <==> rd in Rds(vrfs)
    {
      if rd in Rds(after) {
        var k :| 0 <= k < |after| && after[k].rd == rd;
        assert vrfs[k] in vrfs;
      }
      if rd in Rds(vrfs) {
        var k :| 0 <= k < |vrfs| && vrfs[k].rd == rd;
        assert after[k] in after;
      }
    }
  }

  lemma StepMeets(vrfs: seq<Vrf>, d: Device, op: Op, exportFirst: bool)
    requires Good(vrfs, exportFirst)
    ensures var (after, o) := Step(vrfs, op, exportFirst);
            && Good(after, exportFirst) && Rds(after) == Rds(vrfs)
            && Links(after) == IdealStep(Links(vrfs), Rds(vrfs), op)
            && IdealOutcome(Links(vrfs), Rds(vrfs), op, o)
            && (AgreesAll(d, vrfs) ==> AgreesAll(Deliver(d, o), after))
  {
    FindRdIs(vrfs, op.rd1);
    FindRdIs(vrfs, op.rd2);
    var i, j := FindRd(vrfs, op.rd1), FindRd(vrfs, op.rd2);
    if i.Some? && j.Some? {
      KnownStepMeets(vrfs, d, op, i.value, j.value, exportFirst);
    }
  }

  lemma KnownStepMeets(vrfs: seq<Vrf>, d: Device, op: Op, i: nat, j: nat, exportFirst: bool)
    requires Good(vrfs, exportFirst) && FindRd(vrfs, op.rd1) == Some(i) && FindRd(vrfs, op.rd2) == Some(j)
    ensures var (after, o) := Step(vrfs, op, exportFirst);
            && Good(after, exportFirst) && Rds(after) == Rds(vrfs)
            && Links(after) == IdealStep(Links(vrfs), Rds(vrfs), op)
            && IdealOutcome(Links(vrfs), Rds(vrfs), op, o)
            && (AgreesAll(d, vrfs) ==> AgreesAll(Deliver(d, o), after))
  {
    FindRdIs(vrfs, op.rd1);
    FindRdIs(vrfs, op.rd2);
    CheckMeaning(vrfs, i, j);
    LinkOf(vrfs, i, j);
    LinkOf(vrfs, j, i);
    if i != j {
      assert Imports(vrfs, i, j) == Imports(vrfs, j, i);
      if op.Bind? && !Imports(vrfs, i, j) {
        BindMeets(vrfs, d, i, j, exportFirst);
      } else if op.Unbind? && Imports(vrfs, i, j) {
        UnbindMeets(vrfs, d, i, j, exportFirst);
      } else {
        SettledMeets(vrfs, op, i, j);
      }
    }
  }

  /** Asking for what is already so changes no link. */
  lemma SettledMeets(vrfs: seq<Vrf>, op: Op, i: nat, j: nat)
    requires UniqueKeys(vrfs) && i < |vrfs| && j < |vrfs| && i != j && vrfs[i].rd == op.rd1 && vrfs[j].rd == op.rd2
    requires op.Bind? == Imports(vrfs, i, j) == Imports(vrfs, j, i)
    ensures Links(vrfs) == IdealStep(Links(vrfs), Rds(vrfs), op)
  {
    LinkOf(vrfs, i, j);
    LinkOf(vrfs, j, i);
  }

  /** The VRFs, the device and the outcomes after a sequence of requests. */
  function Run(vrfs: seq<Vrf>, d: Device, ops: seq<Op>, exportFirst: bool): (seq<Vrf>, Device, seq<Outcome>)
    decreases ops
  {
    if ops == [] then (vrfs, d, [])
    else
      var (now, o) := Step(vrfs, ops[0], exportFirst);
      var rest := Run(now, Deliver(d, o), ops[1..], exportFirst);
      (rest.0, rest.1, [o] + rest.2)
  }

  ghost function IdealRun(links: set<(string, string)>, rds: set<string>, ops: seq<Op>): set<(string, string)>
    decreases ops
  {
    if ops == [] then links else IdealRun(IdealStep(links, rds, ops[0]), rds, ops[1..])
  }

  ghost predicate IdealOutcomes(links: set<(string, string)>, rds: set<string>, ops: seq<Op>, os: seq<Outcome>)
    decreases ops
  {
    |ops| == |os| &&
    (ops != [] ==> IdealOutcome(links, rds, ops[0], os[0])
                   && IdealOutcomes(IdealStep(links, rds, ops[0]), rds, ops[1..], os[1..]))
  }

  /**
   * Every sequence of bind and unbind requests keeps imports symmetric and the device in agreement,
   * links and unlinks just the named pairs and ends every request as it should: in particular none
   * meets the asymmetry error. As the driver is written this is for VRFs that each export exactly
   * their own RD; with exports set first, also for VRFs that export nothing yet.
   */
  lemma {:induction false} RunRefines(vrfs: seq<Vrf>, d: Device, ops: seq<Op>, exportFirst: bool)
    requires Good(vrfs, exportFirst) && AgreesAll(d, vrfs)
    ensures var (after, d', os) := Run(vrfs, d, ops, exportFirst);
            && Good(after, exportFirst) && AgreesAll(d', after)
            && Links(after) == IdealRun(Links(vrfs), Rds(vrfs), ops)
            && IdealOutcomes(Links(vrfs), Rds(vrfs), ops, os)
    decreases ops
  {
    if ops != [] {
      var (now, o) := Step(vrfs, ops[0], exportFirst);
      StepMeets(vrfs, d, ops[0], exportFirst);
      RunRefines(now, Deliver(d, o), ops[1..], exportFirst);
    }
  }

  // ---------------------------------------------------------------- starting from empty exports

  /** The VRFs after the first bind of two that are not linked, and what the guard then finds. */
  lemma FirstBind(vrfs: seq<Vrf>, i: nat, j: nat)
    requires UniqueKeys(vrfs) && i < |vrfs| && j < |vrfs| && i != j
    requires !Imports(vrfs, i, j) && !Imports(vrfs, j, i)
    ensures var (after, o) := Step(vrfs, Bind(vrfs[i].rd, vrfs[j].rd), false);
            && o.Changed? && |after| == |vrfs| && UniqueKeys(after)
            && after[i].rd == vrfs[i].rd && after[j].rd == vrfs[j].rd
            && Imports(after, j, i) && (Imports(after, i, j) <==> vrfs[j].rd in vrfs[j].exports)
  {
    StepBinds(vrfs, i, j);
    var (w1, w2) := BindPair(vrfs[i], vrfs[j], false);
    PairKeepsKeys(vrfs, i, j, w1, w2);
    BindExact(vrfs[i], vrfs[j]);
  }

  lemma PairKeepsKeys(vrfs: seq<Vrf>, i: nat, j: nat, w1: Vrf, w2: Vrf)
    requires UniqueKeys(vrfs) && i < |vrfs| && j < |vrfs| && i != j
    requires w1.name == vrfs[i].name && w1.rd == vrfs[i].rd && w2.name == vrfs[j].name && w2.rd == vrfs[j].rd
    ensures UniqueKeys(vrfs[i := w1][j := w2])
  {
  }

  lemma StepBinds(vrfs: seq<Vrf>, i: nat, j: nat)
    requires UniqueKeys(vrfs) && i < |vrfs| && j < |vrfs| && i != j
    requires !Imports(vrfs, i, j) && !Imports(vrfs, j, i)
    ensures var (w1, w2) := BindPair(vrfs[i], vrfs[j], false);
            Step(vrfs, Bind(vrfs[i].rd, vrfs[j].rd), false)
            == (vrfs[i := w1][j := w2], Changed(BindScript(w1, w2)))
  {
    CheckMeaning(vrfs, i, j);
    assert FindRd(vrfs, vrfs[i].rd) == Some(i) && FindRd(vrfs, vrfs[j].rd) == Some(j);
  }

  lemma OneSidedRaises(vrfs: seq<Vrf>, i: nat, j: nat, op: Op)
    requires UniqueKeys(vrfs) && i < |vrfs| && j < |vrfs| && i != j
    requires Imports(vrfs, i, j) != Imports(vrfs, j, i)
    requires op.rd1 == vrfs[i].rd && op.rd2 == vrfs[j].rd
    ensures Step(vrfs, op, false) == (vrfs, AsymmetryError)
  {
    CheckMeaning(vrfs, i, j);
    assert FindRd(vrfs, vrfs[i].rd) == Some(i) && FindRd(vrfs, vrfs[j].rd) == Some(j);
  }

  ghost predicate Stuck(vrfs: seq<Vrf>, x: string, y: string) {
    && Step(vrfs, Bind(x, y), false) == (vrfs, AsymmetryError)
    && Step(vrfs, Unbind(x, y), false) == (vrfs, AsymmetryError)
  }

  /**
   * As the driver is written, the first bind of two unlinked VRFs succeeds for good exactly when the
   * second one exports its RD already. Otherwise every later request for the pair meets the error.
   */
  lemma FirstBindExact(vrfs: seq<Vrf>, i: nat, j: nat)
    requires UniqueKeys(vrfs) && i < |vrfs| && j < |vrfs| && i != j
    requires !Imports(vrfs, i, j) && !Imports(vrfs, j, i)
    ensures var x, y := vrfs[i].rd, vrfs[j].rd;
            var (after, o) := Step(vrfs, Bind(x, y), false);
            && o.Changed?
            && (CheckBinding(after, after[i], after[j]) == BothBound <==> y in vrfs[j].exports)
            && (y !in vrfs[j].exports ==> Stuck(after, x, y) && Stuck(after, y, x))
  {
    var x, y := vrfs[i].rd, vrfs[j].rd;
    FirstBind(vrfs, i, j);
    var after := Step(vrfs, Bind(x, y), false).0;
    CheckMeaning(after, i, j);
    if y !in vrfs[j].exports {
      OneSidedRaises(after, i, j, Bind(x, y));
      OneSidedRaises(after, i, j, Unbind(x, y));
      OneSidedRaises(after, j, i, Bind(y, x));
      OneSidedRaises(after, j, i, Unbind(y, x));
    }
  }

  // ---------------------------------------------------------------- the guard as it is written

  datatype WrittenOutcome = Returned | ValueError | TypeError

  /** `get_bound_vrfs` as written: the list it builds is never returned. */
  function BoundVrfsAsWritten(vrfs: seq<Vrf>, name: string): Option<seq<Vrf>> {
    if FindName(vrfs, name).None? then Some([]) else None
  }

  /** A request up to the point where the guard of the base class goes through the bound VRFs. */
  function RequestAsWritten(vrfs: seq<Vrf>, op: Op): WrittenOutcome {
    var i, j := FindRd(vrfs, op.rd1), FindRd(vrfs, op.rd2);
    if i.None? || j.None? then Returned
    else
      var v1, v2 := vrfs[i.value], vrfs[j.value];
      if v1 == v2 then (if op.Bind? then Returned else ValueError)
      else if BoundVrfsAsWritten(vrfs, v1.name).None? || BoundVrfsAsWritten(vrfs, v2.name).None? then TypeError
      else Returned
  }

  /** So no request for two different VRFs of the switch ever gets past the guard. */
  lemma AsWrittenStopsAtGuard(vrfs: seq<Vrf>, op: Op)
    ensures RequestAsWritten(vrfs, op) == TypeError <==>
      op.rd1 in Rds(vrfs) && op.rd2 in Rds(vrfs) && op.rd1 != op.rd2
    ensures RequestAsWritten(vrfs, op) == ValueError <==> op.Unbind? && op.rd1 == op.rd2 && op.rd1 in Rds(vrfs)
  {
    FindRdIs(vrfs, op.rd1);
    FindRdIs(vrfs, op.rd2);
  }
}
