/** The VRF objects of a Comware switch and the methods that bind and unbind them in place. */
module VrfSwitch {
  import opened Common
  import opened VrfBinding
  import opened VrfRuns

  class VrfObject {
    const name: string
    const rd: string
    var rdExport: seq<string>
    var rdImport: seq<string>

    constructor (v: Vrf)
      ensures Value() == v
    {
      name, rd := v.name, v.rd;
      rdExport, rdImport := v.exports, v.imports;
    }

    function Value(): Vrf
      reads this
    {
      Vrf(name, rd, rdExport, rdImport)
    }

    method ExportOwn()
      modifies `rdExport
      ensures Value() == WithOwnExport(old(Value()))
    {
      if rd !in rdExport {
        rdExport := rdExport + [rd];
      }
    }

    method ImportAll(targets: seq<string>)
      modifies `rdImport
      ensures rdImport == AppendNew(old(rdImport), targets)
    {
      for k := 0 to |targets|
        invariant rdImport == AppendNew(old(rdImport), targets[..k])
      {
        assert Front(targets[..k + 1]) == targets[..k];
        if targets[k] !in rdImport {
          rdImport := rdImport + [targets[k]];
        }
      }
      assert targets[..|targets|] == targets;
    }
  }

  function Values(vrfs: seq<VrfObject>): (r: seq<Vrf>)
    reads vrfs
    ensures |r| == |vrfs| && forall i :: 0 <= i < |vrfs| ==> r[i] == vrfs[i].Value()
  {
    seq(|vrfs|, i requires 0 <= i < |vrfs| reads vrfs => vrfs[i].Value())
  }

  /** The section of one VRF, command by command; the imports are copied between its two lists. */
  method BindOne(vrf: VrfObject, targets: seq<string>) returns (cmds: seq<Command>)
    modifies vrf
    ensures vrf.Value() == WithOwnExport(old(vrf.Value())).(imports := AppendNew(old(vrf.rdImport), targets))
    ensures cmds == BindSection(vrf.Value())
  {
    vrf.ExportOwn();
    cmds := [Instance(vrf.name)];
    for k := 0 to |vrf.rdExport|
      invariant cmds == [Instance(vrf.name)] + ExportCommands(vrf.rdExport[..k])
    {
      cmds := cmds + [ExportTarget(vrf.rdExport[k])];
    }
    assert vrf.rdExport[..|vrf.rdExport|] == vrf.rdExport;
    ghost var opening := cmds;
    vrf.ImportAll(targets);
    for k := 0 to |vrf.rdImport|
      invariant cmds == opening + ImportCommands(vrf.rdImport[..k])
    {
      cmds := cmds + [ImportTarget(vrf.rdImport[k])];
    }
    assert vrf.rdImport[..|vrf.rdImport|] == vrf.rdImport;
    cmds := cmds + [Quit];
  }

  method BindVrfs(vrf1: VrfObject, vrf2: VrfObject) returns (cmds: seq<Command>)
    requires vrf1 != vrf2
    modifies vrf1, vrf2
    ensures (vrf1.Value(), vrf2.Value()) == BindPair(old(vrf1.Value()), old(vrf2.Value()), false)
    ensures cmds == BindScript(vrf1.Value(), vrf2.Value())
  {
    var cmds1 := BindOne(vrf1, vrf2.rdExport);
    var cmds2 := BindOne(vrf2, vrf1.rdExport);
    cmds := cmds1 + cmds2 + [SaveForce];
  }

  method UnbindOne(vrf: VrfObject, rd: string) returns (cmds: seq<Command>)
    modifies vrf
    ensures vrf.Value() == old(vrf.Value()).(imports := RemoveFirst(old(vrf.rdImport), rd))
    ensures cmds == UnbindSection(old(vrf.Value()), rd)
  {
    cmds := [];
    NothingToRemove(vrf.rdImport, rd);
    if rd in vrf.rdImport {
      cmds := [Instance(vrf.name), UndoImport(rd)];
      vrf.rdImport := RemoveFirst(vrf.rdImport, rd);
    }
  }

  method UnbindVrfs(vrf1: VrfObject, vrf2: VrfObject) returns (o: Outcome)
    requires vrf1 != vrf2
    modifies vrf1, vrf2
    ensures vrf1.rd == vrf2.rd ==> o == SameRdError
    ensures vrf1.rd == vrf2.rd ==> vrf1.Value() == old(vrf1.Value()) && vrf2.Value() == old(vrf2.Value())
    ensures vrf1.rd != vrf2.rd ==>
      (vrf1.Value(), vrf2.Value()) == UnbindPair(old(vrf1.Value()), old(vrf2.Value()))
    ensures vrf1.rd != vrf2.rd ==>
      var script := UnbindScript(old(vrf1.Value()), old(vrf2.Value()));
      o == if script == [] then NoScriptError else Changed(script)
  {
    if vrf1.rd == vrf2.rd {
      return SameRdError;
    }
    var cmds1 := UnbindOne(vrf1, vrf2.rd);
    var cmds2 := UnbindOne(vrf2, vrf1.rd);
    if cmds1 + cmds2 == [] {
      return NoScriptError;
    }
    o := Changed(cmds1 + cmds2 + [SaveForce]);
  }

  /** The switch, with the guard of the base class returning the list that it builds. */
  class Switch {
    var vrfs: seq<VrfObject>

    ghost predicate Valid()
      reads this
    {
      forall i, j :: 0 <= i < j < |vrfs| ==> vrfs[i] != vrfs[j]
    }

    method BindVrf(rd1: string, rd2: string) returns (o: Outcome)
      requires Valid()
      modifies vrfs
      ensures Valid() && (Values(vrfs), o) == Step(old(Values(vrfs)), Bind(rd1, rd2), false)
    {
      var all := Values(vrfs);
      var i, j := FindRd(all, rd1), FindRd(all, rd2);
      if i.None? || j.None? {
        return Missing;
      }
      match CheckBinding(all, all[i.value], all[j.value]) {
        case OneSided => o := AsymmetryError;
        case BothBound => o := Unchanged;
        case NeitherBound =>
          var cmds := BindVrfs(vrfs[i.value], vrfs[j.value]);
          o := Changed(cmds);
          assert Values(vrfs) == all[i.value := vrfs[i.value].Value()][j.value := vrfs[j.value].Value()];
      }
    }

    method UnbindVrf(rd1: string, rd2: string) returns (o: Outcome)
      requires Valid()
      modifies vrfs
      ensures Valid() && (Values(vrfs), o) == Step(old(Values(vrfs)), Unbind(rd1, rd2), false)
    {
      var all := Values(vrfs);
      var i, j := FindRd(all, rd1), FindRd(all, rd2);
      if i.None? || j.None? {
        return Missing;
      }
      match CheckBinding(all, all[i.value], all[j.value]) {
        case OneSided => o := AsymmetryError;
        case NeitherBound => o := Unchanged;
        case BothBound =>
          if rd1 == rd2 {
            return SameRdError;
          }
          ghost var (w1, w2) := UnbindPair(all[i.value], all[j.value]);
          o := UnbindVrfs(vrfs[i.value], vrfs[j.value]);
          assert vrfs[i.value].Value() == w1 && vrfs[j.value].Value() == w2;
          assert Values(vrfs) == all[i.value := w1][j.value := w2];
      }
    }
  }
}
