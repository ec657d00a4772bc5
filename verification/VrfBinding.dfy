/**
 * Binding two VRFs of a Comware switch through their route targets: the update of the model, the
 * command script that goes with it, and what the script does to a device (RFC 4364, section 4.3.1).
 */
module VrfBinding {
  import opened Common

  datatype Vrf = Vrf(name: string, rd: string, exports: seq<string>, imports: seq<string>)

  // ---------------------------------------------------------------- the update of the model

  function WithOwnExport(v: Vrf): Vrf {
    if v.rd in v.exports then v else v.(exports := v.exports + [v.rd])
  }

  /**
   * `_bind_vrf`, in the order of its statements: the first VRF imports what the second exports before
   * the second has been made to export its own RD. With `exportFirst` both export first.
   */
  function BindPair(v1: Vrf, v2: Vrf, exportFirst: bool): (Vrf, Vrf) {
    var w1 := WithOwnExport(v1);
    var copied := if exportFirst then WithOwnExport(v2).exports else v2.exports;
    var w2 := WithOwnExport(v2);
    (w1.(imports := AppendNew(v1.imports, copied)), w2.(imports := AppendNew(v2.imports, w1.exports)))
  }

  function UnbindPair(v1: Vrf, v2: Vrf): (Vrf, Vrf) {
    (v1.(imports := RemoveFirst(v1.imports, v2.rd)), v2.(imports := RemoveFirst(v2.imports, v1.rd)))
  }

  /** A VRF takes in the routes of another when it imports a target that the other exports. */
  ghost predicate Receives(v: Vrf, from: Vrf) {
    exists target :: target in v.imports && target in from.exports
  }

  /**
   * What one `_bind_vrf` achieves, whatever the two VRFs exported and imported before. The second
   * VRF always imports the first one's RD and receives its routes; the first imports the second's RD
   * exactly when that RD was exported or imported already, and receives routes exactly when the
   * second exported anything, or its RD was imported already.
   */
  lemma BindExact(v1: Vrf, v2: Vrf)
    ensures var (w1, w2) := BindPair(v1, v2, false);
            && v1.rd in w2.imports && Receives(w2, w1)
            && (v2.rd in w1.imports <==> v2.rd in v1.imports || v2.rd in v2.exports)
            && (Receives(w1, w2) <==> v2.rd in v1.imports || v2.exports != [])
  {
    var (w1, w2) := BindPair(v1, v2, false);
    AppendNewMembers(v1.imports, v2.exports);
    AppendNewMembers(v2.imports, w1.exports);
    assert v1.rd in v2.imports + w1.exports;
    assert forall x :: x in v1.imports ==> x in v1.imports + v2.exports;
    assert forall x :: x in v2.exports ==> x in v1.imports + v2.exports;
    if v2.exports != [] {
      assert v2.exports[0] in w1.imports && v2.exports[0] in w2.exports;
    }
  }

  /**
   * The objects after a bind, from any lists: each exports what it did and its own RD; the first imports
   * what it did and every target the second exported, and with `exportFirst` the second's RD; the second
   * what it did and every target the first exported, and the first's RD. New imports come last.
   */
  lemma BindTargets(v1: Vrf, v2: Vrf, exportFirst: bool)
    ensures var (w1, w2) := BindPair(v1, v2, exportFirst);
            && w1 == v1.(exports := w1.exports, imports := w1.imports)
            && w2 == v2.(exports := w2.exports, imports := w2.imports)
            && w1.exports == v1.exports + (if v1.rd in v1.exports then [] else [v1.rd])
            && w2.exports == v2.exports + (if v2.rd in v2.exports then [] else [v2.rd])
            && v1.imports <= w1.imports && v2.imports <= w2.imports
            && (forall x :: x in w1.imports <==> x in v1.imports || x in v2.exports || (exportFirst && x == v2.rd))
            && (forall x :: x in w2.imports <==> x in v2.imports || x in v1.exports || x == v1.rd)
            && (NoDup(v1.imports) ==> NoDup(w1.imports)) && (NoDup(v2.imports) ==> NoDup(w2.imports))
  {
    var (w1, w2) := BindPair(v1, v2, exportFirst);
    var copied := if exportFirst then w2.exports else v2.exports;
    AppendNewMembers(v1.imports, copied);
    AppendNewMembers(v2.imports, w1.exports);
    AppendNewPrefix(v1.imports, copied, |copied|);
    AppendNewPrefix(v2.imports, w1.exports, |w1.exports|);
    assert forall x :: x in v1.imports || x in copied <==> x in v1.imports + copied;
    assert forall x :: x in v2.imports || x in w1.exports <==> x in v2.imports + w1.exports;
  }

  /** The objects after an unbind: of the other's RD the first occurrence among the imports goes, and nothing else. */
  lemma UnbindTargets(v1: Vrf, v2: Vrf, i: nat, j: nat)
    requires i <= |v1.imports| && v2.rd !in v1.imports[..i] && (i < |v1.imports| ==> v1.imports[i] == v2.rd)
    requires j <= |v2.imports| && v1.rd !in v2.imports[..j] && (j < |v2.imports| ==> v2.imports[j] == v1.rd)
    ensures UnbindPair(v1, v2)
         == (v1.(imports := v1.imports[..i] + if i < |v1.imports| then v1.imports[i + 1..] else []),
             v2.(imports := v2.imports[..j] + if j < |v2.imports| then v2.imports[j + 1..] else []))
  {
    RemoveFirstAt(v1.imports, v2.rd, i);
    RemoveFirstAt(v2.imports, v1.rd, j);
  }

  /** With both exports set first, every bind makes the pair import each other's RD. */
  lemma BindExportFirst(v1: Vrf, v2: Vrf)
    ensures var (w1, w2) := BindPair(v1, v2, true);
            v1.rd in w2.imports && v2.rd in w1.imports && Receives(w1, w2) && Receives(w2, w1)
  {
    var (w1, w2) := BindPair(v1, v2, true);
    AppendNewMembers(v1.imports, w2.exports);
    AppendNewMembers(v2.imports, w1.exports);
    assert v1.rd in v2.imports + w1.exports;
    assert v2.rd in v1.imports + w2.exports;
  }

  // ---------------------------------------------------------------- the command scripts

  datatype Command =
    | Instance(name: string)
    | ExportTarget(target: string)
    | ImportTarget(target: string)
    | UndoImport(target: string)
    | Quit
    | SaveForce

  function ExportCommands(targets: seq<string>): (r: seq<Command>)
    ensures |r| == |targets| && forall i :: 0 <= i < |r| ==> r[i] == ExportTarget(targets[i])
  {
    seq(|targets|, i requires 0 <= i < |targets| => ExportTarget(targets[i]))
  }

  function ImportCommands(targets: seq<string>): (r: seq<Command>)
    ensures |r| == |targets| && forall i :: 0 <= i < |r| ==> r[i] == ImportTarget(targets[i])
  {
    seq(|targets|, i requires 0 <= i < |targets| => ImportTarget(targets[i]))
  }

  /** The section of the bind script for one VRF, with the lists as the update has left them. */
  function BindSection(w: Vrf): seq<Command> {
    [Instance(w.name)] + ExportCommands(w.exports) + ImportCommands(w.imports) + [Quit]
  }

  function BindScript(w1: Vrf, w2: Vrf): seq<Command> {
    BindSection(w1) + BindSection(w2) + [SaveForce]
  }

  /** The section of the unbind script for one VRF, decided on its imports before the update. */
  function UnbindSection(v: Vrf, rd: string): seq<Command> {
    if rd in v.imports then [Instance(v.name), UndoImport(rd)] else []
  }

  /** Empty exactly when the driver returns `True` in place of a command list, which its wrapper refuses. */
  function UnbindScript(v1: Vrf, v2: Vrf): seq<Command> {
    var cmds := UnbindSection(v1, v2.rd) + UnbindSection(v2, v1.rd);
    if cmds == [] then [] else cmds + [SaveForce]
  }

  // ---------------------------------------------------------------- what a device makes of a script

  datatype Targets = Targets(exports: set<string>, imports: set<string>)

  /** The vpn-instances of a device, the one whose view the session is in, and those that were saved last. */
  datatype Device = Device(instances: map<string, Targets>, current: Option<string>, saved: map<string, Targets>)

  function Update(d: Device, f: Targets -> Targets): Device {
    if d.current.Some? && d.current.value in d.instances
    then d.(instances := d.instances[d.current.value := f(d.instances[d.current.value])])
    else d
  }

  function Execute(d: Device, c: Command): Device {
    match c
    case Instance(name) =>
      var instances := if name in d.instances then d.instances else d.instances[name := Targets({}, {})];
      d.(instances := instances, current := Some(name))
    case ExportTarget(x) => Update(d, (t: Targets) => t.(exports := t.exports + {x}))
    case ImportTarget(x) => Update(d, (t: Targets) => t.(imports := t.imports + {x}))
    case UndoImport(x) => Update(d, (t: Targets) => t.(imports := t.imports - {x}))
    case Quit => d.(current := None)
    case SaveForce => d.(saved := d.instances)
  }

  function ExecuteAll(d: Device, cmds: seq<Command>): Device {
    if cmds == [] then d else Execute(ExecuteAll(d, Front(cmds)), Last(cmds))
  }

  ghost function TargetsOf(v: Vrf): Targets {
    Targets(Elements(v.exports), Elements(v.imports))
  }

  ghost predicate Agrees(d: Device, v: Vrf) {
    v.name in d.instances && d.instances[v.name] == TargetsOf(v)
  }

  lemma {:induction false} ExecuteConcat(d: Device, a: seq<Command>, b: seq<Command>)
    ensures ExecuteAll(d, a + b) == ExecuteAll(ExecuteAll(d, a), b)
  {
    if b == [] {
      assert a + b == a;
    } else {
      ExecuteConcat(d, a, Front(b));
      assert Front(a + b) == a + Front(b);
    }
  }

  lemma ElementsSnoc(was: set<string>, targets: seq<string>, x: string)
    ensures was + Elements(targets + [x]) == was + Elements(targets) + {x}
  {
  }

  lemma {:induction false} ExecuteExports(d: Device, name: string, targets: seq<string>)
    requires d.current == Some(name) && name in d.instances
    ensures ExecuteAll(d, ExportCommands(targets))
         == var was := d.instances[name];
            d.(instances := d.instances[name := Targets(was.exports + Elements(targets), was.imports)])
  {
    if targets == [] {
      assert d.instances[name].exports + Elements(targets) == d.instances[name].exports;
    } else {
      ExecuteExports(d, name, Front(targets));
      assert Front(ExportCommands(targets)) == ExportCommands(Front(targets));
      assert targets == Front(targets) + [Last(targets)];
      ElementsSnoc(d.instances[name].exports, Front(targets), Last(targets));
    }
  }

  lemma {:induction false} ExecuteImports(d: Device, name: string, targets: seq<string>)
    requires d.current == Some(name) && name in d.instances
    ensures ExecuteAll(d, ImportCommands(targets))
         == var was := d.instances[name];
            d.(instances := d.instances[name := Targets(was.exports, was.imports + Elements(targets))])
  {
    if targets == [] {
      assert d.instances[name].imports + Elements(targets) == d.instances[name].imports;
    } else {
      ExecuteImports(d, name, Front(targets));
      assert Front(ImportCommands(targets)) == ImportCommands(Front(targets));
      assert targets == Front(targets) + [Last(targets)];
      ElementsSnoc(d.instances[name].imports, Front(targets), Last(targets));
    }
  }

  lemma ExecuteOne(d: Device, c: Command)
    ensures ExecuteAll(d, [c]) == Execute(d, c)
  {
    assert Front([c]) == [];
    assert ExecuteAll(d, []) == d;
  }

  /** One section of the bind script adds to its own instance and touches no other. */
  lemma ExecuteBindSection(d: Device, v: Vrf, w: Vrf)
    requires Agrees(d, v) && v.name == w.name
    requires Elements(v.exports) <= Elements(w.exports) && Elements(v.imports) <= Elements(w.imports)
    ensures ExecuteAll(d, BindSection(w)) == d.(instances := d.instances[w.name := TargetsOf(w)], current := None)
  {
    var enter, exports, imports := [Instance(w.name)], ExportCommands(w.exports), ImportCommands(w.imports);
    ExecuteConcat(d, enter + exports + imports, [Quit]);
    ExecuteConcat(d, enter + exports, imports);
    ExecuteConcat(d, enter, exports);
    ExecuteOne(d, Instance(w.name));
    ExecuteTargets(Execute(d, Instance(w.name)), v, w);
    ExecuteOne(ExecuteAll(d, enter + exports + imports), Quit);
  }

  lemma ExecuteTargets(d: Device, v: Vrf, w: Vrf)
    requires Agrees(d, v) && v.name == w.name && d.current == Some(w.name)
    requires Elements(v.exports) <= Elements(w.exports) && Elements(v.imports) <= Elements(w.imports)
    ensures ExecuteAll(ExecuteAll(d, ExportCommands(w.exports)), ImportCommands(w.imports))
         == d.(instances := d.instances[w.name := TargetsOf(w)])
  {
    ExecuteExports(d, w.name, w.exports);
    ExecuteImports(ExecuteAll(d, ExportCommands(w.exports)), w.name, w.imports);
    assert d.instances[w.name].exports + Elements(w.exports) == Elements(w.exports);
    assert d.instances[w.name].imports + Elements(w.imports) == Elements(w.imports);
  }

  lemma BindPairGrows(v1: Vrf, v2: Vrf, exportFirst: bool)
    ensures var (w1, w2) := BindPair(v1, v2, exportFirst);
            && Elements(v1.exports) <= Elements(w1.exports) && Elements(v1.imports) <= Elements(w1.imports)
            && Elements(v2.exports) <= Elements(w2.exports) && Elements(v2.imports) <= Elements(w2.imports)
  {
    var (w1, w2) := BindPair(v1, v2, exportFirst);
    var copied := if exportFirst then w2.exports else v2.exports;
    AppendNewMembers(v1.imports, copied);
    AppendNewMembers(v2.imports, w1.exports);
    assert forall x :: x in v1.imports ==> x in v1.imports + copied;
    assert forall x :: x in v2.imports ==> x in v2.imports + w1.exports;
  }

  /**
   * The bind script does to the device what the update does to the model: if the device agreed with
   * both VRFs, it agrees with them afterwards, every other instance is as it was, and all is saved.
   */
  lemma BindScriptAgrees(d: Device, v1: Vrf, v2: Vrf, exportFirst: bool)
    requires Agrees(d, v1) && Agrees(d, v2) && v1.name != v2.name
    ensures var (w1, w2) := BindPair(v1, v2, exportFirst);
            var instances := d.instances[v1.name := TargetsOf(w1)][v2.name := TargetsOf(w2)];
            ExecuteAll(d, BindScript(w1, w2)) == Device(instances, None, instances)
  {
    var (w1, w2) := BindPair(v1, v2, exportFirst);
    BindPairGrows(v1, v2, exportFirst);
    ExecuteConcat(d, BindSection(w1) + BindSection(w2), [SaveForce]);
    ExecuteConcat(d, BindSection(w1), BindSection(w2));
    ExecuteBindSection(d, v1, w1);
    var d' := ExecuteAll(d, BindSection(w1));
    ExecuteBindSection(d', v2, w2);
    ExecuteOne(ExecuteAll(d', BindSection(w2)), SaveForce);
  }

  lemma StillIn(s: seq<string>, x: string, y: string)
    ensures y in RemoveFirst(s, x) <==> y in s && (y == x ==> multiset(s)[x] > 1)
  {
    var r := RemoveFirst(s, x);
    assert y in r <==> y in multiset(r);
    assert y in s <==> y in multiset(s);
    assert multiset(r)[y] == if y == x && multiset(s)[y] > 0 then multiset(s)[y] - 1 else multiset(s)[y];
  }

  lemma RemovedElements(s: seq<string>, x: string)
    ensures Elements(RemoveFirst(s, x)) == Elements(s) - {x} <==> multiset(s)[x] <= 1
  {
    var left := Elements(RemoveFirst(s, x));
    forall y
      ensures y in left <==> y in Elements(s) && (y == x ==> multiset(s)[x] > 1)
    {
      StillIn(s, x, y);
    }
    assert x in s <==> x in multiset(s);
    WithoutOne(left, Elements(s), x, multiset(s)[x] > 1);
  }

  lemma WithoutOne(left: set<string>, all: set<string>, x: string, stays: bool)
    requires forall y :: y in left <==> y in all && (y == x ==> stays)
    requires stays ==> x in all
    ensures left == all - {x} <==> !stays
  {
    if stays {
      assert x in left;
    }
  }

  lemma {:induction false} NothingToRemove(s: seq<string>, x: string)
    ensures x !in s ==> RemoveFirst(s, x) == s
  {
    if s != [] {
      assert s == [s[0]] + s[1..];
      NothingToRemove(s[1..], x);
    }
  }

  lemma EmptyScript(v1: Vrf, v2: Vrf)
    ensures UnbindScript(v1, v2) == [] <==> v2.rd !in v1.imports && v1.rd !in v2.imports
    ensures UnbindScript(v1, v2) == [] ==> UnbindPair(v1, v2) == (v1, v2)
  {
    NothingToRemove(v1.imports, v2.rd);
    NothingToRemove(v2.imports, v1.rd);
  }

  lemma ExecuteUnbindSection(d: Device, v: Vrf, rd: string)
    requires Agrees(d, v)
    ensures ExecuteAll(d, UnbindSection(v, rd)).instances
         == d.instances[v.name := Targets(Elements(v.exports), Elements(v.imports) - {rd})]
  {
    if rd in v.imports {
      assert UnbindSection(v, rd) == [Instance(v.name)] + [UndoImport(rd)];
      ExecuteConcat(d, [Instance(v.name)], [UndoImport(rd)]);
      ExecuteOne(d, Instance(v.name));
      ExecuteOne(Execute(d, Instance(v.name)), UndoImport(rd));
    } else {
      assert Elements(v.imports) - {rd} == Elements(v.imports);
    }
  }

  lemma ExecuteUnbindScript(d: Device, v1: Vrf, v2: Vrf)
    requires Agrees(d, v1) && Agrees(d, v2) && v1.name != v2.name
    ensures ExecuteAll(d, UnbindScript(v1, v2)).instances
         == d.instances[v1.name := Targets(Elements(v1.exports), Elements(v1.imports) - {v2.rd})]
                       [v2.name := Targets(Elements(v2.exports), Elements(v2.imports) - {v1.rd})]
    ensures var d' := ExecuteAll(d, UnbindScript(v1, v2));
            if v2.rd in v1.imports || v1.rd in v2.imports then d'.saved == d'.instances else d' == d
  {
    var s1, s2 := UnbindSection(v1, v2.rd), UnbindSection(v2, v1.rd);
    ExecuteUnbindSection(d, v1, v2.rd);
    ExecuteConcat(d, s1, s2);
    ExecuteUnbindSection(ExecuteAll(d, s1), v2, v1.rd);
    if s1 + s2 != [] {
      ExecuteConcat(d, s1 + s2, [SaveForce]);
      ExecuteOne(ExecuteAll(d, s1 + s2), SaveForce);
    }
  }

  /**
   * After an unbind the device agrees with both VRFs exactly when neither listed the other's RD twice
   * among its imports: the device forgets a target altogether, the model only its first occurrence.
   */
  lemma UnbindScriptExact(d: Device, v1: Vrf, v2: Vrf)
    requires Agrees(d, v1) && Agrees(d, v2) && v1.name != v2.name
    ensures var (w1, w2) := UnbindPair(v1, v2);
            var d' := ExecuteAll(d, UnbindScript(v1, v2));
            && (Agrees(d', w1) && Agrees(d', w2) <==>
                multiset(v1.imports)[v2.rd] <= 1 && multiset(v2.imports)[v1.rd] <= 1)
            && (forall name :: name in d.instances && name != v1.name && name != v2.name ==>
                  name in d'.instances && d'.instances[name] == d.instances[name])
            && (if v2.rd in v1.imports || v1.rd in v2.imports then d'.saved == d'.instances else d' == d)
  {
    ExecuteUnbindScript(d, v1, v2);
    var t1 := Targets(Elements(v1.exports), Elements(v1.imports) - {v2.rd});
    var t2 := Targets(Elements(v2.exports), Elements(v2.imports) - {v1.rd});
    AgreementAfter(d, ExecuteAll(d, UnbindScript(v1, v2)), UnbindPair(v1, v2).0, UnbindPair(v1, v2).1, t1, t2);
    ForgottenExact(v1, v2.rd);
    ForgottenExact(v2, v1.rd);
  }

  lemma AgreementAfter(d: Device, d': Device, w1: Vrf, w2: Vrf, t1: Targets, t2: Targets)
    requires w1.name != w2.name && d'.instances == d.instances[w1.name := t1][w2.name := t2]
    ensures Agrees(d', w1) <==> t1 == TargetsOf(w1)
    ensures Agrees(d', w2) <==> t2 == TargetsOf(w2)
    ensures forall name :: name in d.instances && name != w1.name && name != w2.name ==>
      name in d'.instances && d'.instances[name] == d.instances[name]
  {
  }

  lemma ForgottenExact(v: Vrf, rd: string)
    ensures TargetsOf(v.(imports := RemoveFirst(v.imports, rd)))
         == Targets(Elements(v.exports), Elements(v.imports) - {rd})
       <==> multiset(v.imports)[rd] <= 1
  {
    RemovedElements(v.imports, rd);
  }
}
