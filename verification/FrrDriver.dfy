/** The line loop of the FRR parser with its three registers, and the loops of the printers. */
module FrrDriver {
  import opened Common
  import opened KeyedList
  import opened FrrParser
  import opened FrrPrinter

  lemma {:induction false} ErrorStops(s: State, lines: seq<Line>, n: nat)
    requires n <= |lines| && Run(s, lines[..n]).None?
    ensures Run(s, lines).None?
  {
    if n == |lines| {
      assert lines[..n] == lines;
    } else {
      assert Front(lines)[..n] == lines[..n];
      ErrorStops(s, Front(lines), n);
    }
  }

  /**
   * A `neighbor` line in the open router: the neighbor is found or created, then one field is set.
   * In the source `neighbor` is a reference into the list.
   */
  method NeighborLine(r: Router, line: Line) returns (updated: Option<Router>)
    requires RouterOk(r) && line != []
    ensures updated == if AttributeOf(line).None? then None
                       else Some(ApplyChange(r, SetNeighbor(line[1], AttributeOf(line).value)))
  {
    if |line| < 2 {
      return None;
    }
    var ns := r.neighbors;
    var found := FindBy(NeighborKey, ns, line[1]);
    if found.None? {
      ns := ns + [Neighbor(line[1], None, None, None)];
    }
    var k := if found.Some? then found.value else |ns| - 1;
    if |line| < 3 {
      return None;
    }
    ghost var before := ns[k];
    if line[2] == "remote-as" {
      if |line| < 4 {
        return None;
      }
      ns := ns[k := ns[k].(remoteAs := Some(line[3]))];
    } else if line[2] == "description" {
      if |line| == 3 {
        return None;
      }
      ns := ns[k := ns[k].(description := Some(line[3..]))];
    } else if line[2] == "update-source" {
      if |line| < 4 {
        return None;
      }
      ns := ns[k := ns[k].(ipSource := Some(line[3]))];
    }
    ghost var a := AttributeOf(line).value;
    if found.Some? {
      UpsertAt(r.neighbors, k, a);
    }
    assert ns == Upsert(r.neighbors, line[1], a);
    updated := Some(r.(neighbors := ns));
  }

  /** A line inside the open router, the one at index `k`; when it `failed` the parse stops with an error. */
  method LineInRouter(c: Config, k: nat, inFamily: bool, line: Line, ghost s: State)
    returns (failed: bool, c': Config, open: bool, inFamily': bool)
    requires k < |c.routers| && s == State(c, Some(RouterKey(c.routers[k])), inFamily, s.vrf)
    requires Invariant(s) && line != []
    ensures failed <==> StepInRouter(s, line).None?
    ensures !failed ==> k < |c'.routers|
    ensures !failed ==>
      StepInRouter(s, line).value == State(c', if open then Some(RouterKey(c'.routers[k])) else None, inFamily', s.vrf)
  {
    failed, c', open, inFamily' := false, c, true, inFamily;
    var r := c.routers[k];
    assert r in c.routers;
    if Starts(line, "neighbor") && !inFamily {
      var updated := NeighborLine(r, line);
      if updated.None? {
        failed := true;
        return;
      }
      EditAt(c.routers, k, SetNeighbor(line[1], AttributeOf(line).value));
      c' := c.(routers := c.routers[k := updated.value]);
    } else if inFamily {
      var families, f := Front(r.families), Last(r.families);
      if Starts(line, "redistribute") {
        if |line| < 2 {
          failed := true;
          return;
        }
        EditAt(c.routers, k, Redistribute(line[1]));
        var grown := f.(redistribute := f.redistribute + [line[1]]);
        c' := c.(routers := c.routers[k := r.(families := families + [grown])]);
      } else if StartsTwo(line, "import", "vrf") {
        if |line| < 3 {
          failed := true;
          return;
        }
        EditAt(c.routers, k, ImportVrf(line[2]));
        c' := c.(routers := c.routers[k := r.(families := families + [f.(imports := f.imports + [line[2]])])]);
      } else if line == ["exit-address-family"] {
        inFamily' := false;
      }
    } else if Starts(line, "address-family") {
      if |line| < 3 {
        failed := true;
        return;
      }
      EditAt(c.routers, k, OpenFamily(Family(line[1], line[2], [], [])));
      c' := c.(routers := c.routers[k := r.(families := r.families + [Family(line[1], line[2], [], [])])]);
      inFamily' := true;
    } else if Starts(line, "exit") {
      open := false;
    }
  }

  /** `from_raw_config` up to the dictionary it builds; `current` is the index of the open router. */
  method FromRawConfig(lines: seq<Line>) returns (parsed: Option<Config>)
    ensures parsed == Parse(lines)
  {
    var c := EMPTY;
    var current: Option<nat> := None;
    var inFamily := false;
    var vrf: Option<string> := None;
    for i := 0 to |lines|
      invariant current.Some? ==> current.value < |c.routers|
      invariant var s := Run(StartOn(EMPTY), lines[..i]);
                var open' := if current.None? then None else Some(RouterKey(c.routers[current.value]));
                s == Some(State(c, open', inFamily, vrf))
    {
      var line := lines[i];
      assert Front(lines[..i + 1]) == lines[..i];
      RunKeeps(StartOn(EMPTY), lines[..i]);
      ghost var s := Run(StartOn(EMPTY), lines[..i]).value;
      assert Run(StartOn(EMPTY), lines[..i + 1]) == Step(s, line);
      if Step(s, line).None? {
        ErrorStops(StartOn(EMPTY), lines, i + 1);
      }
      if line == [] || Starts(line, "!") {
      } else if current.Some? {
        var failed, c', open, inFamily' := LineInRouter(c, current.value, inFamily, line, s);
        if failed {
          return None;
        }
        c, inFamily := c', inFamily';
        if !open {
          current := None;
        }
      } else if StartsTwo(line, "frr", "version") {
        if |line| < 3 {
          return None;
        }
        c := c.(version := Some(line[2]));
      } else if StartsTwo(line, "frr", "defaults") {
        if |line| < 3 {
          return None;
        }
        c := c.(defaults := Some(line[2]));
      } else if Starts(line, "hostname") {
        if |line| < 2 {
          return None;
        }
        c := c.(hostname := Some(line[1]));
      } else if Starts(line, "agentx") {
        c := c.(agentx := true);
      } else if Starts(line, "service") {
        if |line| < 2 {
          return None;
        }
        c := c.(service := Some(line[1]));
      } else if StartsTwo(line, "router", "bgp") {
        if |line| < 3 {
          return None;
        }
        var name := if |line| > 4 then line[4] else DEFAULT;
        current := FindBy(RouterKey, c.routers, (line[2], name));
        if current.None? {
          current := Some(|c.routers|);
          c := c.(routers := c.routers + [Router(line[2], name, [], [])]);
        }
      } else if Starts(line, "vrf") {
        if |line| < 2 {
          return None;
        }
        vrf := Some(line[1]);
      } else if StartsTwo(line, "ip", "route") {
        if |line| < 3 {
          return None;
        }
        var via, inVrf := if |line| > 3 then Some(line[3]) else None, if vrf.None? then DEFAULT else vrf.value;
        var route := Route(line[2], via, inVrf);
        c := c.(routes := c.routes + [route]);
      } else if Starts(line, "exit-vrf") {
        vrf := None;
      }
    }
    assert lines[..|lines|] == lines;
    parsed := Some(c);
  }

  /** The lines of one address family, as the inner part of the loop below appends them. */
  method AppendFamily(cmd: seq<Line>, f: Family) returns (longer: seq<Line>)
    ensures longer == cmd + FamilyLines(Enumerated(f), false)
  {
    longer := cmd + [["address", "family", f.protocol, f.kind]];
    assert OpenLine(f, false) == ["address", "family", f.protocol, f.kind];
    ghost var head := longer;
    for j := 0 to |f.imports|
      invariant longer == head + ImportLines(f.imports[..j])
    {
      longer := longer + [["import", "vrf", f.imports[j]]];
    }
    assert f.imports[..|f.imports|] == f.imports;
    ghost var middle := longer;
    for j := 0 to |f.redistribute|
      invariant longer == middle + RedistributeLines(EnumTexts(f.redistribute[..j]))
    {
      longer := longer + [["redistribute", "BGPRedistribute." + f.redistribute[j]]];
    }
    assert f.redistribute[..|f.redistribute|] == f.redistribute;
    longer := longer + [["exit-address-family"]];
    ghost var imports, protocols := ImportLines(f.imports), RedistributeLines(EnumTexts(f.redistribute));
    assert longer == cmd + ([OpenLine(f, false)] + imports + protocols + [["exit-address-family"]]);
  }

  /** The line that both command lists start with; the default VRF is not named in it. */
  method OpeningLine(asn: string, vrf: string) returns (line: Line)
    ensures line == RouterLine(asn, vrf)
    ensures line == if vrf == "default" then ["router", "bgp", asn] else ["router", "bgp", asn, "vrf", vrf]
  {
    line := ["router", "bgp", asn] + if vrf == "default" then [] else ["vrf", vrf];
  }

  method AddBgpInstanceCmd(asn: string, vrf: string, afs: seq<Family>) returns (cmd: seq<Line>)
    ensures cmd == InstanceCommands(asn, vrf, EnumeratedAll(afs), false)
  {
    var opening := OpeningLine(asn, vrf);
    cmd := [opening];
    for i := 0 to |afs|
      invariant cmd == [RouterLine(asn, vrf)] + FamiliesLines(EnumeratedAll(afs[..i]), false)
    {
      cmd := AppendFamily(cmd, afs[i]);
      assert Front(EnumeratedAll(afs[..i + 1])) == EnumeratedAll(afs[..i]);
    }
    assert afs[..|afs|] == afs;
  }

  method AddBgpPeerCmd(asn: string, vrf: string, n: Neighbor) returns (cmd: seq<Line>)
    requires n.remoteAs.Some?
    ensures cmd == PeerCommands(asn, vrf, n)
  {
    var opening := OpeningLine(asn, vrf);
    cmd := [opening];
    cmd := cmd + [["neighbor", n.ip, "remote-as", n.remoteAs.value]];
    if n.description.Some? && n.description.value != [] {
      cmd := cmd + [["neighbor", n.ip, "description"] + n.description.value];
    }
    if n.ipSource.Some? {
      cmd := cmd + [["neighbor", n.ip, "update-source", n.ipSource.value]];
    }
  }
}
