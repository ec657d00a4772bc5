/** The BGP commands the driver prints, and what the parser makes of them. */
module FrrPrinter {
  import opened Common
  import opened KeyedList
  import opened FrrParser
  import opened FrrMerge

  // ---------------------------------------------------------------- the printers

  function RouterLine(asn: string, vrf: string): Line {
    ["router", "bgp", asn] + if vrf == DEFAULT then [] else ["vrf", vrf]
  }

  function ImportLines(imports: seq<string>): (r: seq<Line>)
    ensures |r| == |imports| && forall i :: 0 <= i < |r| ==> r[i] == ["import", "vrf", imports[i]]
  {
    seq(|imports|, i requires 0 <= i < |imports| => ["import", "vrf", imports[i]])
  }

  function RedistributeLines(protocols: seq<string>): (r: seq<Line>)
    ensures |r| == |protocols| && forall i :: 0 <= i < |r| ==> r[i] == ["redistribute", protocols[i]]
  {
    seq(|protocols|, i requires 0 <= i < |protocols| => ["redistribute", protocols[i]])
  }

  /** The driver prints `address family` in two words; the parser knows it with a hyphen. */
  function OpenLine(f: Family, hyphen: bool): Line {
    (if hyphen then ["address-family"] else ["address", "family"]) + [f.protocol, f.kind]
  }

  function FamilyLines(f: Family, hyphen: bool): seq<Line> {
    [OpenLine(f, hyphen)] + ImportLines(f.imports) + RedistributeLines(f.redistribute) + [["exit-address-family"]]
  }

  function FamiliesLines(fs: seq<Family>, hyphen: bool): seq<Line> {
    if fs == [] then [] else FamiliesLines(Front(fs), hyphen) + FamilyLines(Last(fs), hyphen)
  }

  function InstanceCommands(asn: string, vrf: string, fs: seq<Family>, hyphen: bool): seq<Line> {
    [RouterLine(asn, vrf)] + FamiliesLines(fs, hyphen)
  }

  function NeighborLines(n: Neighbor): seq<Line>
    requires n.remoteAs.Some?
  {
    [["neighbor", n.ip, "remote-as", n.remoteAs.value]]
    + (if n.description.Some? && n.description.value != []
       then [["neighbor", n.ip, "description"] + n.description.value] else [])
    + (if n.ipSource.Some? then [["neighbor", n.ip, "update-source", n.ipSource.value]] else [])
  }

  /** A description without words is not printed. */
  lemma NoWords(n: Neighbor)
    requires n.remoteAs.Some? && n.description == Some([])
    ensures NeighborLines(n) == NeighborLines(n.(description := None))
  {
  }

  function PeerCommands(asn: string, vrf: string, n: Neighbor): seq<Line>
    requires n.remoteAs.Some?
  {
    [RouterLine(asn, vrf)] + NeighborLines(n)
  }

  function Block(lines: seq<Line>): seq<Line> {
    lines + [["exit"]]
  }

  /** A neighbor as the driver can be given one: a description, if there is one, has words. */
  predicate Printable(n: Neighbor) {
    n.remoteAs.Some? && n.description != Some([])
  }

  predicate AllPrintable(r: Router) {
    forall n <- r.neighbors :: Printable(n)
  }

  function PeerBlocks(asn: string, vrf: string, ns: seq<Neighbor>): seq<Line>
    requires forall n <- ns :: Printable(n)
  {
    if ns == [] then []
    else
      assert ns[|ns| - 1] in ns && Printable(Last(ns));
      PeerBlocks(asn, vrf, Front(ns)) + Block(PeerCommands(asn, vrf, Last(ns)))
  }

  function PrintRouter(r: Router, hyphen: bool): seq<Line>
    requires AllPrintable(r)
  {
    Block(InstanceCommands(r.asn, r.vrf, r.families, hyphen)) + PeerBlocks(r.asn, r.vrf, r.neighbors)
  }

  function Print(rs: seq<Router>, hyphen: bool): seq<Line>
    requires forall r <- rs :: AllPrintable(r)
  {
    if rs == [] then []
    else
      assert Last(rs) in rs;
      Print(Front(rs), hyphen) + PrintRouter(Last(rs), hyphen)
  }

  // ---------------------------------------------------------------- parsing one block

  /** The parser inside the only router it knows of. */
  function Inside(r: Router, inFamily: bool): State {
    State(EMPTY.(routers := [r]), Some(RouterKey(r)), inFamily, None)
  }

  function Finished(rs: seq<Router>): State {
    StartOn(EMPTY.(routers := rs))
  }

  /** Which of the printed first words start with which of the words the parser looks for. */
  lemma Keywords()
    ensures !("!" <= "router") && !("!" <= "neighbor") && !("!" <= "import") && !("!" <= "redistribute")
    ensures !("!" <= "address-family") && !("!" <= "exit") && !("!" <= "exit-address-family")
    ensures !("neighbor" <= "address-family") && !("neighbor" <= "exit") && !("neighbor" <= "exit-address-family")
    ensures !("redistribute" <= "import") && !("redistribute" <= "exit-address-family")
    ensures !("address-family" <= "exit") && !("address-family" <= "exit-address-family")
    ensures "exit" <= "exit-address-family" && !("exit-vrf" <= "exit-address-family") && !("exit-vrf" <= "exit")
    ensures !("hostname" <= "router") && !("agentx" <= "router") && !("service" <= "router") && !("vrf" <= "router")
    ensures !("hostname" <= "exit") && !("agentx" <= "exit") && !("service" <= "exit") && !("vrf" <= "exit")
    ensures !("hostname" <= "exit-address-family") && !("agentx" <= "exit-address-family")
    ensures !("service" <= "exit-address-family") && !("vrf" <= "exit-address-family")
  {
    var r, n, i, d := "router", "neighbor", "import", "redistribute";
    var a, e, x := "address-family", "exit", "exit-address-family";
    assert r[0] == 'r' && n[0] == 'n' && i[0] == 'i' && d[0] == 'r' && a[0] == 'a' && e[0] == 'e' && x[0] == 'e';
    var v := "exit-vrf";
    assert v[5] == 'v' && x[5] == 'a';
    var h, g, c, f := "hostname", "agentx", "service", "vrf";
    assert h[0] == 'h' && g[0] == 'a' && c[0] == 's' && f[0] == 'v';
  }

  lemma EditInside(r: Router, inFamily: bool, c: Change)
    ensures EditOpen(Inside(r, inFamily), c) == Inside(ApplyChange(r, c), inFamily)
  {
  }

  lemma RunOne(s: State, line: Line)
    ensures Run(s, [line]) == Step(s, line)
  {
    assert Front([line]) == [];
  }

  lemma RunThen(s: State, a: seq<Line>, mid: State, b: seq<Line>)
    requires Run(s, a) == Some(mid)
    ensures Run(s, a + b) == Run(mid, b)
  {
    RunConcat(s, a, b);
  }

  lemma RunRouterLine(asn: string, vrf: string)
    ensures Run(StartOn(EMPTY), [RouterLine(asn, vrf)]) == Some(Inside(Router(asn, vrf, [], []), false))
  {
    Keywords();
    RunOne(StartOn(EMPTY), RouterLine(asn, vrf));
    assert WithRouter([], (asn, vrf)) == [Router(asn, vrf, [], [])];
  }

  lemma RunExit(r: Router)
    ensures Run(Inside(r, false), [["exit"]]) == Some(Finished([r]))
  {
    Keywords();
    RunOne(Inside(r, false), ["exit"]);
  }

  function WithLast(r: Router, f: Family): Router
    requires r.families != []
  {
    r.(families := Front(r.families) + [f])
  }

  lemma StepImport(r: Router, f: Family, x: string)
    requires r.families != []
    ensures Step(Inside(WithLast(r, f), true), ["import", "vrf", x])
         == Some(Inside(WithLast(r, f.(imports := f.imports + [x])), true))
  {
    Keywords();
    EditInside(WithLast(r, f), true, ImportVrf(x));
    assert Front(WithLast(r, f).families) == Front(r.families);
  }

  lemma StepRedistribute(r: Router, f: Family, x: string)
    requires r.families != []
    ensures Step(Inside(WithLast(r, f), true), ["redistribute", x])
         == Some(Inside(WithLast(r, f.(redistribute := f.redistribute + [x])), true))
  {
    Keywords();
    EditInside(WithLast(r, f), true, Redistribute(x));
    assert Front(WithLast(r, f).families) == Front(r.families);
  }

  lemma {:induction false} RunImports(r: Router, f: Family, xs: seq<string>)
    requires r.families != []
    ensures Run(Inside(WithLast(r, f), true), ImportLines(xs))
         == Some(Inside(WithLast(r, f.(imports := f.imports + xs)), true))
  {
    if xs == [] {
      assert f.imports + xs == f.imports;
    } else {
      RunImports(r, f, Front(xs));
      StepImport(r, f.(imports := f.imports + Front(xs)), Last(xs));
      assert Front(ImportLines(xs)) == ImportLines(Front(xs));
      assert f.imports + Front(xs) + [Last(xs)] == f.imports + xs;
    }
  }

  lemma {:induction false} RunRedistributes(r: Router, f: Family, xs: seq<string>)
    requires r.families != []
    ensures Run(Inside(WithLast(r, f), true), RedistributeLines(xs))
         == Some(Inside(WithLast(r, f.(redistribute := f.redistribute + xs)), true))
  {
    if xs == [] {
      assert f.redistribute + xs == f.redistribute;
    } else {
      RunRedistributes(r, f, Front(xs));
      StepRedistribute(r, f.(redistribute := f.redistribute + Front(xs)), Last(xs));
      assert Front(RedistributeLines(xs)) == RedistributeLines(Front(xs));
      assert f.redistribute + Front(xs) + [Last(xs)] == f.redistribute + xs;
    }
  }

  lemma RunOpen(r: Router, f: Family)
    ensures Run(Inside(r, false), [OpenLine(f, true)])
         == Some(Inside(r.(families := r.families + [Family(f.protocol, f.kind, [], [])]), true))
  {
    Keywords();
    RunOne(Inside(r, false), OpenLine(f, true));
    EditInside(r, false, OpenFamily(Family(f.protocol, f.kind, [], [])));
  }

  /** The lines of a family up to the one that closes it. */
  lemma RunFamilyBody(r: Router, f: Family)
    ensures var grown := r.(families := r.families + [f]);
            Run(Inside(r, false), [OpenLine(f, true)] + ImportLines(f.imports) + RedistributeLines(f.redistribute))
            == Some(Inside(grown, true))
  {
    var bare := Family(f.protocol, f.kind, [], []);
    var grown := r.(families := r.families + [bare]);
    assert WithLast(grown, bare) == grown && WithLast(grown, f) == r.(families := r.families + [f]);
    assert [] + f.imports == f.imports && [] + f.redistribute == f.redistribute;
    var start, opening, imports := Inside(r, false), [OpenLine(f, true)], ImportLines(f.imports);
    RunOpen(r, f);
    RunImports(grown, bare, f.imports);
    RunThen(start, opening, Inside(grown, true), imports);
    RunRedistributes(grown, bare.(imports := f.imports), f.redistribute);
    var middle := Inside(WithLast(grown, bare.(imports := f.imports)), true);
    RunThen(start, opening + imports, middle, RedistributeLines(f.redistribute));
  }

  lemma RunFamily(r: Router, f: Family)
    ensures Run(Inside(r, false), FamilyLines(f, true)) == Some(Inside(r.(families := r.families + [f]), false))
  {
    var grown := r.(families := r.families + [f]);
    RunFamilyBody(r, f);
    RunCloseFamily(grown);
    var body := [OpenLine(f, true)] + ImportLines(f.imports) + RedistributeLines(f.redistribute);
    RunThen(Inside(r, false), body, Inside(grown, true), [["exit-address-family"]]);
  }

  lemma RunCloseFamily(r: Router)
    requires r.families != []
    ensures Run(Inside(r, true), [["exit-address-family"]]) == Some(Inside(r, false))
  {
    Keywords();
    RunOne(Inside(r, true), ["exit-address-family"]);
  }

  lemma {:induction false} RunFamilies(r: Router, fs: seq<Family>)
    ensures Run(Inside(r, false), FamiliesLines(fs, true)) == Some(Inside(r.(families := r.families + fs), false))
  {
    if fs == [] {
      assert r.families + fs == r.families;
    } else {
      RunFamilies(r, Front(fs));
      RunFamily(r.(families := r.families + Front(fs)), Last(fs));
      RunConcat(Inside(r, false), FamiliesLines(Front(fs), true), FamilyLines(Last(fs), true));
      assert r.families + Front(fs) + [Last(fs)] == r.families + fs;
    }
  }

  // As written, the opening line is not recognised, the lines of the family are passed over, and its
  // closing line, which starts with `exit`, closes the router.

  lemma {:induction false} RunIgnored(s: State, lines: seq<Line>)
    requires !s.inFamily
    requires forall line <- lines :: Starts(line, "import") || Starts(line, "redistribute") || Starts(line, "address")
    requires forall line <- lines :: !Starts(line, "address-family")
    ensures Run(s, lines) == Some(s)
  {
    if lines != [] {
      assert lines == Front(lines) + [Last(lines)];
      RunIgnored(s, Front(lines));
      FirstLetters(Last(lines));
    }
  }

  /** A line that starts with one of these words starts with none that the parser looks for. */
  lemma FirstLetters(line: Line)
    requires Starts(line, "import") || Starts(line, "redistribute") || Starts(line, "address")
    requires !Starts(line, "address-family")
    ensures !Skipped(line) && !Starts(line, "neighbor") && !Starts(line, "exit") && !Starts(line, "exit-vrf")
    ensures !StartsTwo(line, "frr", "version") && !StartsTwo(line, "frr", "defaults")
    ensures !Starts(line, "hostname") && !Starts(line, "agentx") && !Starts(line, "service") && !Starts(line, "vrf")
    ensures !StartsTwo(line, "router", "bgp") && !StartsTwo(line, "ip", "route")
  {
    var c := line[0][0];
    assert c == 'i' || c == 'r' || c == 'a';
    assert line[0][1] == 'm' || line[0][1] == 'e' || line[0][1] == 'd';
  }

  lemma RunUnknownFamily(s: State, f: Family)
    requires !s.inFamily && s.vrf.None?
    ensures Run(s, FamilyLines(f, false)) == Some(s.(router := None))
  {
    Keywords();
    var lines := [OpenLine(f, false)] + ImportLines(f.imports) + RedistributeLines(f.redistribute);
    forall line | line in lines
      ensures Starts(line, "import") || Starts(line, "redistribute") || Starts(line, "address")
      ensures !Starts(line, "address-family")
    {
      assert line[0] == "address" || line[0] == "import" || line[0] == "redistribute";
    }
    RunIgnored(s, lines);
    RunConcat(s, lines, [["exit-address-family"]]);
    RunOne(s, ["exit-address-family"]);
  }

  lemma {:induction false} RunUnknownFamilies(s: State, fs: seq<Family>)
    requires !s.inFamily && s.vrf.None?
    ensures Run(s, FamiliesLines(fs, false)) == Some(if fs == [] then s else s.(router := None))
  {
    if fs != [] {
      RunUnknownFamilies(s, Front(fs));
      RunUnknownFamily(if Front(fs) == [] then s else s.(router := None), Last(fs));
      RunConcat(s, FamiliesLines(Front(fs), false), FamilyLines(Last(fs), false));
    }
  }

  lemma ParseInstance(asn: string, vrf: string, fs: seq<Family>, hyphen: bool)
    ensures Run(StartOn(EMPTY), Block(InstanceCommands(asn, vrf, fs, hyphen)))
         == Some(Finished([Router(asn, vrf, [], if hyphen then fs else [])]))
  {
    var r, open := Router(asn, vrf, [], []), [RouterLine(asn, vrf)];
    RunRouterLine(asn, vrf);
    RunConcat(StartOn(EMPTY), open, FamiliesLines(fs, hyphen));
    RunConcat(StartOn(EMPTY), open + FamiliesLines(fs, hyphen), [["exit"]]);
    if hyphen {
      RunFamilies(r, fs);
      assert [] + fs == fs;
      RunExit(r.(families := fs));
    } else {
      RunUnknownFamilies(Inside(r, false), fs);
      RunExit(r);
      RunSecondExit(r);
    }
  }

  /** Outside routers an `exit` line is passed over. */
  lemma RunSecondExit(r: Router)
    ensures Run(Inside(r, false).(router := None), [["exit"]]) == Some(Finished([r]))
  {
    Keywords();
    RunOne(Inside(r, false).(router := None), ["exit"]);
  }

  /** Under its address the parser knows of one neighbor of the router: what the lines so far have set. */
  lemma StepNeighbor(r: Router, n: Neighbor, a: Attribute, line: Line)
    requires r.neighbors == [n] || (r.neighbors == [] && n == Neighbor(n.ip, None, None, None))
    requires |line| > 3 && line[0] == "neighbor" && line[1] == n.ip && AttributeOf(line) == Some(a)
    ensures Step(Inside(r, false), line) == Some(Inside(r.(neighbors := [SetAttribute(n, a)]), false))
  {
    Keywords();
    EditInside(r, false, SetNeighbor(n.ip, a));
    if r.neighbors == [n] {
      assert NeighborKey(r.neighbors[0]) == n.ip;
      assert Upsert(r.neighbors, n.ip, a) == [SetAttribute(n, a)];
    } else {
      assert Upsert(r.neighbors, n.ip, a) == [SetAttribute(n, a)];
    }
  }

  lemma ParseNeighbor(r: Router, n: Neighbor)
    requires r.neighbors == [] && Printable(n)
    ensures Run(Inside(r, false), NeighborLines(n)) == Some(Inside(r.(neighbors := [n]), false))
  {
    var bare := Neighbor(n.ip, None, None, None);
    var first := ["neighbor", n.ip, "remote-as", n.remoteAs.value];
    var n1 := bare.(remoteAs := n.remoteAs);
    var n2 := n1.(description := n.description);
    var s, lines := Inside(r, false), [first];
    RunOne(s, first);
    StepNeighbor(r, bare, RemoteAs(n.remoteAs.value), first);
    if n.description.Some? {
      var line := ["neighbor", n.ip, "description"] + n.description.value;
      RunConcat(s, lines, [line]);
      StepNeighbor(r.(neighbors := [n1]), n1, Description(n.description.value), line);
      RunOne(Inside(r.(neighbors := [n1]), false), line);
      lines := lines + [line];
    }
    assert Run(s, lines) == Some(Inside(r.(neighbors := [n2]), false));
    if n.ipSource.Some? {
      var line := ["neighbor", n.ip, "update-source", n.ipSource.value];
      RunConcat(s, lines, [line]);
      StepNeighbor(r.(neighbors := [n2]), n2, UpdateSource(n.ipSource.value), line);
      RunOne(Inside(r.(neighbors := [n2]), false), line);
      lines := lines + [line];
    }
    assert lines == NeighborLines(n);
  }

  lemma ParsePeer(asn: string, vrf: string, n: Neighbor)
    requires Printable(n)
    ensures Run(StartOn(EMPTY), Block(PeerCommands(asn, vrf, n))) == Some(Finished([Router(asn, vrf, [n], [])]))
  {
    var r, open := Router(asn, vrf, [], []), [RouterLine(asn, vrf)];
    RunRouterLine(asn, vrf);
    RunConcat(StartOn(EMPTY), open, NeighborLines(n));
    RunConcat(StartOn(EMPTY), open + NeighborLines(n), [["exit"]]);
    ParseNeighbor(r, n);
    RunExit(r.(neighbors := [n]));
  }

  // ---------------------------------------------------------------- round trip

  /** What the parser keeps of a router: with the two-word keyword no address family at all. */
  function Kept(r: Router, hyphen: bool): Router {
    if hyphen then r else r.(families := [])
  }

  function AllKept(rs: seq<Router>, hyphen: bool): (r: seq<Router>)
    ensures |r| == |rs| && forall i :: 0 <= i < |rs| ==> r[i] == Kept(rs[i], hyphen)
  {
    seq(|rs|, i requires 0 <= i < |rs| => Kept(rs[i], hyphen))
  }

  lemma MergeOne(rs: seq<Router>, r: Router)
    requires UniqueBy(RouterKey, rs + [r])
    ensures Merged(RouterKey, MergeRouter, rs, [r]) == rs + [r]
  {
    forall i | 0 <= i < |rs|
      ensures RouterKey(rs[i]) != RouterKey(r)
    {
      assert (rs + [r])[i] == rs[i] && (rs + [r])[|rs|] == r;
    }
    MergedNothing(RouterKey, MergeRouter, rs);
    MergedAppend(RouterKey, MergeRouter, rs, [], r);
    assert [] + [r] == [r];
  }

  lemma MergePeer(asn: string, vrf: string, fs: seq<Family>, ns: seq<Neighbor>, n: Neighbor)
    requires UniqueBy(NeighborKey, ns + [n])
    ensures Merged(RouterKey, MergeRouter, [Router(asn, vrf, ns, fs)], [Router(asn, vrf, [n], [])])
         == [Router(asn, vrf, ns + [n], fs)]
  {
    forall i | 0 <= i < |ns|
      ensures NeighborKey(ns[i]) != NeighborKey(n)
    {
      assert (ns + [n])[i] == ns[i] && (ns + [n])[|ns|] == n;
    }
    MergedNothing(NeighborKey, MergeNeighbor, ns);
    MergedAppend(NeighborKey, MergeNeighbor, ns, [], n);
    assert [] + [n] == [n];
    var a, b := Router(asn, vrf, ns, fs), Router(asn, vrf, [n], []);
    assert RouterKey(a) == RouterKey(b);
    assert MergeRouter(a, b) == Router(asn, vrf, ns + [n], fs);
    MergedNothing(RouterKey, MergeRouter, [a]);
    MergedAppend(RouterKey, MergeRouter, [a], [], b);
    assert [] + [b] == [b];
  }

  ghost predicate ParsesTo(lines: seq<Line>, rs: seq<Router>) {
    Run(StartOn(EMPTY), lines) == Some(Finished(rs))
  }

  lemma ParseAppended(a: seq<Line>, rs: seq<Router>, b: seq<Line>, more: seq<Router>)
    requires ParsesTo(a, rs) && ParsesTo(b, more)
    ensures ParsesTo(a + b, Merged(RouterKey, MergeRouter, rs, more))
  {
    RunConcat(StartOn(EMPTY), a, b);
    RunLifted(EMPTY.(routers := rs), b);
    assert EMPTY.routes + EMPTY.routes == EMPTY.routes;
  }

  lemma ParseOneMorePeer(asn: string, vrf: string, fs: seq<Family>, lines: seq<Line>, ns: seq<Neighbor>, n: Neighbor)
    requires ParsesTo(lines, [Router(asn, vrf, ns, fs)])
    requires UniqueBy(NeighborKey, ns + [n]) && Printable(n)
    ensures ParsesTo(lines + Block(PeerCommands(asn, vrf, n)), [Router(asn, vrf, ns + [n], fs)])
  {
    ParsePeer(asn, vrf, n);
    ParseAppended(lines, [Router(asn, vrf, ns, fs)], Block(PeerCommands(asn, vrf, n)), [Router(asn, vrf, [n], [])]);
    MergePeer(asn, vrf, fs, ns, n);
  }

  lemma {:induction false} ParsePeers(asn: string, vrf: string, fs: seq<Family>, start: seq<Line>, ns: seq<Neighbor>)
    requires ParsesTo(start, [Router(asn, vrf, [], fs)])
    requires UniqueBy(NeighborKey, ns) && forall n <- ns :: Printable(n)
    ensures ParsesTo(start + PeerBlocks(asn, vrf, ns), [Router(asn, vrf, ns, fs)])
  {
    if ns == [] {
      assert start + PeerBlocks(asn, vrf, ns) == start;
    } else {
      var before, n := Front(ns), Last(ns);
      assert ns == before + [n];
      assert ns[|ns| - 1] == n && Printable(n);
      ParsePeers(asn, vrf, fs, start, before);
      ParseOneMorePeer(asn, vrf, fs, start + PeerBlocks(asn, vrf, before), before, n);
      BlocksGrow(asn, vrf, start, before, n);
    }
  }

  lemma BlocksGrow(asn: string, vrf: string, start: seq<Line>, ns: seq<Neighbor>, n: Neighbor)
    requires forall m <- ns + [n] :: Printable(m)
    requires Printable(n)
    ensures start + PeerBlocks(asn, vrf, ns + [n])
         == start + PeerBlocks(asn, vrf, ns) + Block(PeerCommands(asn, vrf, n))
  {
    assert Front(ns + [n]) == ns;
  }

  lemma ParseRouter(r: Router, hyphen: bool)
    requires RouterOk(r) && AllPrintable(r)
    ensures ParsesTo(PrintRouter(r, hyphen), [Kept(r, hyphen)])
  {
    ParseInstance(r.asn, r.vrf, r.families, hyphen);
    var block := Block(InstanceCommands(r.asn, r.vrf, r.families, hyphen));
    ParsePeers(r.asn, r.vrf, Kept(r, hyphen).families, block, r.neighbors);
  }

  ghost predicate Wellformed(rs: seq<Router>) {
    UniqueBy(RouterKey, rs) && forall r <- rs :: RouterOk(r) && AllPrintable(r)
  }

  /**
   * Printing routers with distinct (AS, VRF), each with distinct neighbor addresses, and parsing the
   * result gives back what the keyword lets the parser keep: with the hyphen everything, in order.
   */
  lemma {:induction false} RoundTrip(rs: seq<Router>, hyphen: bool)
    requires Wellformed(rs)
    ensures ParsesTo(Print(rs, hyphen), AllKept(rs, hyphen))
  {
    if rs == [] {
      assert AllKept(rs, hyphen) == [];
    } else {
      var before, r := Front(rs), Last(rs);
      assert rs == before + [r];
      RoundTrip(before, hyphen);
      ParseRouter(r, hyphen);
      ParseAppended(Print(before, hyphen), AllKept(before, hyphen), PrintRouter(r, hyphen), [Kept(r, hyphen)]);
      assert AllKept(rs, hyphen) == AllKept(before, hyphen) + [Kept(r, hyphen)];
      MergeOne(AllKept(before, hyphen), Kept(r, hyphen));
    }
  }

  // ---------------------------------------------------------------- as written

  /** A redistributed protocol is an enumeration value, and that is what is printed of it, class name and all. */
  function EnumText(protocol: string): string {
    "BGPRedistribute." + protocol
  }

  function EnumTexts(protocols: seq<string>): (r: seq<string>)
    ensures |r| == |protocols| && forall i :: 0 <= i < |r| ==> r[i] == EnumText(protocols[i])
  {
    seq(|protocols|, i requires 0 <= i < |protocols| => EnumText(protocols[i]))
  }

  /** The family with the texts in place of the protocols that its lines should name. */
  function Enumerated(f: Family): Family {
    f.(redistribute := EnumTexts(f.redistribute))
  }

  function EnumeratedAll(fs: seq<Family>): (r: seq<Family>)
    ensures |r| == |fs| && forall i :: 0 <= i < |fs| ==> r[i] == Enumerated(fs[i])
  {
    seq(|fs|, i requires 0 <= i < |fs| => Enumerated(fs[i]))
  }

  function EnumeratedRouters(rs: seq<Router>): (r: seq<Router>)
    ensures |r| == |rs|
    ensures forall i :: 0 <= i < |rs| ==> r[i] == rs[i].(families := EnumeratedAll(rs[i].families))
  {
    seq(|rs|, i requires 0 <= i < |rs| => rs[i].(families := EnumeratedAll(rs[i].families)))
  }

  lemma EnumeratedWellformed(rs: seq<Router>)
    requires Wellformed(rs)
    ensures Wellformed(EnumeratedRouters(rs))
  {
    var texts := EnumeratedRouters(rs);
    forall r | r in texts
      ensures RouterOk(r) && AllPrintable(r)
    {
      var i :| 0 <= i < |texts| && texts[i] == r;
      assert rs[i] in rs;
    }
    assert forall i :: 0 <= i < |rs| ==> RouterKey(texts[i]) == RouterKey(rs[i]);
  }

  predicate Redistributes(r: Router) {
    exists f :: f in r.families && f.redistribute != []
  }

  lemma EnumeratedSame(r: Router)
    ensures EnumeratedAll(r.families) == r.families <==> !Redistributes(r)
  {
    var texts := EnumeratedAll(r.families);
    if f :| f in r.families && f.redistribute != [] {
      var i :| 0 <= i < |r.families| && r.families[i] == f;
      assert |EnumText(f.redistribute[0])| > |f.redistribute[0]|;
      assert texts[i].redistribute[0] != f.redistribute[0];
    } else {
      forall i | 0 <= i < |r.families|
        ensures texts[i] == r.families[i]
      {
        assert r.families[i] in r.families;
      }
    }
  }

  lemma EnumeratedAllSame(rs: seq<Router>)
    ensures EnumeratedRouters(rs) == rs <==> forall r :: r in rs ==> !Redistributes(r)
  {
    var texts := EnumeratedRouters(rs);
    forall i | 0 <= i < |rs|
      ensures texts[i] == rs[i] <==> !Redistributes(rs[i])
    {
      EnumeratedSame(rs[i]);
    }
    if texts == rs {
      forall r | r in rs
        ensures !Redistributes(r)
      {
        var i :| 0 <= i < |rs| && rs[i] == r;
        assert texts[i] == rs[i];
      }
    } else {
      var i :| 0 <= i < |rs| && texts[i] != rs[i];
      assert rs[i] in rs;
    }
  }

  lemma NoFamiliesKept(rs: seq<Router>, texts: seq<Router>)
    requires texts == EnumeratedRouters(rs)
    ensures AllKept(texts, false) == rs <==> forall r :: r in rs ==> r.families == []
  {
    var kept := AllKept(texts, false);
    if forall r :: r in rs ==> r.families == [] {
      assert forall i :: 0 <= i < |rs| ==> rs[i] in rs;
      assert kept == rs;
    } else {
      var i :| 0 <= i < |rs| && rs[i].families != [];
      assert kept[i] != rs[i];
    }
  }

  /**
   * Printed as the driver prints them, the routers come back exactly when none has an address family; with
   * the hyphen repaired, exactly when none redistributes; and with the text repaired as well, always.
   */
  lemma RoundTripAsWritten(rs: seq<Router>)
    requires Wellformed(rs)
    ensures Wellformed(EnumeratedRouters(rs))
    ensures Parse(Print(EnumeratedRouters(rs), false)) == Some(EMPTY.(routers := rs))
       <==> forall r :: r in rs ==> r.families == []
    ensures Parse(Print(EnumeratedRouters(rs), true)) == Some(EMPTY.(routers := rs))
       <==> forall r :: r in rs ==> !Redistributes(r)
    ensures Parse(Print(rs, true)) == Some(EMPTY.(routers := rs))
  {
    var texts := EnumeratedRouters(rs);
    EnumeratedWellformed(rs);
    RoundTrip(texts, false);
    RoundTrip(texts, true);
    RoundTrip(rs, true);
    assert AllKept(rs, true) == rs && AllKept(texts, true) == texts;
    EnumeratedAllSame(rs);
    NoFamiliesKept(rs, texts);
  }
}
