/**
 * What every line of a configuration does, word by word; exactly which lines end the parse with an
 * IndexError; and the round trip of whole configurations.
 */
module FrrLines {
  import opened Common
  import opened KeyedList
  import opened FrrParser
  import opened FrrMerge
  import opened FrrPrinter

  // ---------------------------------------------------------------- lines outside routers

  /** The keywords by their letters: no word starts with two of them, `exit` and `exit-vrf` apart. */
  lemma Letters(w: string)
    ensures "!" <= w ==> w[0] == '!'
    ensures "neighbor" <= w ==> w[0] == 'n'
    ensures "redistribute" <= w ==> w[0] == 'r'
    ensures "address-family" <= w ==> w[0] == 'a' && w[1] == 'd'
    ensures "exit" <= w ==> w[0] == 'e'
    ensures "exit-vrf" <= w ==> w[0] == 'e'
    ensures "version" <= w ==> w[0] == 'v'
    ensures "defaults" <= w ==> w[0] == 'd'
    ensures "hostname" <= w ==> w[0] == 'h'
    ensures "agentx" <= w ==> w[0] == 'a' && w[1] == 'g'
    ensures "service" <= w ==> w[0] == 's'
    ensures "vrf" <= w ==> w[0] == 'v'
  {
    var excl, n, r, a, e, ev := "!", "neighbor", "redistribute", "address-family", "exit", "exit-vrf";
    assert excl[0] == '!' && n[0] == 'n' && r[0] == 'r' && a[0] == 'a' && a[1] == 'd' && e[0] == 'e' && ev[0] == 'e';
    var v, d, h, g, c, f := "version", "defaults", "hostname", "agentx", "service", "vrf";
    assert v[0] == 'v' && d[0] == 'd' && h[0] == 'h' && g[0] == 'a' && g[1] == 'g' && c[0] == 's' && f[0] == 'v';
  }

  /** The keyword `word`, however it goes on, at the head of a line. */
  lemma Heads(word: string, x: string)
    ensures word <= word + x && (|word| > 0 ==> (word + x)[0] == word[0])
    ensures |word| > 1 ==> (word + x)[1] == word[1]
  {
  }

  /** Keywords only have to start a word, and words that are not needed are passed over. */
  lemma OutsideLine(s: State, x: string, w: string, more: Line)
    requires s.router.None?
    ensures Step(s, ["hostname" + x, w] + more) == Some(s.(config := s.config.(hostname := Some(w))))
    ensures Step(s, ["agentx" + x] + more) == Some(s.(config := s.config.(agentx := true)))
    ensures Step(s, ["service" + x, w] + more) == Some(s.(config := s.config.(service := Some(w))))
    ensures Step(s, ["vrf" + x, w] + more) == Some(s.(vrf := Some(w)))
    ensures Step(s, ["exit-vrf" + x] + more) == Some(s.(vrf := None))
  {
    Letters("hostname" + x);
    Heads("hostname", x);
    Letters("agentx" + x);
    Heads("agentx", x);
    Letters("service" + x);
    Heads("service", x);
    Letters("vrf" + x);
    Heads("vrf", x);
    Letters("exit-vrf" + x);
    Heads("exit-vrf", x);
  }

  lemma FrrLine(s: State, x: string, w: string, more: Line)
    requires s.router.None?
    ensures Step(s, ["frr", "version" + x, w] + more) == Some(s.(config := s.config.(version := Some(w))))
    ensures Step(s, ["frr", "defaults" + x, w] + more) == Some(s.(config := s.config.(defaults := Some(w))))
  {
    Letters("frr");
    Letters("version" + x);
    Heads("version", x);
    Letters("defaults" + x);
    Heads("defaults", x);
  }

  /** A route is of the VRF that is open, or of the default one. */
  lemma RouteLine(s: State, x: string, prefix: string, nexthop: string, more: Line)
    requires s.router.None?
    ensures var vrf := if s.vrf.None? then "default" else s.vrf.value;
            && Step(s, ["ip", "route" + x, prefix])
               == Some(s.(config := s.config.(routes := s.config.routes + [Route(prefix, None, vrf)])))
            && Step(s, ["ip", "route" + x, prefix, nexthop] + more)
               == Some(s.(config := s.config.(routes := s.config.routes + [Route(prefix, Some(nexthop), vrf)])))
  {
    Letters("ip");
    Heads("route", x);
  }

  /** A `router bgp` line opens the router of that AS and VRF, and adds it first if it is not there. */
  lemma RouterOpens(s: State, x: string, asn: string, more: Line)
    requires s.router.None?
    ensures var vrf, rs := if |more| > 1 then more[1] else "default", s.config.routers;
            var known := exists i :: 0 <= i < |rs| && rs[i].asn == asn && rs[i].vrf == vrf;
            var rs' := if known then rs else rs + [Router(asn, vrf, [], [])];
            Step(s, ["router", "bgp" + x, asn] + more)
            == Some(s.(config := s.config.(routers := rs'), router := Some((asn, vrf))))
  {
    Letters("router");
    Heads("bgp", x);
    var vrf, rs := if |more| > 1 then more[1] else DEFAULT, s.config.routers;
    assert Has(RouterKey, rs, (asn, vrf)) <==> exists i :: 0 <= i < |rs| && rs[i].asn == asn && rs[i].vrf == vrf;
  }

  // ---------------------------------------------------------------- lines inside a router

  /** The open router is the one at index `k`. */
  ghost predicate Open(s: State, k: nat) {
    && Invariant(s) && k < |s.config.routers|
    && s.router == Some((s.config.routers[k].asn, s.config.routers[k].vrf))
  }

  ghost function WithOpen(s: State, k: nat, r: Router): State
    requires k < |s.config.routers|
  {
    s.(config := s.config.(routers := s.config.routers[k := r]))
  }

  /** The position of the neighbor with this address, or of the one that is to be added. */
  ghost predicate Position(ns: seq<Neighbor>, ip: string, j: nat) {
    && j <= |ns| && (j < |ns| ==> ns[j].ip == ip)
    && (j == |ns| ==> forall i :: 0 <= i < |ns| ==> ns[i].ip != ip)
  }

  /** The neighbors with this one put at its position. */
  ghost function PutAt(ns: seq<Neighbor>, j: nat, n: Neighbor): seq<Neighbor>
    requires j <= |ns|
  {
    if j < |ns| then ns[j := n] else ns + [n]
  }

  ghost function WithNeighbor(s: State, k: nat, j: nat, n: Neighbor): State
    requires k < |s.config.routers| && j <= |s.config.routers[k].neighbors|
  {
    var r := s.config.routers[k];
    WithOpen(s, k, r.(neighbors := PutAt(r.neighbors, j, n)))
  }

  lemma NeighborSet(s: State, k: nat, line: Line, j: nat)
    requires Open(s, k) && !s.inFamily && |line| > 2 && "neighbor" <= line[0] && AttributeOf(line).Some?
    requires Position(s.config.routers[k].neighbors, line[1], j)
    ensures var r := s.config.routers[k];
            var n := if j < |r.neighbors| then r.neighbors[j] else Neighbor(line[1], None, None, None);
            Step(s, line) == Some(WithNeighbor(s, k, j, SetAttribute(n, AttributeOf(line).value)))
  {
    var r, a := s.config.routers[k], AttributeOf(line).value;
    assert r in s.config.routers;
    Letters(line[0]);
    EditAt(s.config.routers, k, SetNeighbor(line[1], a));
    if j < |r.neighbors| {
      UpsertAt(r.neighbors, j, a);
    }
  }

  /** A neighbor line sets one field of one neighbor of the open router, which it may add, and nothing else. */
  lemma NeighborLine(s: State, k: nat, x: string, ip: string, w: string, more: Line, j: nat)
    requires Open(s, k) && !s.inFamily && Position(s.config.routers[k].neighbors, ip, j)
    ensures var r := s.config.routers[k];
            var n := if j < |r.neighbors| then r.neighbors[j] else Neighbor(ip, None, None, None);
            && Step(s, ["neighbor" + x, ip, "remote-as", w] + more)
               == Some(WithNeighbor(s, k, j, n.(remoteAs := Some(w))))
            && Step(s, ["neighbor" + x, ip, "description", w] + more)
               == Some(WithNeighbor(s, k, j, n.(description := Some([w] + more))))
            && Step(s, ["neighbor" + x, ip, "update-source", w] + more)
               == Some(WithNeighbor(s, k, j, n.(ipSource := Some(w))))
            && (w != "remote-as" && w != "description" && w != "update-source"
                ==> Step(s, ["neighbor" + x, ip, w] + more) == Some(WithNeighbor(s, k, j, n)))
  {
    Heads("neighbor", x);
    var asn, words := ["neighbor" + x, ip, "remote-as", w] + more, ["neighbor" + x, ip, "description", w] + more;
    var source, other := ["neighbor" + x, ip, "update-source", w] + more, ["neighbor" + x, ip, w] + more;
    assert words[3..] == [w] + more;
    assert AttributeOf(asn) == Some(RemoteAs(w)) && AttributeOf(words) == Some(Description([w] + more));
    assert AttributeOf(source) == Some(UpdateSource(w));
    NeighborSet(s, k, asn, j);
    NeighborSet(s, k, words, j);
    NeighborSet(s, k, source, j);
    if w != "remote-as" && w != "description" && w != "update-source" {
      assert AttributeOf(other) == Some(Other);
      NeighborSet(s, k, other, j);
    }
  }

  /** Outside a family: a line that opens one, a line that closes the router, and all others. */
  lemma RouterLines(s: State, k: nat, x: string, protocol: string, kind: string, more: Line)
    requires Open(s, k) && !s.inFamily
    ensures var r := s.config.routers[k];
            var open := WithOpen(s, k, r.(families := r.families + [Family(protocol, kind, [], [])]));
            Step(s, ["address-family" + x, protocol, kind] + more) == Some(open.(inFamily := true))
    ensures Step(s, ["exit" + x] + more) == Some(s.(router := None))
  {
    Heads("address-family", x);
    Letters("address-family" + x);
    Heads("exit", x);
    Letters("exit" + x);
    EditAt(s.config.routers, k, OpenFamily(Family(protocol, kind, [], [])));
  }

  /** Inside a family: the lines that add to the family, the line that closes it and nothing else. */
  lemma FamilyLine(s: State, k: nat, x: string, w: string, more: Line)
    requires Open(s, k) && s.inFamily
    ensures s.config.routers[k].families != []
    ensures var r, f := s.config.routers[k], Last(s.config.routers[k].families);
            var put := (f': Family) => Some(WithOpen(s, k, r.(families := Front(r.families) + [f'])));
            && Step(s, ["redistribute" + x, w] + more) == put(f.(redistribute := f.redistribute + [w]))
            && Step(s, ["import", "vrf" + x, w] + more) == put(f.(imports := f.imports + [w]))
            && Step(s, ["exit-address-family"]) == Some(s.(inFamily := false))
  {
    var r := s.config.routers[k];
    assert r in s.config.routers && RouterKey(r) == s.router.value;
    Heads("redistribute", x);
    Letters("redistribute" + x);
    Letters("import");
    Heads("vrf", x);
    Letters("exit-address-family");
    EditAt(s.config.routers, k, Redistribute(w));
    EditAt(s.config.routers, k, ImportVrf(w));
  }

  // ---------------------------------------------------------------- lines passed over, and lines that end the parse

  ghost predicate Begins(line: Line, word: string) {
    line != [] && word <= line[0]
  }

  /** The line starts with this word and another that starts with the second keyword. */
  ghost predicate BeginsTwo(line: Line, word: string, next: string) {
    |line| > 1 && line[0] == word && next <= line[1]
  }

  /** A line that the parser knows in its state: outside routers, in a router, or in a family of one. */
  ghost predicate KnownLine(s: State, line: Line) {
    if s.router.None? then
      || BeginsTwo(line, "frr", "version") || BeginsTwo(line, "frr", "defaults") || Begins(line, "hostname")
      || Begins(line, "agentx") || Begins(line, "service") || BeginsTwo(line, "router", "bgp")
      || Begins(line, "vrf") || BeginsTwo(line, "ip", "route") || Begins(line, "exit-vrf")
    else if s.inFamily then
      Begins(line, "redistribute") || BeginsTwo(line, "import", "vrf") || line == ["exit-address-family"]
    else
      Begins(line, "neighbor") || Begins(line, "address-family") || Begins(line, "exit")
  }

  /** Every other line is passed over, empty ones and comments among them. */
  lemma OtherLine(s: State, line: Line)
    requires !KnownLine(s, line)
    ensures Step(s, line) == Some(s)
  {
  }

  /** The line has fewer words than are read of it. */
  ghost predicate TooShort(s: State, line: Line) {
    if s.router.None? then
      || (Begins(line, "hostname") && |line| == 1) || (Begins(line, "service") && |line| == 1)
      || (Begins(line, "vrf") && |line| == 1)
      || (BeginsTwo(line, "frr", "version") && |line| == 2) || (BeginsTwo(line, "frr", "defaults") && |line| == 2)
      || (BeginsTwo(line, "router", "bgp") && |line| == 2) || (BeginsTwo(line, "ip", "route") && |line| == 2)
    else if s.inFamily then
      (Begins(line, "redistribute") && |line| == 1) || (BeginsTwo(line, "import", "vrf") && |line| == 2)
    else
      || (Begins(line, "address-family") && |line| < 3)
      || (Begins(line, "neighbor") && |line| < 3)
      || (Begins(line, "neighbor") && |line| == 3
          && (line[2] == "remote-as" || line[2] == "description" || line[2] == "update-source"))
  }

  /** A line ends the parse with an IndexError exactly when it is too short. */
  lemma LineFails(s: State, line: Line)
    ensures Step(s, line).None? <==> TooShort(s, line)
  {
    if line != [] {
      Letters(line[0]);
      if |line| > 1 {
        Letters(line[1]);
      }
      assert line[0] == "frr" ==> line[0][0] == 'f';
      assert line[0] == "router" ==> line[0][0] == 'r';
      assert line[0] == "ip" ==> line[0][0] == 'i';
      assert line[0] == "import" ==> line[0][0] == 'i';
    }
  }

  /** Some line is too short in the state that the lines before it lead to. */
  ghost predicate FailsAt(s: State, lines: seq<Line>, n: nat) {
    n < |lines| && Run(s, lines[..n]).Some? && TooShort(Run(s, lines[..n]).value, lines[n])
  }

  /** A parse ends with an IndexError exactly at a line that is too short. */
  lemma {:induction false} ParseFails(s: State, lines: seq<Line>)
    ensures Run(s, lines).None? <==> exists n: nat :: FailsAt(s, lines, n)
  {
    if lines != [] {
      var before := Front(lines);
      ParseFails(s, before);
      forall n: nat | n < |before|
        ensures FailsAt(s, lines, n) <==> FailsAt(s, before, n)
      {
        assert lines[..n] == before[..n];
      }
      assert lines[..|before|] == before;
      if Run(s, before).Some? {
        LineFails(Run(s, before).value, Last(lines));
        assert FailsAt(s, lines, |before|) <==> TooShort(Run(s, before).value, Last(lines));
      } else {
        var n: nat :| FailsAt(s, before, n);
        assert FailsAt(s, lines, n);
      }
    }
  }

  // ---------------------------------------------------------------- whole configurations

  function Optional(head: Line, w: Option<string>): seq<Line> {
    if w.Some? then [head + [w.value]] else []
  }

  function HeadLines(c: Config): seq<Line> {
    Optional(["frr", "version"], c.version) + Optional(["frr", "defaults"], c.defaults)
    + Optional(["hostname"], c.hostname) + (if c.agentx then [["agentx"]] else []) + Optional(["service"], c.service)
  }

  function RouteWords(r: Route): Line {
    ["ip", "route", r.prefix] + if r.nexthop.Some? then [r.nexthop.value] else []
  }

  /** A route inside the section of its VRF, or outside every section for the default one. */
  function RouteLines(r: Route): seq<Line> {
    if r.vrf == "default" then [RouteWords(r)] else [["vrf", r.vrf], RouteWords(r), ["exit-vrf"]]
  }

  function RoutesLines(rs: seq<Route>): seq<Line> {
    if rs == [] then [] else RoutesLines(Front(rs)) + RouteLines(Last(rs))
  }

  function PrintConfig(c: Config, hyphen: bool): seq<Line>
    requires forall r <- c.routers :: AllPrintable(r)
  {
    HeadLines(c) + Print(c.routers, hyphen) + RoutesLines(c.routes)
  }

  /** After a configuration that leaves nothing open, these lines add what they should and leave nothing open. */
  ghost predicate Turns(c: Config, lines: seq<Line>, c': Config) {
    Run(StartOn(c), lines) == Some(StartOn(c'))
  }

  lemma TurnsThen(c: Config, a: seq<Line>, c': Config, b: seq<Line>, c'': Config)
    requires Turns(c, a, c') && Turns(c', b, c'')
    ensures Turns(c, a + b, c'')
  {
    RunConcat(StartOn(c), a, b);
  }

  /** The lines as they are printed. */
  lemma PlainLines(s: State, w: string)
    requires s.router.None?
    ensures Step(s, ["frr", "version", w]) == Some(s.(config := s.config.(version := Some(w))))
    ensures Step(s, ["frr", "defaults", w]) == Some(s.(config := s.config.(defaults := Some(w))))
    ensures Step(s, ["hostname", w]) == Some(s.(config := s.config.(hostname := Some(w))))
    ensures Step(s, ["agentx"]) == Some(s.(config := s.config.(agentx := true)))
    ensures Step(s, ["service", w]) == Some(s.(config := s.config.(service := Some(w))))
    ensures Step(s, ["vrf", w]) == Some(s.(vrf := Some(w)))
    ensures Step(s, ["exit-vrf"]) == Some(s.(vrf := None))
  {
    FrrLine(s, "", w, []);
    OutsideLine(s, "", w, []);
    assert "version" + "" == "version" && "defaults" + "" == "defaults" && "hostname" + "" == "hostname";
    assert "agentx" + "" == "agentx" && "service" + "" == "service" && "vrf" + "" == "vrf";
    assert "exit-vrf" + "" == "exit-vrf";
    assert ["frr", "version", w] + [] == ["frr", "version", w] && ["frr", "defaults", w] + [] == ["frr", "defaults", w];
    assert ["hostname", w] + [] == ["hostname", w] && ["agentx"] + [] == ["agentx"];
    assert ["service", w] + [] == ["service", w] && ["vrf", w] + [] == ["vrf", w] && ["exit-vrf"] + [] == ["exit-vrf"];
  }

  lemma RunOptional(c: Config, head: Line, w: Option<string>, c': Config)
    requires if w.Some? then Step(StartOn(c), head + [w.value]) == Some(StartOn(c')) else c' == c
    ensures Turns(c, Optional(head, w), c')
  {
    if w.Some? {
      RunOne(StartOn(c), head + [w.value]);
    }
  }

  /** Each of the head lines sets its field, if there is anything to print of it. */
  lemma RunFields(c: Config, d: Config)
    ensures c.version.None? ==> Turns(c, Optional(["frr", "version"], d.version), c.(version := d.version))
    ensures c.defaults.None? ==> Turns(c, Optional(["frr", "defaults"], d.defaults), c.(defaults := d.defaults))
    ensures c.hostname.None? ==> Turns(c, Optional(["hostname"], d.hostname), c.(hostname := d.hostname))
    ensures c.service.None? ==> Turns(c, Optional(["service"], d.service), c.(service := d.service))
  {
    forall field: Option<string> | field.Some?
      ensures Step(StartOn(c), ["frr", "version"] + [field.value]) == Some(StartOn(c.(version := field)))
      ensures Step(StartOn(c), ["frr", "defaults"] + [field.value]) == Some(StartOn(c.(defaults := field)))
      ensures Step(StartOn(c), ["hostname"] + [field.value]) == Some(StartOn(c.(hostname := field)))
      ensures Step(StartOn(c), ["service"] + [field.value]) == Some(StartOn(c.(service := field)))
    {
      PlainLines(StartOn(c), field.value);
    }
    if c.version.None? {
      RunOptional(c, ["frr", "version"], d.version, c.(version := d.version));
    }
    if c.defaults.None? {
      RunOptional(c, ["frr", "defaults"], d.defaults, c.(defaults := d.defaults));
    }
    if c.hostname.None? {
      RunOptional(c, ["hostname"], d.hostname, c.(hostname := d.hostname));
    }
    if c.service.None? {
      RunOptional(c, ["service"], d.service, c.(service := d.service));
    }
  }

  lemma RunAgentx(c: Config, agentx: bool)
    requires !c.agentx
    ensures Turns(c, if agentx then [["agentx"]] else [], c.(agentx := agentx))
  {
    PlainLines(StartOn(c), "");
    RunOne(StartOn(c), ["agentx"]);
  }

  lemma RunHead(d: Config)
    ensures Turns(EMPTY, HeadLines(d), d.(routers := [], routes := []))
  {
    var c1 := EMPTY.(version := d.version);
    var c2 := c1.(defaults := d.defaults);
    var c3 := c2.(hostname := d.hostname);
    var c4 := c3.(agentx := d.agentx);
    var l1, l2 := Optional(["frr", "version"], d.version), Optional(["frr", "defaults"], d.defaults);
    var l3, l4 := Optional(["hostname"], d.hostname), if d.agentx then [["agentx"]] else [];
    RunFields(EMPTY, d);
    RunFields(c1, d);
    RunFields(c2, d);
    RunAgentx(c3, d.agentx);
    RunFields(c4, d);
    TurnsThen(EMPTY, l1, c1, l2, c2);
    TurnsThen(EMPTY, l1 + l2, c2, l3, c3);
    TurnsThen(EMPTY, l1 + l2 + l3, c3, l4, c4);
    TurnsThen(EMPTY, l1 + l2 + l3 + l4, c4, Optional(["service"], d.service), c4.(service := d.service));
  }

  lemma RunRouteWords(s: State, r: Route)
    requires s.router.None? && r.vrf == if s.vrf.None? then "default" else s.vrf.value
    ensures Run(s, [RouteWords(r)]) == Some(s.(config := s.config.(routes := s.config.routes + [r])))
  {
    RouteLine(s, "", r.prefix, if r.nexthop.Some? then r.nexthop.value else "", []);
    assert "route" + "" == "route" && RouteWords(r) + [] == RouteWords(r);
    RunOne(s, RouteWords(r));
  }

  lemma RunRoute(c: Config, r: Route)
    ensures Turns(c, RouteLines(r), c.(routes := c.routes + [r]))
  {
    var s, vrf, line := StartOn(c), [["vrf", r.vrf]], [RouteWords(r)];
    var s' := if r.vrf == "default" then s else s.(vrf := Some(r.vrf));
    RunRouteWords(s', r);
    if r.vrf != "default" {
      var after := s'.(config := c.(routes := c.routes + [r]));
      PlainLines(s, r.vrf);
      PlainLines(after, r.vrf);
      RunOne(s, ["vrf", r.vrf]);
      RunOne(after, ["exit-vrf"]);
      RunThen(s, vrf, s', line);
      RunThen(s, vrf + line, after, [["exit-vrf"]]);
      assert RouteLines(r) == vrf + line + [["exit-vrf"]];
    }
  }

  lemma {:induction false} RunRoutes(c: Config, rs: seq<Route>)
    ensures Turns(c, RoutesLines(rs), c.(routes := c.routes + rs))
  {
    if rs == [] {
      assert c.routes + rs == c.routes;
    } else {
      var before := c.(routes := c.routes + Front(rs));
      RunRoutes(c, Front(rs));
      RunRoute(before, Last(rs));
      assert c.routes + Front(rs) + [Last(rs)] == c.routes + rs;
      TurnsThen(c, RoutesLines(Front(rs)), before, RouteLines(Last(rs)), c.(routes := c.routes + rs));
    }
  }

  lemma {:induction false} MergedInto(rs: seq<Router>)
    ensures Merged(RouterKey, MergeRouter, [], rs) == rs
  {
    if rs != [] {
      MergedInto(Front(rs));
      assert rs == Front(rs) + [Last(rs)];
    }
  }

  lemma RunRouters(c: Config, rs: seq<Router>, hyphen: bool)
    requires c.routers == [] && c.routes == [] && Wellformed(rs)
    ensures Turns(c, Print(rs, hyphen), c.(routers := AllKept(rs, hyphen)))
  {
    RoundTrip(rs, hyphen);
    RunLifted(c, Print(rs, hyphen));
    MergedInto(AllKept(rs, hyphen));
    assert c.routes + EMPTY.routes == c.routes;
  }

  /**
   * A whole configuration, with distinct routers and neighbors, printed and parsed again: the parse gives
   * every field, every route in its VRF, and of the routers what the keyword lets it keep.
   */
  lemma ConfigRoundTrip(c: Config, hyphen: bool)
    requires Wellformed(c.routers)
    ensures Run(StartOn(EMPTY), PrintConfig(c, hyphen)) == Some(StartOn(c.(routers := AllKept(c.routers, hyphen))))
    ensures Parse(PrintConfig(c, hyphen)) == Some(c.(routers := AllKept(c.routers, hyphen)))
    ensures Parse(PrintConfig(c, true)) == Some(c)
  {
    var c1 := c.(routers := [], routes := []);
    RunHead(c);
    forall h
      ensures Turns(EMPTY, PrintConfig(c, h), c.(routers := AllKept(c.routers, h)))
    {
      var c2 := c1.(routers := AllKept(c.routers, h));
      RunRouters(c1, c.routers, h);
      TurnsThen(EMPTY, HeadLines(c), c1, Print(c.routers, h), c2);
      RunRoutes(c2, c.routes);
      assert [] + c.routes == c.routes;
      TurnsThen(EMPTY, HeadLines(c) + Print(c.routers, h), c2, RoutesLines(c.routes), c2.(routes := c.routes));
    }
    assert AllKept(c.routers, true) == c.routers;
  }
}
