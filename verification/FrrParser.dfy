/**
 * The parser of FRR running configurations. A line is the list of its words; a parse either gives the
 * configuration or stops with an IndexError on a line with too few words.
 */
module FrrParser {
  import opened Common
  import opened KeyedList

  type Line = seq<string>

  datatype Neighbor = Neighbor(
    ip: string, remoteAs: Option<string>, description: Option<seq<string>>, ipSource: Option<string>)

  datatype Family = Family(protocol: string, kind: string, redistribute: seq<string>, imports: seq<string>)

  datatype Router = Router(asn: string, vrf: string, neighbors: seq<Neighbor>, families: seq<Family>)

  datatype Route = Route(prefix: string, nexthop: Option<string>, vrf: string)

  datatype Config = Config(
    version: Option<string>, defaults: Option<string>, hostname: Option<string>, agentx: bool,
    service: Option<string>, routers: seq<Router>, routes: seq<Route>)

  /** The parse so far and the three registers; the open address family is the last of the open router. */
  datatype State = State(config: Config, router: Option<(string, string)>, inFamily: bool, vrf: Option<string>)

  const EMPTY := Config(None, None, None, false, None, [], [])
  const DEFAULT := "default"

  function StartOn(c: Config): State {
    State(c, None, false, None)
  }

  // ---------------------------------------------------------------- changes to the open router

  datatype Attribute = RemoteAs(asn: string) | Description(words: seq<string>) | UpdateSource(ip: string) | Other

  datatype Change =
    | SetNeighbor(ip: string, attribute: Attribute)
    | OpenFamily(family: Family)
    | Redistribute(protocol: string)
    | ImportVrf(vrf: string)

  function NeighborKey(n: Neighbor): string { n.ip }

  function RouterKey(r: Router): (string, string) { (r.asn, r.vrf) }

  function SetAttribute(n: Neighbor, a: Attribute): Neighbor {
    match a
    case RemoteAs(asn) => n.(remoteAs := Some(asn))
    case Description(words) => n.(description := Some(words))
    case UpdateSource(ip) => n.(ipSource := Some(ip))
    case Other => n
  }

  /** The neighbor is looked up by its address and created if it is not there. */
  function Upsert(ns: seq<Neighbor>, ip: string, a: Attribute): seq<Neighbor> {
    if Has(NeighborKey, ns, ip) then EditBy(NeighborKey, SetAttribute, ns, ip, a)
    else ns + [SetAttribute(Neighbor(ip, None, None, None), a)]
  }

  function InLastFamily(families: seq<Family>, c: Change): seq<Family> {
    if families == [] then families
    else
      var f := Last(families);
      match c
      case Redistribute(protocol) => Front(families) + [f.(redistribute := f.redistribute + [protocol])]
      case ImportVrf(vrf) => Front(families) + [f.(imports := f.imports + [vrf])]
      case _ => families
  }

  function ApplyChange(r: Router, c: Change): Router {
    match c
    case SetNeighbor(ip, a) => r.(neighbors := Upsert(r.neighbors, ip, a))
    case OpenFamily(f) => r.(families := r.families + [f])
    case _ => r.(families := InLastFamily(r.families, c))
  }

  // ---------------------------------------------------------------- one line

  /** The line starts with this word, or with one of which it is a prefix. */
  predicate Starts(line: Line, prefix: string) {
    line != [] && prefix <= line[0]
  }

  predicate StartsTwo(line: Line, first: string, prefix: string) {
    |line| > 1 && line[0] == first && prefix <= line[1]
  }

  predicate Skipped(line: Line) {
    line == [] || Starts(line, "!")
  }

  function AttributeOf(line: Line): Option<Attribute> {
    if |line| < 3 then None
    else if line[2] == "remote-as" then (if |line| > 3 then Some(RemoteAs(line[3])) else None)
    else if line[2] == "description" then (if |line| > 3 then Some(Description(line[3..])) else None)
    else if line[2] == "update-source" then (if |line| > 3 then Some(UpdateSource(line[3])) else None)
    else Some(Other)
  }

  function EditOpen(s: State, c: Change): State
    requires s.router.Some?
  {
    s.(config := s.config.(routers := EditBy(RouterKey, ApplyChange, s.config.routers, s.router.value, c)))
  }

  function StepInRouter(s: State, line: Line): Option<State>
    requires s.router.Some?
  {
    if Starts(line, "neighbor") && !s.inFamily then
      if AttributeOf(line).None? then None else Some(EditOpen(s, SetNeighbor(line[1], AttributeOf(line).value)))
    else if s.inFamily then
      if Starts(line, "redistribute") then
        if |line| < 2 then None else Some(EditOpen(s, Redistribute(line[1])))
      else if StartsTwo(line, "import", "vrf") then
        if |line| < 3 then None else Some(EditOpen(s, ImportVrf(line[2])))
      else if line == ["exit-address-family"] then Some(s.(inFamily := false))
      else Some(s)
    else if Starts(line, "address-family") then
      if |line| < 3 then None
      else Some(EditOpen(s, OpenFamily(Family(line[1], line[2], [], []))).(inFamily := true))
    else if Starts(line, "exit") then Some(s.(router := None))
    else Some(s)
  }

  function WithRouter(routers: seq<Router>, key: (string, string)): seq<Router> {
    if Has(RouterKey, routers, key) then routers else routers + [Router(key.0, key.1, [], [])]
  }

  function StepOutside(s: State, line: Line): Option<State> {
    var c := s.config;
    if StartsTwo(line, "frr", "version") then
      if |line| < 3 then None else Some(s.(config := c.(version := Some(line[2]))))
    else if StartsTwo(line, "frr", "defaults") then
      if |line| < 3 then None else Some(s.(config := c.(defaults := Some(line[2]))))
    else if Starts(line, "hostname") then
      if |line| < 2 then None else Some(s.(config := c.(hostname := Some(line[1]))))
    else if Starts(line, "agentx") then Some(s.(config := c.(agentx := true)))
    else if Starts(line, "service") then
      if |line| < 2 then None else Some(s.(config := c.(service := Some(line[1]))))
    else if StartsTwo(line, "router", "bgp") then
      if |line| < 3 then None
      else
        var key := (line[2], if |line| > 4 then line[4] else DEFAULT);
        Some(s.(config := c.(routers := WithRouter(c.routers, key)), router := Some(key)))
    else if Starts(line, "vrf") then
      if |line| < 2 then None else Some(s.(vrf := Some(line[1])))
    else if StartsTwo(line, "ip", "route") then
      if |line| < 3 then None
      else
        var route := Route(line[2], if |line| > 3 then Some(line[3]) else None,
                           if s.vrf.None? then DEFAULT else s.vrf.value);
        Some(s.(config := c.(routes := c.routes + [route])))
    else if Starts(line, "exit-vrf") then Some(s.(vrf := None))
    else Some(s)
  }

  function Step(s: State, line: Line): Option<State> {
    if Skipped(line) then Some(s)
    else if s.router.Some? then StepInRouter(s, line)
    else StepOutside(s, line)
  }

  function Run(s: State, lines: seq<Line>): Option<State> {
    if lines == [] then Some(s)
    else
      var before := Run(s, Front(lines));
      if before.None? then None else Step(before.value, Last(lines))
  }

  function Parse(lines: seq<Line>): Option<Config> {
    var end := Run(StartOn(EMPTY), lines);
    if end.None? then None else Some(end.value.config)
  }

  lemma {:induction false} RunConcat(s: State, a: seq<Line>, b: seq<Line>)
    ensures Run(s, a + b) == if Run(s, a).None? then None else Run(Run(s, a).value, b)
  {
    if b == [] {
      assert a + b == a;
    } else {
      RunConcat(s, a, Front(b));
      assert Front(a + b) == a + Front(b);
    }
  }

  // ---------------------------------------------------------------- what every run keeps

  ghost predicate RouterOk(r: Router) {
    UniqueBy(NeighborKey, r.neighbors)
  }

  ghost predicate ConfigOk(c: Config) {
    UniqueBy(RouterKey, c.routers) && forall r :: r in c.routers ==> RouterOk(r)
  }

  /** The open router is there, and an open address family belongs to an open router that has one. */
  ghost predicate Invariant(s: State) {
    && ConfigOk(s.config)
    && (s.router.Some? ==> Has(RouterKey, s.config.routers, s.router.value))
    && (s.inFamily ==> s.router.Some?)
    && (s.inFamily ==> forall r :: r in s.config.routers && RouterKey(r) == s.router.value ==> r.families != [])
  }

  lemma UpsertKeepsUnique(ns: seq<Neighbor>, ip: string, a: Attribute)
    requires UniqueBy(NeighborKey, ns)
    ensures UniqueBy(NeighborKey, Upsert(ns, ip, a))
  {
    var after := Upsert(ns, ip, a);
    assert forall i :: 0 <= i < |ns| ==> NeighborKey(after[i]) == NeighborKey(ns[i]);
  }

  lemma EditKeeps(s: State, c: Change)
    requires Invariant(s) && s.router.Some?
    ensures Invariant(EditOpen(s, c))
    ensures c.OpenFamily? ==> Invariant(EditOpen(s, c).(inFamily := true))
  {
    var before, after := s.config.routers, EditOpen(s, c).config.routers;
    forall i | 0 <= i < |before|
      ensures RouterKey(after[i]) == RouterKey(before[i]) && RouterOk(after[i])
      ensures before[i].families != [] ==> after[i].families != []
      ensures c.OpenFamily? && RouterKey(before[i]) == s.router.value ==> after[i].families != []
    {
      assert before[i] in before;
      if c.SetNeighbor? {
        UpsertKeepsUnique(before[i].neighbors, c.ip, c.attribute);
      }
    }
    assert forall i :: 0 <= i < |before| ==> before[i] in before;
  }

  lemma WithRouterKeeps(routers: seq<Router>, key: (string, string))
    requires UniqueBy(RouterKey, routers) && forall r :: r in routers ==> RouterOk(r)
    ensures var after := WithRouter(routers, key);
            UniqueBy(RouterKey, after) && (forall r :: r in after ==> RouterOk(r)) && Has(RouterKey, after, key)
  {
    var after := WithRouter(routers, key);
    if !Has(RouterKey, routers, key) {
      assert RouterKey(after[|routers|]) == key;
    }
  }

  lemma EditAt(routers: seq<Router>, k: nat, c: Change)
    requires UniqueBy(RouterKey, routers) && k < |routers|
    ensures EditBy(RouterKey, ApplyChange, routers, RouterKey(routers[k]), c)
         == routers[k := ApplyChange(routers[k], c)]
  {
  }

  lemma UpsertAt(ns: seq<Neighbor>, k: nat, a: Attribute)
    requires UniqueBy(NeighborKey, ns) && k < |ns|
    ensures Upsert(ns, ns[k].ip, a) == ns[k := SetAttribute(ns[k], a)]
  {
  }

  lemma StepKeeps(s: State, line: Line)
    requires Invariant(s) && Step(s, line).Some?
    ensures Invariant(Step(s, line).value)
  {
    if !Skipped(line) {
      if s.router.Some? {
        if s.inFamily {
          if Starts(line, "redistribute") {
            EditKeeps(s, Redistribute(line[1]));
          } else if StartsTwo(line, "import", "vrf") {
            EditKeeps(s, ImportVrf(line[2]));
          }
        } else if Starts(line, "neighbor") {
          EditKeeps(s, SetNeighbor(line[1], AttributeOf(line).value));
        } else if Starts(line, "address-family") {
          EditKeeps(s, OpenFamily(Family(line[1], line[2], [], [])));
        }
      } else if StartsTwo(line, "router", "bgp") && |line| >= 3 {
        WithRouterKeeps(s.config.routers, (line[2], if |line| > 4 then line[4] else DEFAULT));
      }
    }
  }

  /**
   * Over every list of lines that the parser accepts: an open address family implies an open router,
   * routers are unique by (AS, VRF), and neighbors are unique by address inside a router.
   */
  lemma {:induction false} RunKeeps(s: State, lines: seq<Line>)
    requires Invariant(s) && Run(s, lines).Some?
    ensures Invariant(Run(s, lines).value)
  {
    if lines != [] {
      RunKeeps(s, Front(lines));
      StepKeeps(Run(s, Front(lines)).value, Last(lines));
    }
  }
}
