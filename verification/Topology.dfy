/** The topology graph, built from what each switch sees on its ports. */
module Topology {
  import opened Common
  import opened KeyedList

  /** A port of a switch with its LLDP neighbor and the VLANs it carries: half of the view of a link. */
  datatype Half = Half(node: string, port: string, neighbor: string, remotePort: string, vlans: set<int>)

  datatype Edge = Edge(ports: map<string, string>, vlans: set<int>, missing: map<string, set<int>>)

  /** The port map of the link, the same from both of its ends. */
  function LinkOf(h: Half): map<string, string> {
    map[h.node := h.port, h.neighbor := h.remotePort]
  }

  function EdgeKey(e: Edge): map<string, string> { e.ports }

  // ---------------------------------------------------------------- the comparison as written

  datatype Value = Text(s: string) | Dictionary(d: map<string, string>)

  /**
   * `compare_graph_edges` on an edge of the graph and a port map. It looks for a key `ports` in the
   * port map itself, and would compare a dictionary with the text found there.
   */
  predicate SameEdgeAsWritten(e: Edge, h: Half) {
    var other := LinkOf(h);
    && "ports" in other
    && e.ports.Keys == {h.node, h.neighbor}
    && Dictionary(e.ports) == Text(other["ports"])
  }

  /** The link from the first end that is seen. */
  function NewEdge(h: Half): Edge {
    Edge(LinkOf(h), h.vlans, map[h.node := {}, h.neighbor := {}])
  }

  /** The link seen again, from an end where it carries these VLANs. */
  function SeeAgain(e: Edge, h: Half): Edge {
    var onlyHere, onlyThere := h.vlans - e.vlans, e.vlans - h.vlans;
    var m1 := if onlyHere != {} then e.missing[h.neighbor := onlyHere] else e.missing;
    var m2 := if onlyThere != {} then m1[h.node := onlyThere] else m1;
    Edge(e.ports, e.vlans + h.vlans, m2)
  }

  function StepAsWritten(edges: seq<Edge>, h: Half): seq<Edge> {
    if exists i :: 0 <= i < |edges| && SameEdgeAsWritten(edges[i], h)
    then EditBy(EdgeKey, SeeAgain, edges, LinkOf(h), h)
    else edges + [NewEdge(h)]
  }

  function NewEdges(hs: seq<Half>): (r: seq<Edge>)
    ensures |r| == |hs| && forall i :: 0 <= i < |hs| ==> r[i] == NewEdge(hs[i])
  {
    seq(|hs|, i requires 0 <= i < |hs| => NewEdge(hs[i]))
  }

  /**
   * As written no edge is ever recognised: every build adds an edge for every half to what is there,
   * two for a link seen from both ends, and as many again when the graph is built again.
   */
  lemma {:induction false} AsWrittenRepeats(edges: seq<Edge>, hs: seq<Half>)
    ensures Fold(StepAsWritten, edges, hs) == edges + NewEdges(hs)
  {
    if hs == [] {
      assert edges + NewEdges(hs) == edges;
    } else {
      AsWrittenRepeats(edges, Front(hs));
      assert NewEdges(hs) == NewEdges(Front(hs)) + [NewEdge(Last(hs))];
    }
  }

  /** As written the edges name different links exactly when no two halves are of one link. */
  lemma AsWrittenUnique(hs: seq<Half>)
    ensures UniqueBy(EdgeKey, Fold(StepAsWritten, [], hs)) <==> DifferentLinks(hs)
  {
    AsWrittenRepeats([], hs);
    assert [] + NewEdges(hs) == NewEdges(hs);
    NewEdgesUnique(hs, NewEdges(hs));
  }

  predicate DifferentLinks(hs: seq<Half>) {
    forall i, j :: 0 <= i < j < |hs| ==> LinkOf(hs[i]) != LinkOf(hs[j])
  }

  lemma NewEdgesUnique(hs: seq<Half>, edges: seq<Edge>)
    requires |edges| == |hs| && forall i :: 0 <= i < |hs| ==> EdgeKey(edges[i]) == LinkOf(hs[i])
    ensures UniqueBy(EdgeKey, edges) <==> DifferentLinks(hs)
  {
    if UniqueBy(EdgeKey, edges) {
      forall i, j | 0 <= i < j < |hs|
        ensures LinkOf(hs[i]) != LinkOf(hs[j])
      {
        assert EdgeKey(edges[i]) != EdgeKey(edges[j]);
      }
    }
  }

  /** As written, building again changes nothing only if there is nothing to see. */
  lemma AsWrittenIdempotent(hs: seq<Half>)
    ensures Fold(StepAsWritten, Fold(StepAsWritten, [], hs), hs) == Fold(StepAsWritten, [], hs) <==> hs == []
  {
    AsWrittenRepeats([], hs);
    AsWrittenRepeats(Fold(StepAsWritten, [], hs), hs);
  }

  /** One link, seen from both ends: two edges, and four after another build. */
  lemma AsWrittenWitness()
    ensures var hs := [Half("a", "1", "b", "2", {10}), Half("b", "2", "a", "1", {10})];
            var edges := Fold(StepAsWritten, [], hs);
            && Consistent(hs) && !UniqueBy(EdgeKey, edges)
            && |edges| == 2 && |Fold(StepAsWritten, edges, hs)| == 4
  {
    var here, there := Half("a", "1", "b", "2", {10}), Half("b", "2", "a", "1", {10});
    var hs := [here, there];
    AsWrittenUnique(hs);
    AsWrittenRepeats([], hs);
    AsWrittenRepeats(Fold(StepAsWritten, [], hs), hs);
    assert LinkOf(here) == LinkOf(there);
    assert LinkOf(hs[0]) == LinkOf(hs[1]);
  }

  // ---------------------------------------------------------------- links recognised by their port map

  function Step(edges: seq<Edge>, h: Half): seq<Edge> {
    if Has(EdgeKey, edges, LinkOf(h)) then EditBy(EdgeKey, SeeAgain, edges, LinkOf(h), h)
    else edges + [NewEdge(h)]
  }

  function Build(edges: seq<Edge>, hs: seq<Half>): seq<Edge> {
    Fold(Step, edges, hs)
  }

  /** One neighbor for every port of a switch, and no switch its own neighbor. */
  ghost predicate Consistent(hs: seq<Half>) {
    && (forall h <- hs :: h.node != h.neighbor)
    && (forall i, j :: 0 <= i < j < |hs| ==> hs[i].node != hs[j].node || hs[i].port != hs[j].port)
  }

  /** The VLANs of a link: those of all its ends that are seen. */
  ghost predicate Carries(hs: seq<Half>, link: map<string, string>, v: int) {
    exists h :: h in hs && LinkOf(h) == link && v in h.vlans
  }

  /**
   * What an edge must say of its link: its VLANs are the union over the ends, and an end that is seen
   * misses exactly those of the union that it does not carry itself.
   */
  ghost predicate Describes(hs: seq<Half>, e: Edge) {
    && (exists h :: h in hs && LinkOf(h) == e.ports)
    && e.missing.Keys == e.ports.Keys
    && (forall v :: v in e.vlans <==> Carries(hs, e.ports, v))
    && (forall h :: h in hs && LinkOf(h) == e.ports ==> e.missing[h.node] == e.vlans - h.vlans)
    && (forall node :: node in e.ports && (forall h :: h in hs && LinkOf(h) == e.ports ==> h.node != node)
          ==> e.missing[node] == {})
  }

  ghost predicate GraphOf(hs: seq<Half>, edges: seq<Edge>) {
    && UniqueBy(EdgeKey, edges)
    && (forall e <- edges :: Describes(hs, e))
    && (forall h {:trigger Has(EdgeKey, edges, LinkOf(h))} :: h in hs ==> Has(EdgeKey, edges, LinkOf(h)))
  }

  lemma ConsistentPrefix(hs: seq<Half>, h: Half)
    requires Consistent(hs + [h])
    ensures Consistent(hs) && h.node != h.neighbor
    ensures forall g <- hs :: g.node == h.node ==> g.port != h.port
  {
    var all := hs + [h];
    assert all[|hs|] == h && h in all;
    forall i | 0 <= i < |hs|
      ensures all[i] == hs[i] && hs[i] in all
    {
      assert all[i] in all;
    }
  }

  /** Two halves of one link are at its two ends. */
  lemma OtherEnd(g: Half, h: Half)
    requires LinkOf(g) == LinkOf(h) && h.node != h.neighbor && g.node != g.neighbor
    requires g.node == h.node ==> g.port != h.port
    ensures g.node == h.neighbor && g.neighbor == h.node
  {
    assert g.node in LinkOf(h) && g.neighbor in LinkOf(h) && h.node in LinkOf(g);
    assert LinkOf(g)[g.node] == g.port && LinkOf(h)[h.node] == h.port;
  }

  lemma SeenAgainDescribes(hs: seq<Half>, e: Edge, h: Half)
    requires Consistent(hs + [h]) && Describes(hs, e) && LinkOf(h) == e.ports
    ensures Describes(hs + [h], SeeAgain(e, h))
  {
    ConsistentPrefix(hs, h);
    var g :| g in hs && LinkOf(g) == e.ports;
    forall g' | g' in hs && LinkOf(g') == e.ports
      ensures g'.node == h.neighbor && g'.vlans == e.vlans
    {
      OtherEnd(g', h);
      OtherEndOnly(hs, e, h, g');
    }
    var e' := SeeAgain(e, h);
    assert h in hs + [h];
    assert h.node in e.ports && h.neighbor in e.ports && e.ports.Keys == {h.node, h.neighbor};
    assert e.missing[g.node] == {};
    assert e.missing[h.node] == {};
    assert forall f :: f in hs + [h] <==> f in hs || f == h;
    forall v
      ensures v in e'.vlans <==> Carries(hs + [h], e.ports, v)
    {
      assert Carries(hs + [h], e.ports, v) <==> Carries(hs, e.ports, v) || v in h.vlans;
    }
    assert e'.missing[h.node] == e'.vlans - h.vlans;
    assert e'.missing[h.neighbor] == e'.vlans - e.vlans;
  }

  lemma OtherEndOnly(hs: seq<Half>, e: Edge, h: Half, g: Half)
    requires Consistent(hs + [h]) && Describes(hs, e) && LinkOf(h) == e.ports && g in hs && LinkOf(g) == e.ports
    ensures g.vlans == e.vlans
  {
    ConsistentPrefix(hs, h);
    forall v | v in e.vlans
      ensures v in g.vlans
    {
      var f :| f in hs && LinkOf(f) == e.ports && v in f.vlans;
      OtherEnd(f, h);
      OtherEnd(g, h);
      SameHalf(hs, f, g);
    }
    CarriedByEdge(hs, e, g);
  }

  lemma CarriedByEdge(hs: seq<Half>, e: Edge, g: Half)
    requires Describes(hs, e) && g in hs && LinkOf(g) == e.ports
    ensures g.vlans <= e.vlans
  {
    forall v | v in g.vlans
      ensures v in e.vlans
    {
      assert Carries(hs, e.ports, v);
    }
  }

  lemma SameHalf(hs: seq<Half>, f: Half, g: Half)
    requires Consistent(hs) && f in hs && g in hs && LinkOf(f) == LinkOf(g) && f.node == g.node
    ensures f == g
  {
    var i :| 0 <= i < |hs| && hs[i] == f;
    var j :| 0 <= j < |hs| && hs[j] == g;
    assert LinkOf(f)[f.node] == f.port && LinkOf(g)[g.node] == g.port;
  }

  lemma OthersStillDescribed(hs: seq<Half>, e: Edge, h: Half)
    requires Describes(hs, e) && LinkOf(h) != e.ports
    ensures Describes(hs + [h], e)
  {
    assert forall f :: f in hs + [h] <==> f in hs || f == h;
    assert forall v :: Carries(hs + [h], e.ports, v) <==> Carries(hs, e.ports, v);
  }

  lemma NewEdgeDescribes(hs: seq<Half>, h: Half)
    requires h.node != h.neighbor && forall g <- hs :: LinkOf(g) != LinkOf(h)
    ensures Describes(hs + [h], NewEdge(h))
  {
    assert h in hs + [h];
    assert forall f :: f in hs + [h] <==> f in hs || f == h;
    assert forall v :: Carries(hs + [h], LinkOf(h), v) <==> v in h.vlans;
    assert NewEdge(h).missing[h.node] == h.vlans - h.vlans;
  }

  lemma StepGraph(hs: seq<Half>, edges: seq<Edge>, h: Half)
    requires Consistent(hs + [h]) && GraphOf(hs, edges)
    ensures GraphOf(hs + [h], Step(edges, h))
  {
    var after, link := Step(edges, h), LinkOf(h);
    assert forall i :: 0 <= i < |edges| ==> EdgeKey(after[i]) == EdgeKey(edges[i]);
    if Has(EdgeKey, edges, link) {
      StepKnownLink(hs, edges, h);
    } else {
      StepNewLink(hs, edges, h);
    }
    forall g | g in hs + [h]
      ensures Has(EdgeKey, after, LinkOf(g))
    {
      if g in hs {
        assert Has(EdgeKey, edges, LinkOf(g));
        var i :| 0 <= i < |edges| && EdgeKey(edges[i]) == LinkOf(g);
        assert EdgeKey(after[i]) == LinkOf(g);
      }
    }
  }

  lemma StillDescribed(hs: seq<Half>, e: Edge, h: Half)
    requires Consistent(hs + [h]) && Describes(hs, e)
    ensures Describes(hs + [h], if e.ports == LinkOf(h) then SeeAgain(e, h) else e)
  {
    if e.ports == LinkOf(h) {
      SeenAgainDescribes(hs, e, h);
    } else {
      OthersStillDescribed(hs, e, h);
    }
  }

  lemma StepKnownLink(hs: seq<Half>, edges: seq<Edge>, h: Half)
    requires Consistent(hs + [h]) && GraphOf(hs, edges)
    ensures var after := EditBy(EdgeKey, SeeAgain, edges, LinkOf(h), h);
            UniqueBy(EdgeKey, after) && forall e <- after :: Describes(hs + [h], e)
  {
    var after := EditBy(EdgeKey, SeeAgain, edges, LinkOf(h), h);
    forall e | e in after
      ensures Describes(hs + [h], e)
    {
      var i :| 0 <= i < |after| && after[i] == e;
      assert edges[i] in edges;
      StillDescribed(hs, edges[i], h);
    }
    assert forall i :: 0 <= i < |edges| ==> EdgeKey(after[i]) == EdgeKey(edges[i]);
  }

  lemma StepNewLink(hs: seq<Half>, edges: seq<Edge>, h: Half)
    requires Consistent(hs + [h]) && GraphOf(hs, edges) && !Has(EdgeKey, edges, LinkOf(h))
    ensures UniqueBy(EdgeKey, edges + [NewEdge(h)])
    ensures forall e <- edges + [NewEdge(h)] :: Describes(hs + [h], e)
    ensures Has(EdgeKey, edges + [NewEdge(h)], LinkOf(h))
  {
    ConsistentPrefix(hs, h);
    NewEdgeDescribes(hs, h);
    forall e | e in edges
      ensures Describes(hs + [h], e)
    {
      var i :| 0 <= i < |edges| && edges[i] == e;
      StillDescribed(hs, edges[i], h);
    }
    assert EdgeKey((edges + [NewEdge(h)])[|edges|]) == LinkOf(h);
  }

  /** Building from consistent halves gives exactly one edge per link, and the edge describes its link. */
  lemma {:induction false} BuildGraphOf(hs: seq<Half>)
    requires Consistent(hs)
    ensures GraphOf(hs, Build([], hs))
  {
    if hs != [] {
      assert hs == Front(hs) + [Last(hs)];
      ConsistentPrefix(Front(hs), Last(hs));
      BuildGraphOf(Front(hs));
      StepGraph(Front(hs), Build([], Front(hs)), Last(hs));
    }
  }

  lemma DescribedOnce(hs: seq<Half>, hs': seq<Half>, e: Edge, e': Edge)
    requires Describes(hs, e) && Describes(hs', e') && e.ports == e'.ports
    requires forall h :: LinkOf(h) == e.ports ==> (h in hs <==> h in hs')
    ensures e == e'
  {
    forall v
      ensures v in e.vlans <==> v in e'.vlans
    {
      assert Carries(hs, e.ports, v) <==> Carries(hs', e.ports, v);
    }
    forall node | node in e.ports
      ensures e.missing[node] == e'.missing[node]
    {
      if h :| h in hs && LinkOf(h) == e.ports && h.node == node {
        assert e.missing[h.node] == e.vlans - h.vlans;
        assert e'.missing[h.node] == e'.vlans - h.vlans;
      }
    }
  }

  /** The order in which switches and ports are visited does not matter: the same edges come out. */
  lemma VisitOrderIrrelevant(hs: seq<Half>, hs': seq<Half>, e: Edge)
    requires Consistent(hs) && Consistent(hs') && forall h :: h in hs <==> h in hs'
    requires e in Build([], hs)
    ensures e in Build([], hs')
  {
    BuildGraphOf(hs);
    BuildGraphOf(hs');
    var h :| h in hs && LinkOf(h) == e.ports;
    var edges' := Build([], hs');
    assert Has(EdgeKey, edges', LinkOf(h));
    var i :| 0 <= i < |edges'| && EdgeKey(edges'[i]) == LinkOf(h);
    assert edges'[i] in edges';
    DescribedOnce(hs, hs', e, edges'[i]);
  }

  lemma SeeAgainSame(hs: seq<Half>, e: Edge, h: Half)
    requires Describes(hs, e) && h in hs && LinkOf(h) == e.ports
    ensures SeeAgain(e, h) == e
  {
    CarriedByEdge(hs, e, h);
    assert e.vlans + h.vlans == e.vlans && h.vlans - e.vlans == {};
    assert e.missing[h.node] == e.vlans - h.vlans;
    assert h.node in e.ports;
  }

  lemma {:induction false} BuildAgain(hs: seq<Half>, edges: seq<Edge>, again: seq<Half>)
    requires GraphOf(hs, edges) && forall h <- again :: h in hs
    ensures Build(edges, again) == edges
  {
    if again != [] {
      var h := Last(again);
      assert again == Front(again) + [h];
      BuildAgain(hs, edges, Front(again));
      forall i | 0 <= i < |edges|
        ensures EditBy(EdgeKey, SeeAgain, edges, LinkOf(h), h)[i] == edges[i]
      {
        assert edges[i] in edges;
        if EdgeKey(edges[i]) == LinkOf(h) {
          SeeAgainSame(hs, edges[i], h);
        }
      }
      assert h in again && h in hs;
      assert EditBy(EdgeKey, SeeAgain, edges, LinkOf(h), h) == edges;
    }
  }

  /** Building again on unchanged switches changes nothing. */
  lemma BuildIdempotent(hs: seq<Half>)
    requires Consistent(hs)
    ensures Build(Build([], hs), hs) == Build([], hs)
  {
    BuildGraphOf(hs);
    BuildAgain(hs, Build([], hs), hs);
  }

  // ---------------------------------------------------------------- the object

  /** A switch as the graph sees it: its ports in order, those without a neighbor left out of `Halves`. */
  datatype Port = Port(name: string, vlans: set<int>, neighbor: Option<(string, string)>)

  datatype Switch = Switch(name: string, ports: seq<Port>)

  /** The half that a port sees, if it has a neighbor. */
  function PortHalf(name: string, p: Port): seq<Half> {
    if p.neighbor.Some? then [Half(name, p.name, p.neighbor.value.0, p.neighbor.value.1, p.vlans)] else []
  }

  function PortHalves(name: string, ports: seq<Port>): seq<Half> {
    if ports == [] then [] else PortHalves(name, Front(ports)) + PortHalf(name, Last(ports))
  }

  function Halves(switches: seq<Switch>): seq<Half> {
    if switches == [] then [] else Halves(Front(switches)) + PortHalves(Last(switches).name, Last(switches).ports)
  }

  /** This port of this switch has for its neighbor this port of this node. */
  ghost predicate Sees(switches: seq<Switch>, s: Switch, p: Port, node: string, port: string) {
    s in switches && p in s.ports && p.neighbor == Some((node, port))
  }

  function HalfOf(s: Switch, p: Port, node: string, port: string): Half {
    Half(s.name, p.name, node, port, p.vlans)
  }

  lemma {:induction false} PortHalvesExact(name: string, ports: seq<Port>, h: Half)
    ensures h in PortHalves(name, ports)
       <==> h.node == name && exists p :: p in ports && p.name == h.port && p.vlans == h.vlans
                                          && p.neighbor == Some((h.neighbor, h.remotePort))
  {
    if ports != [] {
      PortHalvesExact(name, Front(ports), h);
      assert ports == Front(ports) + [Last(ports)];
    }
  }

  /** The halves are what the ports see: one of each port that has a neighbor, and nothing else. */
  lemma {:induction false} HalvesExact(switches: seq<Switch>, h: Half)
    ensures h in Halves(switches)
       <==> exists s, p :: Sees(switches, s, p, h.neighbor, h.remotePort)
                           && s.name == h.node && p.name == h.port && p.vlans == h.vlans
  {
    if switches != [] {
      var before, last := Front(switches), Last(switches);
      HalvesExact(before, h);
      PortHalvesExact(last.name, last.ports, h);
      assert switches == before + [last];
      if h in PortHalves(last.name, last.ports) {
        var p :| p in last.ports && p.name == h.port && p.vlans == h.vlans
                 && p.neighbor == Some((h.neighbor, h.remotePort));
        assert Sees(switches, last, p, h.neighbor, h.remotePort);
      }
      var node, port := h.neighbor, h.remotePort;
      assert forall s, p :: Sees(before, s, p, node, port) ==> Sees(switches, s, p, node, port);
    }
  }

  /** The halves of a switch come in the order of its ports. */
  lemma {:induction false} PortHalvesInOrder(name: string, ports: seq<Port>, k: nat)
    requires k <= |ports|
    ensures PortHalves(name, ports[..k]) <= PortHalves(name, ports)
  {
    if k == |ports| {
      assert ports[..k] == ports;
    } else {
      assert Front(ports)[..k] == ports[..k];
      PortHalvesInOrder(name, Front(ports), k);
    }
  }

  /** The halves come in the order of the switches. */
  lemma {:induction false} HalvesInOrder(switches: seq<Switch>, k: nat)
    requires k <= |switches|
    ensures Halves(switches[..k]) <= Halves(switches)
  {
    if k == |switches| {
      assert switches[..k] == switches;
    } else {
      assert Front(switches)[..k] == switches[..k];
      HalvesInOrder(Front(switches), k);
    }
  }

  /** No two switches of one name, and on none of them two ports of one name. */
  ghost predicate DistinctNames(switches: seq<Switch>) {
    && (forall i, j :: 0 <= i < j < |switches| ==> switches[i].name != switches[j].name)
    && (forall s <- switches :: forall i, j :: 0 <= i < j < |s.ports| ==> s.ports[i].name != s.ports[j].name)
  }

  ghost predicate NoLoops(switches: seq<Switch>) {
    forall s, p, node, port :: Sees(switches, s, p, node, port) ==> node != s.name
  }

  ghost predicate Apart(hs: seq<Half>) {
    forall i, j :: 0 <= i < j < |hs| ==> hs[i].node != hs[j].node || hs[i].port != hs[j].port
  }

  lemma ApartConcat(hs: seq<Half>, more: seq<Half>)
    requires Apart(hs) && Apart(more)
    requires forall g, h :: g in hs && h in more ==> g.node != h.node || g.port != h.port
    ensures Apart(hs + more)
  {
    forall i, j | 0 <= i < |hs| <= j < |hs| + |more|
      ensures hs[i].node != (hs + more)[j].node || hs[i].port != (hs + more)[j].port
    {
      assert hs[i] in hs && more[j - |hs|] in more;
    }
  }

  lemma {:induction false} PortHalvesApart(name: string, ports: seq<Port>)
    requires forall i, j :: 0 <= i < j < |ports| ==> ports[i].name != ports[j].name
    ensures Apart(PortHalves(name, ports))
  {
    if ports != [] {
      var before, last := Front(ports), ports[|ports| - 1];
      PortHalvesApart(name, before);
      forall g, h | g in PortHalves(name, before) && h in PortHalf(name, last)
        ensures g.port != h.port
      {
        PortHalvesExact(name, before, g);
        var q :| q in before && q.name == g.port;
        var k :| 0 <= k < |before| && before[k] == q;
        assert ports[k] == q;
      }
      ApartConcat(PortHalves(name, before), PortHalf(name, last));
    }
  }

  lemma {:induction false} HalvesApart(switches: seq<Switch>)
    requires DistinctNames(switches)
    ensures Apart(Halves(switches))
  {
    if switches != [] {
      var before, last := Front(switches), switches[|switches| - 1];
      var hs, more := Halves(before), PortHalves(last.name, last.ports);
      assert last in switches && forall s :: s in before ==> s in switches;
      HalvesApart(before);
      PortHalvesApart(last.name, last.ports);
      forall g, h | g in hs && h in more
        ensures g.node != h.node
      {
        HalvesExact(before, g);
        PortHalvesExact(last.name, last.ports, h);
        var s :| s in before && s.name == g.node;
        var k :| 0 <= k < |before| && before[k] == s;
        assert switches[k] == s;
      }
      ApartConcat(hs, more);
    }
  }

  /** With distinct names the halves are consistent exactly when no switch is its own neighbor. */
  lemma HalvesConsistent(switches: seq<Switch>)
    requires DistinctNames(switches)
    ensures Consistent(Halves(switches)) <==> NoLoops(switches)
  {
    var hs := Halves(switches);
    HalvesApart(switches);
    forall h | h in hs && NoLoops(switches)
      ensures h.node != h.neighbor
    {
      HalvesExact(switches, h);
    }
    forall s, p, node, port | Sees(switches, s, p, node, port) && Consistent(hs)
      ensures node != s.name
    {
      HalvesExact(switches, HalfOf(s, p, node, port));
    }
  }

  /** If one switch sees a port of another, and that port sees anything, it sees the first switch's port. */
  ghost predicate Mutual(hs: seq<Half>) {
    forall g, h :: g in hs && h in hs && g.neighbor == h.node && g.remotePort == h.port
      ==> h.neighbor == g.node && h.remotePort == g.port
  }

  ghost predicate MutualPorts(switches: seq<Switch>) {
    forall s, p, t: Switch, q: Port, node, port ::
      Sees(switches, s, p, t.name, q.name) && Sees(switches, t, q, node, port) ==> node == s.name && port == p.name
  }

  lemma HalvesMutual(switches: seq<Switch>)
    ensures Mutual(Halves(switches)) <==> MutualPorts(switches)
  {
    var hs := Halves(switches);
    if MutualPorts(switches) {
      forall g, h | g in hs && h in hs && g.neighbor == h.node && g.remotePort == h.port
        ensures h.neighbor == g.node && h.remotePort == g.port
      {
        HalvesExact(switches, g);
        HalvesExact(switches, h);
      }
    }
    forall s, p, t: Switch, q: Port, node, port |
      Mutual(hs) && Sees(switches, s, p, t.name, q.name) && Sees(switches, t, q, node, port)
      ensures node == s.name && port == p.name
    {
      HalvesExact(switches, HalfOf(s, p, t.name, q.name));
      HalvesExact(switches, HalfOf(t, q, node, port));
    }
  }

  /** Two halves are of one link exactly when they are the same port, or each is what the other sees. */
  lemma SameLinkExact(g: Half, h: Half)
    requires g.node != g.neighbor && h.node != h.neighbor
    ensures LinkOf(g) == LinkOf(h)
       <==> || (g.node, g.port, g.neighbor, g.remotePort) == (h.node, h.port, h.neighbor, h.remotePort)
            || (g.node, g.port, g.neighbor, g.remotePort) == (h.neighbor, h.remotePort, h.node, h.port)
  {
    if LinkOf(g) == LinkOf(h) {
      assert g.node in LinkOf(h) && g.neighbor in LinkOf(h) && h.node in LinkOf(g) && h.neighbor in LinkOf(g);
      assert LinkOf(g)[g.node] == g.port && LinkOf(g)[g.neighbor] == g.remotePort;
      assert LinkOf(h)[h.node] == h.port && LinkOf(h)[h.neighbor] == h.remotePort;
    }
  }

  /** The edge of a link seen from both ends, of which `p` and `q` are the ports. */
  ghost predicate BothEnds(e: Edge, s: Switch, p: Port, t: Switch, q: Port) {
    && e.ports == map[s.name := p.name, t.name := q.name] && e.vlans == p.vlans + q.vlans
    && e.missing == map[s.name := q.vlans - p.vlans, t.name := p.vlans - q.vlans]
  }

  /** The edge of a link of which only the port `p` is seen. */
  ghost predicate OneEnd(e: Edge, s: Switch, p: Port, node: string, port: string) {
    && e.ports == map[s.name := p.name, node := port] && e.vlans == p.vlans
    && e.missing == map[s.name := {}, node := {}]
  }

  /** The port is the one that `p` sees, and sees `p` in turn. */
  ghost predicate Faces(switches: seq<Switch>, s: Switch, p: Port, t: Switch, q: Port) {
    Sees(switches, s, p, t.name, q.name) && Sees(switches, t, q, s.name, p.name)
  }

  /** The edge of the port: of two facing ports together, or of a port that nothing faces. */
  ghost predicate EdgeOfPort(switches: seq<Switch>, e: Edge, s: Switch, p: Port, node: string, port: string) {
    && (forall t, q :: Faces(switches, s, p, t, q) ==> BothEnds(e, s, p, t, q))
    && ((forall t, q :: !Faces(switches, s, p, t, q)) ==> OneEnd(e, s, p, node, port))
  }

  /** One edge for every two ports that face each other, one for every port that nothing faces, and no other. */
  ghost predicate PortGraph(switches: seq<Switch>, edges: seq<Edge>) {
    && UniqueBy(EdgeKey, edges)
    && (forall e :: e in edges ==> exists s, p, node, port ::
          Sees(switches, s, p, node, port) && e.ports == map[s.name := p.name, node := port])
    && (forall s, p, node, port :: Sees(switches, s, p, node, port) ==>
          exists e :: e in edges && EdgeOfPort(switches, e, s, p, node, port))
  }

  lemma OnlyEnds(hs: seq<Half>, e: Edge, h: Half, g: Half)
    requires Consistent(hs) && Describes(hs, e) && h in hs && LinkOf(h) == e.ports
    requires g in hs && LinkOf(g) == e.ports
    ensures g == h || (g.node == h.neighbor && g.port == h.remotePort && g.neighbor == h.node && g.remotePort == h.port)
  {
    SameLinkExact(g, h);
    if g.node == h.node {
      SameHalf(hs, g, h);
    }
  }

  lemma EdgeSeenOnce(hs: seq<Half>, e: Edge, h: Half)
    requires Consistent(hs) && Describes(hs, e) && h in hs && LinkOf(h) == e.ports
    requires forall g :: g in hs && LinkOf(g) == e.ports ==> g == h
    ensures e.vlans == h.vlans && e.missing == map[h.node := {}, h.neighbor := {}]
  {
    forall v
      ensures v in e.vlans <==> v in h.vlans
    {
      assert v in e.vlans <==> Carries(hs, e.ports, v);
    }
    assert h.node in e.ports && h.neighbor in e.ports;
    assert e.vlans == h.vlans;
    assert e.missing[h.node] == e.vlans - h.vlans == {};
    assert e.missing[h.neighbor] == {};
    assert e.missing.Keys == {h.node, h.neighbor};
  }

  lemma EdgeSeenTwice(hs: seq<Half>, e: Edge, h: Half, g: Half)
    requires Consistent(hs) && Describes(hs, e) && h in hs && LinkOf(h) == e.ports
    requires g in hs && LinkOf(g) == e.ports && g.node == h.neighbor
    ensures e.vlans == h.vlans + g.vlans
    ensures e.missing == map[h.node := g.vlans - h.vlans, h.neighbor := h.vlans - g.vlans]
  {
    forall v
      ensures v in e.vlans <==> v in h.vlans || v in g.vlans
    {
      assert v in e.vlans <==> Carries(hs, e.ports, v);
      if f :| f in hs && LinkOf(f) == e.ports && v in f.vlans {
        OnlyEnds(hs, e, h, f);
        if f != h {
          SameHalf(hs, f, g);
        }
      }
    }
    assert h.node in e.ports && h.neighbor in e.ports;
    assert e.missing[h.node] == e.vlans - h.vlans == g.vlans - h.vlans;
    assert e.missing[g.node] == e.vlans - g.vlans == h.vlans - g.vlans;
  }

  lemma EdgeOf(hs: seq<Half>, edges: seq<Edge>, h: Half) returns (e: Edge)
    requires GraphOf(hs, edges) && h in hs
    ensures e in edges && e.ports == LinkOf(h) && Describes(hs, e)
    ensures forall f :: f in edges && f.ports == LinkOf(h) ==> f == e
  {
    assert Has(EdgeKey, edges, LinkOf(h));
    var i :| 0 <= i < |edges| && EdgeKey(edges[i]) == LinkOf(h);
    e := edges[i];
    assert e in edges;
  }

  lemma PortHasEdge(switches: seq<Switch>, edges: seq<Edge>, s: Switch, p: Port, node: string, port: string)
    requires Consistent(Halves(switches)) && GraphOf(Halves(switches), edges) && Sees(switches, s, p, node, port)
    ensures exists e :: e in edges && EdgeOfPort(switches, e, s, p, node, port)
  {
    var hs, h := Halves(switches), HalfOf(s, p, node, port);
    HalvesExact(switches, h);
    var e := EdgeOf(hs, edges, h);
    forall t, q | Faces(switches, s, p, t, q)
      ensures BothEnds(e, s, p, t, q)
    {
      var g := HalfOf(t, q, s.name, p.name);
      HalvesExact(switches, g);
      SameLinkExact(g, h);
      EdgeSeenTwice(hs, e, h, g);
    }
    if forall t, q :: !Faces(switches, s, p, t, q) {
      forall g | g in hs && LinkOf(g) == e.ports
        ensures g == h
      {
        OnlyEnds(hs, e, h, g);
        HalvesExact(switches, g);
        if g != h {
          var t, q :| Sees(switches, t, q, g.neighbor, g.remotePort)
                      && t.name == g.node && q.name == g.port && q.vlans == g.vlans;
          assert Faces(switches, s, p, t, q);
        }
      }
      EdgeSeenOnce(hs, e, h);
    }
  }

  /** Built from nothing as meant, on switches of distinct names, none its own neighbor. */
  lemma BuildPortGraph(switches: seq<Switch>)
    requires DistinctNames(switches) && NoLoops(switches)
    ensures PortGraph(switches, Build([], Halves(switches)))
  {
    var hs := Halves(switches);
    var edges := Build([], hs);
    HalvesConsistent(switches);
    BuildGraphOf(hs);
    forall e | e in edges
      ensures exists s, p, node, port ::
        Sees(switches, s, p, node, port) && e.ports == map[s.name := p.name, node := port]
    {
      var h :| h in hs && LinkOf(h) == e.ports;
      HalvesExact(switches, h);
      var s, p :| Sees(switches, s, p, h.neighbor, h.remotePort)
                  && s.name == h.node && p.name == h.port && p.vlans == h.vlans;
      assert e.ports == map[s.name := p.name, h.neighbor := h.remotePort];
    }
    forall s, p, node, port | Sees(switches, s, p, node, port)
      ensures exists e :: e in edges && EdgeOfPort(switches, e, s, p, node, port)
    {
      PortHasEdge(switches, edges, s, p, node, port);
    }
  }

  /** `meant` is the repaired form, which recognises links by their port map. */
  predicate Recognised(edges: seq<Edge>, h: Half, meant: bool) {
    if meant then Has(EdgeKey, edges, LinkOf(h)) else exists i :: 0 <= i < |edges| && SameEdgeAsWritten(edges[i], h)
  }

  function See(edges: seq<Edge>, h: Half, meant: bool): seq<Edge> {
    if Recognised(edges, h, meant) then EditBy(EdgeKey, SeeAgain, edges, LinkOf(h), h) else edges + [NewEdge(h)]
  }

  function SeeAll(edges: seq<Edge>, hs: seq<Half>, meant: bool): seq<Edge> {
    if hs == [] then edges else See(SeeAll(edges, Front(hs), meant), Last(hs), meant)
  }

  lemma {:induction false} SeeAllIs(edges: seq<Edge>, hs: seq<Half>)
    ensures SeeAll(edges, hs, true) == Build(edges, hs)
    ensures SeeAll(edges, hs, false) == edges + NewEdges(hs)
  {
    if hs == [] {
      assert edges + NewEdges(hs) == edges;
    } else {
      SeeAllIs(edges, Front(hs));
      assert NewEdges(hs) == NewEdges(Front(hs)) + [NewEdge(Last(hs))];
    }
  }

  lemma {:induction false} SeeAllConcat(edges: seq<Edge>, hs: seq<Half>, more: seq<Half>, meant: bool)
    ensures SeeAll(edges, hs + more, meant) == SeeAll(SeeAll(edges, hs, meant), more, meant)
  {
    if more == [] {
      assert hs + more == hs;
    } else {
      SeeAllConcat(edges, hs, Front(more), meant);
      assert Front(hs + more) == hs + Front(more);
    }
  }

  lemma SeeAllOne(edges: seq<Edge>, hs: seq<Half>, meant: bool)
    requires |hs| <= 1
    ensures SeeAll(edges, hs, meant) == if hs == [] then edges else See(edges, hs[0], meant)
  {
    if hs != [] {
      assert Front(hs) == [];
    }
  }

  lemma PortHalvesSnoc(name: string, ports: seq<Port>, j: nat)
    requires j < |ports|
    ensures PortHalves(name, ports[..j + 1]) == PortHalves(name, ports[..j]) + PortHalf(name, ports[j])
  {
    assert Front(ports[..j + 1]) == ports[..j];
  }

  class NetworkGraph {
    var edges: seq<Edge>

    constructor ()
      ensures edges == []
    {
      edges := [];
    }

    /** A port that has a neighbor: its link is looked up, and updated or added. */
    method SeePort(h: Half, meant: bool)
      modifies this
      ensures edges == See(old(edges), h, meant)
    {
      if Recognised(edges, h, meant) {
        edges := EditBy(EdgeKey, SeeAgain, edges, LinkOf(h), h);
      } else {
        edges := edges + [NewEdge(h)];
      }
    }

    /** The inner loop: the ports of one switch. */
    method SeePorts(s: Switch, meant: bool)
      modifies this
      ensures edges == SeeAll(old(edges), PortHalves(s.name, s.ports), meant)
    {
      for j := 0 to |s.ports|
        invariant edges == SeeAll(old(edges), PortHalves(s.name, s.ports[..j]), meant)
      {
        var p := s.ports[j];
        PortHalvesSnoc(s.name, s.ports, j);
        SeeAllConcat(old(edges), PortHalves(s.name, s.ports[..j]), PortHalf(s.name, p), meant);
        SeeAllOne(edges, PortHalf(s.name, p), meant);
        if p.neighbor.Some? {
          SeePort(Half(s.name, p.name, p.neighbor.value.0, p.neighbor.value.1, p.vlans), meant);
        }
      }
      assert s.ports[..|s.ports|] == s.ports;
    }

    /** `build_graph`, as written or as meant. */
    method BuildGraph(switches: seq<Switch>, meant: bool)
      modifies this
      ensures edges == if meant then Build(old(edges), Halves(switches)) else old(edges) + NewEdges(Halves(switches))
      ensures meant && old(edges) == [] && DistinctNames(switches) && NoLoops(switches) ==> PortGraph(switches, edges)
    {
      for i := 0 to |switches|
        invariant edges == SeeAll(old(edges), Halves(switches[..i]), meant)
      {
        var s := switches[i];
        assert Front(switches[..i + 1]) == switches[..i];
        SeeAllConcat(old(edges), Halves(switches[..i]), PortHalves(s.name, s.ports), meant);
        SeePorts(s, meant);
      }
      assert switches[..|switches|] == switches;
      SeeAllIs(old(edges), Halves(switches));
      if DistinctNames(switches) && NoLoops(switches) {
        BuildPortGraph(switches);
      }
    }
  }
}
