/** One VLAN over the links between managed switches: the request that sets it, and where it then passes. */
module Backbone {
  import opened Common
  import opened KeyedList
  import opened Topology

  // ---------------------------------------------------------------- the request

  /** A link between two managed switches. */
  predicate InBackbone(e: Edge, managed: set<string>) {
    e.ports.Keys <= managed
  }

  predicate Lacks(e: Edge, managed: set<string>, vid: int) {
    InBackbone(e, managed) && vid !in e.vlans
  }

  /** `_get_backbone_links_for_vlan_connectivity`. */
  function Lacking(edges: seq<Edge>, managed: set<string>, vid: int): (r: seq<Edge>)
    ensures forall e :: e in r <==> e in edges && Lacks(e, managed, vid)
  {
    if edges == [] then []
    else
      assert edges == Front(edges) + [Last(edges)];
      Lacking(Front(edges), managed, vid) + if Lacks(Last(edges), managed, vid) then [Last(edges)] else []
  }

  /** The links come in the order of the edges. */
  lemma {:induction false} LackingInOrder(edges: seq<Edge>, managed: set<string>, vid: int, k: nat)
    requires k <= |edges|
    ensures Lacking(edges[..k], managed, vid) <= Lacking(edges, managed, vid)
  {
    if k == |edges| {
      assert edges[..k] == edges;
    } else {
      assert Front(edges)[..k] == edges[..k];
      LackingInOrder(Front(edges), managed, vid, k);
    }
  }

  /** The values in the attribute dictionary of an edge, and the name of a port they are compared with. */
  datatype Datum =
    | Name(s: string)
    | PortMap(ports: map<string, string>)
    | VlanList(vlans: set<int>)
    | ErrorMap(errors: map<string, set<int>>)
    | Weight

  function Attribute(e: Edge, name: string): Option<Datum> {
    if name == "ports" then Some(PortMap(e.ports))
    else if name == "vlans" then Some(VlanList(e.vlans))
    else if name == "missing_vlan_errors" then Some(ErrorMap(e.missing))
    else if name == "weight" then Some(Weight)
    else None
  }

  function PortIndex(ports: seq<Port>, wanted: Datum, from: nat := 0): (r: Option<nat>)
    requires from <= |ports|
    ensures r.Some? ==> from <= r.value < |ports| && Name(ports[r.value].name) == wanted
    ensures r.Some? ==> forall k :: from <= k < r.value ==> Name(ports[k].name) != wanted
    ensures r.None? ==> forall k :: from <= k < |ports| ==> Name(ports[k].name) != wanted
    decreases |ports| - from
  {
    if from == |ports| then None
    else if Name(ports[from].name) == wanted then Some(from)
    else PortIndex(ports, wanted, from + 1)
  }

  function SwitchIndex(switches: seq<Switch>, name: string, from: nat := 0): (r: Option<nat>)
    requires from <= |switches|
    ensures r.Some? ==> from <= r.value < |switches| && switches[r.value].name == name
    ensures r.Some? ==> forall k :: from <= k < r.value ==> switches[k].name != name
    ensures r.None? ==> forall k :: from <= k < |switches| ==> switches[k].name != name
    decreases |switches| - from
  {
    if from == |switches| then None
    else if switches[from].name == name then Some(from)
    else SwitchIndex(switches, name, from + 1)
  }

  /**
   * `_from_topology_link_to_switch_port`. As written it looks for the name of the switch among the
   * attributes of the edge; what is `meant` is its port map.
   */
  function PortOf(e: Edge, s: Switch, meant: bool): (r: Option<nat>)
    ensures r.Some? ==> r.value < |s.ports|
  {
    var wanted :=
      if !meant then Attribute(e, s.name)
      else if s.name in e.ports then Some(Name(e.ports[s.name])) else None;
    if wanted.None? then None else PortIndex(s.ports, wanted.value)
  }

  /** Where the end of the link is that the graph gives first: a switch and a port of it. */
  function EndOf(switches: seq<Switch>, e: Edge, first: Edge -> string, meant: bool): (r: Option<(nat, nat)>)
    ensures r.Some? ==> r.value.0 < |switches| && r.value.1 < |switches[r.value.0].ports|
  {
    var i := SwitchIndex(switches, first(e));
    if i.None? then None
    else
      var j := PortOf(e, switches[i.value], meant);
      if j.None? then None else Some((i.value, j.value))
  }

  function WithVid(p: Port, vid: int): Port {
    p.(vlans := p.vlans + {vid})
  }

  function AddVid(switches: seq<Switch>, i: nat, j: nat, vid: int): seq<Switch>
    requires i < |switches| && j < |switches[i].ports|
  {
    var s := switches[i];
    switches[i := s.(ports := s.ports[j := WithVid(s.ports[j], vid)])]
  }

  datatype Outcome = Outcome(switches: seq<Switch>, raised: bool)

  function SetLinks(switches: seq<Switch>, links: seq<Edge>, first: Edge -> string, vid: int, meant: bool): Outcome {
    if links == [] then Outcome(switches, false)
    else
      var o := SetLinks(switches, Front(links), first, vid, meant);
      if o.raised then o
      else
        var end := EndOf(o.switches, Last(links), first, meant);
        if end.None? then Outcome(o.switches, true)
        else Outcome(AddVid(o.switches, end.value.0, end.value.1, vid), false)
  }

  function Managed(switches: seq<Switch>): set<string> {
    set s | s in switches :: s.name
  }

  /** `_set_vlan_backbone_connectivity`: of every link that lacks the VLAN one end is set. */
  function SetBackbone(switches: seq<Switch>, edges: seq<Edge>, first: Edge -> string, vid: int, meant: bool): Outcome {
    SetLinks(switches, Lacking(edges, Managed(switches), vid), first, vid, meant)
  }

  lemma {:induction false} RaiseStops(
    switches: seq<Switch>, links: seq<Edge>, first: Edge -> string, vid: int, meant: bool, n: nat)
    requires n <= |links| && SetLinks(switches, links[..n], first, vid, meant).raised
    ensures SetLinks(switches, links, first, vid, meant) == SetLinks(switches, links[..n], first, vid, meant)
  {
    if n == |links| {
      assert links[..n] == links;
    } else {
      assert Front(links)[..n] == links[..n];
      RaiseStops(switches, Front(links), first, vid, meant, n);
    }
  }

  class Network {
    var switches: seq<Switch>
    var edges: seq<Edge>

    constructor (switches: seq<Switch>, edges: seq<Edge>)
      ensures this.switches == switches && this.edges == edges
    {
      this.switches, this.edges := switches, edges;
    }

    method SetVlanBackboneConnectivity(vid: int, first: Edge -> string, meant: bool) returns (raised: bool)
      modifies `switches
      ensures Outcome(switches, raised) == SetBackbone(old(switches), edges, first, vid, meant)
    {
      var links := Lacking(edges, Managed(switches), vid);
      raised := false;
      for k := 0 to |links|
        invariant !raised && Outcome(switches, false) == SetLinks(old(switches), links[..k], first, vid, meant)
      {
        assert Front(links[..k + 1]) == links[..k];
        var end := EndOf(switches, links[k], first, meant);
        if end.None? {
          RaiseStops(old(switches), links, first, vid, meant, k + 1);
          return true;
        }
        switches := AddVid(switches, end.value.0, end.value.1, vid);
      }
      assert links[..|links|] == links;
    }
  }

  // ---------------------------------------------------------------- the request as written

  lemma {:induction false} AsWrittenStopsAtFirst(
    switches: seq<Switch>, links: seq<Edge>, first: Edge -> string, vid: int)
    ensures SetLinks(switches, links, first, vid, false) == Outcome(switches, links != [])
  {
    if links != [] {
      AsWrittenStopsAtFirst(switches, Front(links), first, vid);
    }
  }

  /**
   * As written no port is ever found, whatever the switches are called: the request comes back exactly
   * when no backbone link lacks the VLAN, and in either case it sets the VLAN nowhere.
   */
  lemma AsWrittenExact(switches: seq<Switch>, edges: seq<Edge>, first: Edge -> string, vid: int)
    ensures var o := SetBackbone(switches, edges, first, vid, false);
            && o.switches == switches
            && (o.raised <==> exists e :: e in edges && Lacks(e, Managed(switches), vid))
  {
    var links := Lacking(edges, Managed(switches), vid);
    AsWrittenStopsAtFirst(switches, links, first, vid);
    if links != [] {
      assert links[0] in links;
    }
  }

  /** On the graph as written, with an edge for every half: exactly when every half between managed switches has it. */
  lemma AsWrittenOnItsGraph(switches: seq<Switch>, first: Edge -> string, vid: int)
    ensures var hs := Halves(switches);
            SetBackbone(switches, NewEdges(hs), first, vid, false).raised
            <==> exists h :: h in hs && {h.node, h.neighbor} <= Managed(switches) && vid !in h.vlans
  {
    var hs := Halves(switches);
    AsWrittenExact(switches, NewEdges(hs), first, vid);
    forall h | h in hs
      ensures NewEdge(h) in NewEdges(hs)
      ensures LinkOf(h).Keys == {h.node, h.neighbor}
    {
      var i :| 0 <= i < |hs| && hs[i] == h;
      assert NewEdges(hs)[i] == NewEdge(h);
    }
    if h :| h in hs && {h.node, h.neighbor} <= Managed(switches) && vid !in h.vlans {
      assert Lacks(NewEdge(h), Managed(switches), vid);
    }
  }

  /** Two switches and one link without VLANs: the request as written raises, the repaired one does not. */
  lemma AsWrittenWitness(vid: int)
    ensures var first := (e: Edge) => "a";
            var a := Switch("a", [Port("1", {}, Some(("b", "2")))]);
            var b := Switch("b", [Port("2", {}, Some(("a", "1")))]);
            var edges := [NewEdge(Half("a", "1", "b", "2", {}))];
            && SetBackbone([a, b], edges, first, vid, false) == Outcome([a, b], true)
            && SetBackbone([a, b], edges, first, vid, true)
               == Outcome([a.(ports := [Port("1", {vid}, Some(("b", "2")))]), b], false)
  {
    var first := (e: Edge) => "a";
    var a := Switch("a", [Port("1", {}, Some(("b", "2")))]);
    var b := Switch("b", [Port("2", {}, Some(("a", "1")))]);
    var e := NewEdge(Half("a", "1", "b", "2", {}));
    var switches := [a, b];
    assert a in switches && b in switches;
    assert "a" in Managed(switches) && "b" in Managed(switches);
    assert Lacks(e, Managed(switches), vid);
    AsWrittenExact(switches, [e], first, vid);
    assert Front([e]) == [];
    assert Lacking([e], Managed(switches), vid) == [e];
    assert PortIndex(a.ports, Name("1")) == Some(0);
    assert SwitchIndex(switches, "a") == Some(0);
    assert EndOf(switches, e, first, true) == Some((0, 0));
    assert SetLinks(switches, [], first, vid, true) == Outcome(switches, false);
    var p := WithVid(a.ports[0], vid);
    assert p == Port("1", {vid}, Some(("b", "2"))) && a.ports[0 := p] == [p];
    assert switches[0 := a.(ports := [p])] == [a.(ports := [p]), b];
  }
}
