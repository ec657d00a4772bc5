/**
 * The request repaired, so that it reads the port map of a link: what it does to the graph built afresh
 * from the switches, and to the links over which the VLAN passes at both ends.
 */
module BackboneRepaired {
  import opened Common
  import opened KeyedList
  import opened Topology
  import opened Backbone

  // ---------------------------------------------------------------- what the request does to the halves

  function SetPort(p: Port, port: string, vid: int): Port {
    if p.name == port then WithVid(p, vid) else p
  }

  function SetPorts(ports: seq<Port>, port: string, vid: int): (r: seq<Port>)
    ensures |r| == |ports| && forall i :: 0 <= i < |ports| ==> r[i] == SetPort(ports[i], port, vid)
  {
    seq(|ports|, i requires 0 <= i < |ports| => SetPort(ports[i], port, vid))
  }

  function SetSwitch(s: Switch, node: string, port: string, vid: int): Switch {
    if s.name == node then s.(ports := SetPorts(s.ports, port, vid)) else s
  }

  function SetSwitches(switches: seq<Switch>, node: string, port: string, vid: int): (r: seq<Switch>)
    ensures |r| == |switches| && forall i :: 0 <= i < |switches| ==> r[i] == SetSwitch(switches[i], node, port, vid)
  {
    seq(|switches|, i requires 0 <= i < |switches| => SetSwitch(switches[i], node, port, vid))
  }

  lemma AddVidIsSet(switches: seq<Switch>, i: nat, j: nat, vid: int)
    requires DistinctNames(switches) && i < |switches| && j < |switches[i].ports|
    ensures AddVid(switches, i, j, vid) == SetSwitches(switches, switches[i].name, switches[i].ports[j].name, vid)
  {
    var s := switches[i];
    assert s in switches;
    assert s.ports[j := WithVid(s.ports[j], vid)] == SetPorts(s.ports, s.ports[j].name, vid);
  }

  function SetHalf(h: Half, node: string, port: string, vid: int): Half {
    if h.node == node && h.port == port then h.(vlans := h.vlans + {vid}) else h
  }

  function SetHalves(hs: seq<Half>, node: string, port: string, vid: int): (r: seq<Half>)
    ensures |r| == |hs| && forall i :: 0 <= i < |hs| ==> r[i] == SetHalf(hs[i], node, port, vid)
  {
    seq(|hs|, i requires 0 <= i < |hs| => SetHalf(hs[i], node, port, vid))
  }

  lemma {:induction false} PortHalvesSet(name: string, ports: seq<Port>, port: string, vid: int)
    ensures PortHalves(name, SetPorts(ports, port, vid)) == SetHalves(PortHalves(name, ports), name, port, vid)
  {
    if ports != [] {
      PortHalvesSet(name, Front(ports), port, vid);
      assert Front(SetPorts(ports, port, vid)) == SetPorts(Front(ports), port, vid);
    }
  }

  lemma {:induction false} PortHalvesNode(name: string, ports: seq<Port>)
    ensures forall h <- PortHalves(name, ports) :: h.node == name
  {
    if ports != [] {
      PortHalvesNode(name, Front(ports));
    }
  }

  lemma SwitchHalvesSet(s: Switch, node: string, port: string, vid: int)
    ensures var s' := SetSwitch(s, node, port, vid);
            PortHalves(s'.name, s'.ports) == SetHalves(PortHalves(s.name, s.ports), node, port, vid)
  {
    if s.name == node {
      PortHalvesSet(s.name, s.ports, port, vid);
    } else {
      PortHalvesNode(s.name, s.ports);
      var hs := PortHalves(s.name, s.ports);
      forall i | 0 <= i < |hs|
        ensures SetHalf(hs[i], node, port, vid) == hs[i]
      {
        assert hs[i] in hs;
      }
    }
  }

  lemma {:induction false} HalvesSet(switches: seq<Switch>, node: string, port: string, vid: int)
    ensures Halves(SetSwitches(switches, node, port, vid)) == SetHalves(Halves(switches), node, port, vid)
  {
    if switches != [] {
      HalvesSet(Front(switches), node, port, vid);
      assert Front(SetSwitches(switches, node, port, vid)) == SetSwitches(Front(switches), node, port, vid);
      SwitchHalvesSet(Last(switches), node, port, vid);
    }
  }

  // ---------------------------------------------------------------- looking up is not disturbed by setting

  lemma {:induction false} PortIndexKept(ports: seq<Port>, port: string, vid: int, wanted: Datum, from: nat)
    requires from <= |ports|
    ensures PortIndex(SetPorts(ports, port, vid), wanted, from) == PortIndex(ports, wanted, from)
    decreases |ports| - from
  {
    if from < |ports| {
      PortIndexKept(ports, port, vid, wanted, from + 1);
    }
  }

  lemma {:induction false} SwitchIndexKept(
    switches: seq<Switch>, node: string, port: string, vid: int, name: string, from: nat)
    requires from <= |switches|
    ensures SwitchIndex(SetSwitches(switches, node, port, vid), name, from) == SwitchIndex(switches, name, from)
    decreases |switches| - from
  {
    if from < |switches| {
      SwitchIndexKept(switches, node, port, vid, name, from + 1);
    }
  }

  lemma EndKept(switches: seq<Switch>, node: string, port: string, vid: int, e: Edge, first: Edge -> string)
    ensures EndOf(SetSwitches(switches, node, port, vid), e, first, true) == EndOf(switches, e, first, true)
  {
    SwitchIndexKept(switches, node, port, vid, first(e), 0);
    var i := SwitchIndex(switches, first(e));
    if i.Some? && first(e) in e.ports {
      PortIndexKept(switches[i.value].ports, port, vid, Name(e.ports[first(e)]), 0);
    }
  }

  lemma NamesKept(switches: seq<Switch>, node: string, port: string, vid: int)
    requires DistinctNames(switches)
    ensures DistinctNames(SetSwitches(switches, node, port, vid))
  {
    var after := SetSwitches(switches, node, port, vid);
    forall s | s in after
      ensures forall i, j :: 0 <= i < j < |s.ports| ==> s.ports[i].name != s.ports[j].name
    {
      var k :| 0 <= k < |after| && after[k] == s;
      assert switches[k] in switches;
    }
  }

  // ---------------------------------------------------------------- the request on the halves

  /** The port is the one that the graph gives as the first end of the link. */
  predicate IsFirstEnd(e: Edge, first: Edge -> string, h: Half) {
    h.node == first(e) && h.node in e.ports && e.ports[h.node] == h.port
  }

  /** The port is the first end of one of the links. */
  predicate IsSet(h: Half, links: seq<Edge>, first: Edge -> string) {
    links != [] && (IsFirstEnd(Last(links), first, h) || IsSet(h, Front(links), first))
  }

  lemma {:induction false} IsSetMeaning(h: Half, links: seq<Edge>, first: Edge -> string)
    ensures IsSet(h, links, first) <==> exists e :: e in links && IsFirstEnd(e, first, h)
  {
    if links != [] {
      assert links == Front(links) + [Last(links)];
      IsSetMeaning(h, Front(links), first);
    }
  }

  function AfterLinks(h: Half, links: seq<Edge>, first: Edge -> string, vid: int): Half {
    if IsSet(h, links, first) then h.(vlans := h.vlans + {vid}) else h
  }

  function AllAfterLinks(hs: seq<Half>, links: seq<Edge>, first: Edge -> string, vid: int): (r: seq<Half>)
    ensures |r| == |hs| && forall i :: 0 <= i < |hs| ==> r[i] == AfterLinks(hs[i], links, first, vid)
  {
    seq(|hs|, i requires 0 <= i < |hs| => AfterLinks(hs[i], links, first, vid))
  }

  lemma OneMoreLink(hs: seq<Half>, links: seq<Edge>, e: Edge, first: Edge -> string, vid: int)
    requires first(e) in e.ports
    ensures AllAfterLinks(hs, links + [e], first, vid)
         == SetHalves(AllAfterLinks(hs, links, first, vid), first(e), e.ports[first(e)], vid)
  {
    forall i | 0 <= i < |hs|
      ensures AfterLinks(hs[i], links + [e], first, vid)
           == SetHalf(AfterLinks(hs[i], links, first, vid), first(e), e.ports[first(e)], vid)
    {
      var h, more := hs[i], links + [e];
      assert h.vlans + {vid} + {vid} == h.vlans + {vid};
      assert Front(more) == links && Last(more) == e;
    }
  }

  /** Every first end is found where it was before; the port found is that of the port map. */
  ghost predicate Ends(switches: seq<Switch>, now: seq<Switch>, first: Edge -> string) {
    && DistinctNames(now)
    && forall e :: EndOf(now, e, first, true) == EndOf(switches, e, first, true)
  }

  lemma {:induction false} SetLinksExact(switches: seq<Switch>, links: seq<Edge>, first: Edge -> string, vid: int)
    requires DistinctNames(switches)
    ensures var o := SetLinks(switches, links, first, vid, true);
            && (o.raised <==> exists e :: e in links && EndOf(switches, e, first, true).None?)
            && (!o.raised ==> Ends(switches, o.switches, first))
            && (!o.raised ==> Halves(o.switches) == AllAfterLinks(Halves(switches), links, first, vid))
  {
    if links == [] {
      assert AllAfterLinks(Halves(switches), links, first, vid) == Halves(switches);
    } else {
      var e, o := links[|links| - 1], SetLinks(switches, Front(links), first, vid, true);
      SetLinksExact(switches, Front(links), first, vid);
      assert links == Front(links) + [e];
      if !o.raised {
        assert EndOf(o.switches, e, first, true) == EndOf(switches, e, first, true);
        if EndOf(o.switches, e, first, true).Some? {
          SetOneExact(switches, o.switches, Front(links), e, first, vid);
        }
      }
    }
  }

  lemma SetOneExact(switches: seq<Switch>, now: seq<Switch>, links: seq<Edge>, e: Edge, first: Edge -> string, vid: int)
    requires Ends(switches, now, first) && EndOf(now, e, first, true).Some?
    requires Halves(now) == AllAfterLinks(Halves(switches), links, first, vid)
    ensures var (i, j) := EndOf(now, e, first, true).value;
            var after := AddVid(now, i, j, vid);
            Ends(switches, after, first) && Halves(after) == AllAfterLinks(Halves(switches), links + [e], first, vid)
  {
    var (i, j) := EndOf(now, e, first, true).value;
    var node, port := now[i].name, now[i].ports[j].name;
    assert node == first(e) && node in e.ports && port == e.ports[node];
    AddVidIsSet(now, i, j, vid);
    NamesKept(now, node, port, vid);
    HalvesSet(now, node, port, vid);
    OneMoreLink(Halves(switches), links, e, first, vid);
    forall f
      ensures EndOf(AddVid(now, i, j, vid), f, first, true) == EndOf(switches, f, first, true)
    {
      EndKept(now, node, port, vid, f, first);
    }
  }

  // ---------------------------------------------------------------- what is set when the request raises

  /** The links before the first one whose end to be set is not found. */
  ghost function LinksSet(switches: seq<Switch>, links: seq<Edge>, first: Edge -> string): (r: seq<Edge>)
    ensures r <= links
  {
    if links == [] then []
    else
      var before := LinksSet(switches, Front(links), first);
      if before == Front(links) && EndOf(switches, Last(links), first, true).Some? then links else before
  }

  /** The port is the first end of one of the links. */
  ghost predicate SetAt(name: string, port: string, links: seq<Edge>, first: Edge -> string) {
    exists e :: e in links && first(e) == name && name in e.ports && e.ports[name] == port
  }

  ghost function PortAfter(name: string, p: Port, links: seq<Edge>, first: Edge -> string, vid: int): Port {
    if SetAt(name, p.name, links, first) then Port(p.name, p.vlans + {vid}, p.neighbor) else p
  }

  /** The same switches and ports, with the VLAN on the first ends of the links and everything else as it was. */
  ghost predicate JustSet(
    switches: seq<Switch>, now: seq<Switch>, links: seq<Edge>, first: Edge -> string, vid: int)
  {
    && |now| == |switches|
    && forall i :: 0 <= i < |switches| ==>
         && now[i].name == switches[i].name && |now[i].ports| == |switches[i].ports|
         && forall j :: 0 <= j < |switches[i].ports| ==>
              now[i].ports[j] == PortAfter(switches[i].name, switches[i].ports[j], links, first, vid)
  }

  lemma PortAfterOneMore(name: string, p: Port, links: seq<Edge>, e: Edge, first: Edge -> string, vid: int)
    ensures PortAfter(name, p, links + [e], first, vid)
         == if first(e) == name && name in e.ports && e.ports[name] == p.name
            then WithVid(PortAfter(name, p, links, first, vid), vid) else PortAfter(name, p, links, first, vid)
  {
    assert SetAt(name, p.name, links + [e], first)
      <==> SetAt(name, p.name, links, first) || (first(e) == name && name in e.ports && e.ports[name] == p.name);
    assert p.vlans + {vid} + {vid} == p.vlans + {vid};
  }

  lemma JustSetOneMore(
    switches: seq<Switch>, now: seq<Switch>, links: seq<Edge>, e: Edge, first: Edge -> string, vid: int)
    requires DistinctNames(now) && JustSet(switches, now, links, first, vid) && EndOf(now, e, first, true).Some?
    ensures var (i, j) := EndOf(now, e, first, true).value;
            JustSet(switches, AddVid(now, i, j, vid), links + [e], first, vid)
  {
    var (i, j) := EndOf(now, e, first, true).value;
    var after := AddVid(now, i, j, vid);
    assert now[i].name == first(e) && first(e) in e.ports && e.ports[first(e)] == now[i].ports[j].name;
    forall k, l | 0 <= k < |switches| && 0 <= l < |switches[k].ports|
      ensures after[k].ports[l] == PortAfter(switches[k].name, switches[k].ports[l], links + [e], first, vid)
    {
      PortAfterOneMore(switches[k].name, switches[k].ports[l], links, e, first, vid);
      assert now[k] in now;
    }
  }

  /** The request goes as far as the ends are found, and sets those and nothing else. */
  lemma {:induction false} SetLinksJust(switches: seq<Switch>, links: seq<Edge>, first: Edge -> string, vid: int)
    requires DistinctNames(switches)
    ensures var o, done := SetLinks(switches, links, first, vid, true), LinksSet(switches, links, first);
            (o.raised <==> done != links) && JustSet(switches, o.switches, done, first, vid)
  {
    if links != [] {
      SetLinksJust(switches, Front(links), first, vid);
      SetLinksExact(switches, Front(links), first, vid);
      assert links == Front(links) + [Last(links)];
      var o, done := SetLinks(switches, Front(links), first, vid, true), LinksSet(switches, Front(links), first);
      OneLinkJust(switches, o, Front(links), done, Last(links), first, vid);
    }
  }

  lemma OneLinkJust(
    switches: seq<Switch>, o: Outcome, links: seq<Edge>, done: seq<Edge>, e: Edge, first: Edge -> string, vid: int)
    requires (o.raised <==> done != links) && |done| <= |links| && JustSet(switches, o.switches, done, first, vid)
    requires !o.raised ==> Ends(switches, o.switches, first)
    ensures var end := EndOf(o.switches, e, first, true);
            var o' := if o.raised || end.None? then Outcome(o.switches, true)
                      else Outcome(AddVid(o.switches, end.value.0, end.value.1, vid), false);
            var done' := if done == links && EndOf(switches, e, first, true).Some? then links + [e] else done;
            (o'.raised <==> done' != links + [e]) && JustSet(switches, o'.switches, done', first, vid)
  {
    if !o.raised && EndOf(o.switches, e, first, true).Some? {
      JustSetOneMore(switches, o.switches, links, e, first, vid);
    }
  }

  // ---------------------------------------------------------------- the graph built afresh

  /** On mutual halves the port that is set is an end of the very link that lacks the VLAN. */
  lemma FirstEndOfItsLink(hs: seq<Half>, e: Edge, first: Edge -> string, h: Half)
    requires Consistent(hs) && Mutual(hs) && Describes(hs, e) && h in hs
    ensures IsFirstEnd(e, first, h) <==> e.ports == LinkOf(h) && first(e) == h.node
  {
    var g :| g in hs && LinkOf(g) == e.ports;
    assert g.node != g.neighbor && h.node != h.neighbor;
    if IsFirstEnd(e, first, h) {
      if h.node == g.node {
        var i :| 0 <= i < |hs| && hs[i] == g;
        var j :| 0 <= j < |hs| && hs[j] == h;
        assert LinkOf(g)[g.node] == g.port;
      } else {
        assert LinkOf(g)[g.neighbor] == g.remotePort;
        assert LinkOf(h) == LinkOf(g);
      }
    } else if e.ports == LinkOf(h) {
      assert LinkOf(h)[h.node] == h.port;
    }
  }

  // ---------------------------------------------------------------- one request that comes back

  /** The halves before and after a request, and the graphs of both. */
  datatype Request = Request(
    hs: seq<Half>, edges: seq<Edge>, hs': seq<Half>, edges': seq<Edge>,
    first: Edge -> string, managed: set<string>, vid: int)

  ghost predicate Served(r: Request) {
    && Consistent(r.hs) && Mutual(r.hs) && GraphOf(r.hs, r.edges)
    && r.hs' == AllAfterLinks(r.hs, Lacking(r.edges, r.managed, r.vid), r.first, r.vid) && GraphOf(r.hs', r.edges')
  }

  ghost function After(r: Request, h: Half): Half {
    AfterLinks(h, Lacking(r.edges, r.managed, r.vid), r.first, r.vid)
  }

  /** A half gets the VLAN exactly when it is the first end of a link that lacks it. */
  lemma AfterHalf(r: Request, h: Half, e: Edge)
    requires Served(r) && h in r.hs && e in r.edges && e.ports == LinkOf(h)
    ensures var more := Lacks(e, r.managed, r.vid) && r.first(e) == h.node;
            After(r, h) == if more then h.(vlans := h.vlans + {r.vid}) else h
    ensures After(r, h) in r.hs'
  {
    var only := EdgeOf(r.hs, r.edges, h);
    FirstEndOfItsLink(r.hs, e, r.first, h);
    IsSetMeaning(h, Lacking(r.edges, r.managed, r.vid), r.first);
    forall d | d in Lacking(r.edges, r.managed, r.vid) && IsFirstEnd(d, r.first, h)
      ensures d == e
    {
      FirstEndOfItsLink(r.hs, d, r.first, h);
    }
    var i :| 0 <= i < |r.hs| && r.hs[i] == h;
    assert r.hs'[i] == After(r, h);
  }

  lemma BeforeHalf(r: Request, h': Half) returns (h: Half)
    requires Served(r) && h' in r.hs'
    ensures h in r.hs && h' == After(r, h) && LinkOf(h') == LinkOf(h)
  {
    var i :| 0 <= i < |r.hs'| && r.hs'[i] == h';
    h := r.hs[i];
  }

  // ---------------------------------------------------------------- one link, before and after

  /** A link that did not lack the VLAN keeps its edge, errors included. */
  lemma KeptEdge(r: Request, e: Edge)
    requires Served(r) && e in r.edges && !Lacks(e, r.managed, r.vid)
    ensures e in r.edges' && forall f :: f in r.edges' && f.ports == e.ports ==> f == e
  {
    forall h: Half | LinkOf(h) == e.ports
      ensures h in r.hs <==> h in r.hs'
    {
      if h in r.hs {
        AfterHalf(r, h, e);
      }
      if h in r.hs' {
        var g := BeforeHalf(r, h);
        AfterHalf(r, g, e);
      }
    }
    var h :| h in r.hs && LinkOf(h) == e.ports;
    var e' := EdgeOf(r.hs', r.edges', h);
    DescribedOnce(r.hs, r.hs', e, e');
  }

  ghost predicate FirstSeen(r: Request, e: Edge) {
    exists h :: h in r.hs && LinkOf(h) == e.ports && h.node == r.first(e)
  }

  /** Of a link that lacked the VLAN its first end has it now, if it is seen, and its other end does not. */
  lemma LackingHalf(r: Request, e: Edge, h: Half)
    requires Served(r) && e in r.edges && Lacks(e, r.managed, r.vid) && h in r.hs && LinkOf(h) == e.ports
    ensures After(r, h) in r.hs' && LinkOf(After(r, h)) == e.ports && After(r, h).node == h.node
    ensures After(r, h).vlans == if h.node == r.first(e) then h.vlans + {r.vid} else h.vlans
    ensures h.vlans <= e.vlans && r.vid !in h.vlans
  {
    AfterHalf(r, h, e);
    CarriedByEdge(r.hs, e, h);
  }

  lemma LinkCarries(r: Request, e: Edge, h: Half, v: int)
    requires Served(r) && e in r.edges && Lacks(e, r.managed, r.vid) && h in r.hs && LinkOf(h) == e.ports
    requires v in After(r, h).vlans
    ensures Carries(r.hs', e.ports, v)
    ensures v in e.vlans || (v == r.vid && FirstSeen(r, e))
  {
    LackingHalf(r, e, h);
  }

  lemma LackingEdgeCarries(r: Request, e: Edge, e': Edge, v: int)
    requires Served(r) && e in r.edges && Lacks(e, r.managed, r.vid)
    requires e' in r.edges' && e'.ports == e.ports
    ensures v in e'.vlans <==> v in e.vlans || (v == r.vid && FirstSeen(r, e))
  {
    assert v in e.vlans <==> Carries(r.hs, e.ports, v);
    assert v in e'.vlans <==> Carries(r.hs', e.ports, v);
    if h' :| h' in r.hs' && LinkOf(h') == e.ports && v in h'.vlans {
      var h := BeforeHalf(r, h');
      LinkCarries(r, e, h, v);
    }
    if h :| h in r.hs && LinkOf(h) == e.ports && v in h.vlans {
      LackingHalf(r, e, h);
      LinkCarries(r, e, h, v);
    }
    if h :| h in r.hs && LinkOf(h) == e.ports && h.node == r.first(e) && v == r.vid {
      LackingHalf(r, e, h);
      LinkCarries(r, e, h, v);
    }
  }

  lemma EdgeVlansAfter(r: Request, e: Edge, e': Edge)
    requires Served(r) && e in r.edges && Lacks(e, r.managed, r.vid)
    requires e' in r.edges' && e'.ports == e.ports
    ensures e'.vlans == if FirstSeen(r, e) then e.vlans + {r.vid} else e.vlans
  {
    forall v
      ensures v in e'.vlans <==> v in e.vlans || (v == r.vid && FirstSeen(r, e))
    {
      LackingEdgeCarries(r, e, e', v);
    }
  }

  /**
   * The edge of a link that lacked the VLAN carries it afterwards exactly when the end that was set is
   * seen, and otherwise its VLANs are as before. The other end, if it is seen, carries what it carried and
   * is now known to miss the VLAN: one end of every such link has it, and never both.
   */
  lemma LackingEdge(r: Request, e: Edge, e': Edge, h: Half)
    requires Served(r) && e in r.edges && Lacks(e, r.managed, r.vid)
    requires e' in r.edges' && e'.ports == e.ports && h in r.hs && LinkOf(h) == e.ports
    ensures e'.vlans == if FirstSeen(r, e) then e.vlans + {r.vid} else e.vlans
    ensures h.node == r.first(e) ==> h.(vlans := h.vlans + {r.vid}) in r.hs' && r.vid !in e'.missing[h.node]
    ensures h.node != r.first(e) ==> h in r.hs' && (FirstSeen(r, e) <==> r.vid in e'.missing[h.node])
  {
    EdgeVlansAfter(r, e, e');
    LackingHalf(r, e, h);
    var h' := After(r, h);
    assert e'.missing[h'.node] == e'.vlans - h'.vlans by {
      assert Describes(r.hs', e');
    }
  }

  // ---------------------------------------------------------------- the overlay

  ghost function LinksOf(edges: seq<Edge>): set<map<string, string>> {
    set e | e in edges :: e.ports
  }

  /** The links of `get_vlan_overlay` between managed switches, and those of the backbone. */
  ghost function OverlayLinks(edges: seq<Edge>, managed: set<string>, vid: int): set<map<string, string>> {
    set e | e in edges && InBackbone(e, managed) && vid in e.vlans :: e.ports
  }

  ghost function BackboneLinks(edges: seq<Edge>, managed: set<string>): set<map<string, string>> {
    set e | e in edges && InBackbone(e, managed) :: e.ports
  }

  lemma LinkStays(r: Request, e: Edge) returns (e': Edge)
    requires Served(r) && e in r.edges
    ensures e' in r.edges' && e'.ports == e.ports
  {
    var h :| h in r.hs && LinkOf(h) == e.ports;
    AfterHalf(r, h, e);
    e' := EdgeOf(r.hs', r.edges', After(r, h));
  }

  lemma LinkWasThere(r: Request, e': Edge) returns (e: Edge)
    requires Served(r) && e' in r.edges'
    ensures e in r.edges && e'.ports == e.ports
  {
    var h' :| h' in r.hs' && LinkOf(h') == e'.ports;
    var h := BeforeHalf(r, h');
    e := EdgeOf(r.hs, r.edges, h);
  }

  lemma SameLinks(r: Request)
    requires Served(r)
    ensures LinksOf(r.edges') == LinksOf(r.edges)
    ensures BackboneLinks(r.edges', r.managed) == BackboneLinks(r.edges, r.managed)
  {
    forall link
      ensures link in LinksOf(r.edges) <==> link in LinksOf(r.edges')
    {
      if e :| e in r.edges && e.ports == link {
        var e' := LinkStays(r, e);
      }
      if e' :| e' in r.edges' && e'.ports == link {
        var e := LinkWasThere(r, e');
      }
    }
    BackboneOfLinks(r.edges, r.managed);
    BackboneOfLinks(r.edges', r.managed);
  }

  lemma BackboneOfLinks(edges: seq<Edge>, managed: set<string>)
    ensures BackboneLinks(edges, managed) == set link | link in LinksOf(edges) && link.Keys <= managed
  {
  }

  /** A backbone link carries the VLAN afterwards unless it lacked it and the end that was set is not seen. */
  lemma CarriesAfter(r: Request, e: Edge, e': Edge)
    requires Served(r) && e in r.edges && InBackbone(e, r.managed)
    requires e' in r.edges' && e'.ports == e.ports
    ensures r.vid in e'.vlans <==> !Lacks(e, r.managed, r.vid) || FirstSeen(r, e)
  {
    if Lacks(e, r.managed, r.vid) {
      LackingEdgeCarries(r, e, e', r.vid);
    } else {
      KeptEdge(r, e);
    }
  }

  ghost predicate CarriedOn(edges: seq<Edge>, link: map<string, string>, vid: int) {
    exists e :: e in edges && e.ports == link && vid in e.vlans
  }

  lemma WholeBackbone(edges: seq<Edge>, managed: set<string>, vid: int)
    ensures OverlayLinks(edges, managed, vid) == BackboneLinks(edges, managed)
       <==> forall link :: link in BackboneLinks(edges, managed) ==> CarriedOn(edges, link, vid)
  {
    forall link
      ensures link in OverlayLinks(edges, managed, vid) <==> link.Keys <= managed && CarriedOn(edges, link, vid)
    {
    }
  }

  lemma CarriedAfter(r: Request, e: Edge)
    requires Served(r) && e in r.edges && InBackbone(e, r.managed)
    ensures CarriedOn(r.edges', e.ports, r.vid) <==> !Lacks(e, r.managed, r.vid) || FirstSeen(r, e)
  {
    var e' := LinkStays(r, e);
    CarriesAfter(r, e, e');
    if f :| f in r.edges' && f.ports == e.ports && r.vid in f.vlans {
      CarriesAfter(r, e, f);
    }
  }

  /**
   * After a request that comes back the graph has the same links, and the links of the VLAN are those of
   * the backbone exactly when of every link that lacked it the end that was set is seen.
   */
  lemma OverlayIsBackbone(r: Request)
    requires Served(r)
    ensures LinksOf(r.edges') == LinksOf(r.edges)
    ensures BackboneLinks(r.edges', r.managed) == BackboneLinks(r.edges, r.managed)
    ensures OverlayLinks(r.edges', r.managed, r.vid) == BackboneLinks(r.edges', r.managed)
       <==> forall e :: e in r.edges && Lacks(e, r.managed, r.vid) ==> FirstSeen(r, e)
  {
    SameLinks(r);
    WholeBackbone(r.edges', r.managed, r.vid);
    forall e | e in r.edges && InBackbone(e, r.managed)
      ensures e.ports in BackboneLinks(r.edges, r.managed)
      ensures CarriedOn(r.edges', e.ports, r.vid) <==> !Lacks(e, r.managed, r.vid) || FirstSeen(r, e)
    {
      CarriedAfter(r, e);
    }
  }

  // ---------------------------------------------------------------- the request on the switches

  lemma AfterConsistent(hs: seq<Half>, links: seq<Edge>, first: Edge -> string, vid: int)
    requires Consistent(hs)
    ensures Consistent(AllAfterLinks(hs, links, first, vid))
  {
    assert forall i :: 0 <= i < |hs| ==> hs[i] in hs;
  }

  /**
   * Repaired, on switches with distinct names whose ports see each other mutually, the request comes back
   * exactly when of every link that lacks the VLAN the end to be set is a port of its switch; and then
   * the switches and the graph built afresh are those of a served request. In either case just the ends
   * of the links up to the first such link are set.
   */
  lemma RepairedExact(switches: seq<Switch>, first: Edge -> string, vid: int)
    requires DistinctNames(switches) && NoLoops(switches) && MutualPorts(switches)
    ensures var hs, managed := Halves(switches), Managed(switches);
            var edges := Build([], hs);
            var o := SetBackbone(switches, edges, first, vid, true);
            var hs' := Halves(o.switches);
            && (o.raised <==> exists e :: e in edges && Lacks(e, managed, vid) && EndOf(switches, e, first, true).None?)
            && (!o.raised ==> Served(Request(hs, edges, hs', Build([], hs'), first, managed, vid)))
            && JustSet(switches, o.switches, LinksSet(switches, Lacking(edges, managed, vid), first), first, vid)
  {
    var hs, managed := Halves(switches), Managed(switches);
    var edges := Build([], hs);
    var links := Lacking(edges, managed, vid);
    HalvesConsistent(switches);
    HalvesMutual(switches);
    BuildGraphOf(hs);
    SetLinksExact(switches, links, first, vid);
    SetLinksJust(switches, links, first, vid);
    AfterConsistent(hs, links, first, vid);
    BuildGraphOf(AllAfterLinks(hs, links, first, vid));
  }
}
