/** Between which switches a VLAN passes: along walks over links that carry it at both ends. */
module BackboneReach {
  import opened Common
  import opened KeyedList
  import opened Topology
  import opened Backbone
  import opened BackboneRepaired

  // ---------------------------------------------------------------- links that carry the VLAN at both ends

  ghost predicate Passes(hs: seq<Half>, link: map<string, string>, vid: int) {
    exists g, h :: g in hs && h in hs && PassesAt(g, h, link, vid)
  }

  predicate PassesAt(g: Half, h: Half, link: map<string, string>, vid: int) {
    g.node != h.node && LinkOf(g) == link && LinkOf(h) == link && vid in g.vlans && vid in h.vlans
  }

  /** The backbone links over which frames of the VLAN get from one switch to the other. */
  ghost function PassingLinks(r: Request, hs: seq<Half>): set<map<string, string>> {
    set link | link in BackboneLinks(r.edges, r.managed) && Passes(hs, link, r.vid)
  }

  /** A request sets one end of links that carry the VLAN at neither, so no link comes to pass it, and none stops. */
  lemma PassingUnchanged(r: Request, e: Edge)
    requires Served(r) && e in r.edges
    ensures Passes(r.hs', e.ports, r.vid) <==> Passes(r.hs, e.ports, r.vid)
  {
    if g, h :| g in r.hs && h in r.hs && PassesAt(g, h, e.ports, r.vid) {
      CarriedByEdge(r.hs, e, g);
      AfterHalf(r, g, e);
      AfterHalf(r, h, e);
      assert g in r.hs' && h in r.hs';
    }
    if g', h' :| g' in r.hs' && h' in r.hs' && PassesAt(g', h', e.ports, r.vid) {
      var g := BeforeHalf(r, g');
      var h := BeforeHalf(r, h');
      AfterHalf(r, g, e);
      AfterHalf(r, h, e);
      CarriedByEdge(r.hs, e, g);
      CarriedByEdge(r.hs, e, h);
      assert PassesAt(g, h, e.ports, r.vid);
    }
  }

  // ---------------------------------------------------------------- walks

  /** A walk along links, each of which joins a node to the next one. */
  ghost predicate Walk(links: set<map<string, string>>, nodes: seq<string>) {
    forall i, j :: 0 <= i && j == i + 1 && j < |nodes| ==> Adjacent(links, nodes[i], nodes[j])
  }

  ghost predicate Adjacent(links: set<map<string, string>>, a: string, b: string) {
    exists link :: link in links && a in link && b in link
  }

  ghost predicate WalkFrom(links: set<map<string, string>>, nodes: seq<string>, a: string, b: string) {
    nodes != [] && nodes[0] == a && nodes[|nodes| - 1] == b && Walk(links, nodes)
  }

  ghost predicate Joined(links: set<map<string, string>>, a: string, b: string) {
    exists nodes :: WalkFrom(links, nodes, a, b)
  }

  lemma JoinedToItself(links: set<map<string, string>>, a: string)
    ensures Joined(links, a, a)
  {
    assert WalkFrom(links, [a], a, a);
  }

  lemma JoinedByOne(links: set<map<string, string>>, link: map<string, string>, a: string, b: string)
    requires link in links && a in link && b in link
    ensures Joined(links, a, b)
  {
    assert Adjacent(links, a, b);
    assert WalkFrom(links, [a, b], a, b);
  }

  lemma JoinedOn(links: set<map<string, string>>, a: string, b: string, c: string)
    requires Joined(links, a, b) && Joined(links, b, c)
    ensures Joined(links, a, c)
  {
    var there :| WalkFrom(links, there, a, b);
    var onward :| WalkFrom(links, onward, b, c);
    var nodes := there + onward[1..];
    forall i, j | 0 <= i && j == i + 1 && j < |nodes|
      ensures Adjacent(links, nodes[i], nodes[j])
    {
      if j < |there| {
        assert Adjacent(links, there[i], there[j]);
      } else {
        var k := i - |there| + 1;
        assert nodes[i] == onward[k] && nodes[j] == onward[k + 1];
        assert Adjacent(links, onward[k], onward[k + 1]);
      }
    }
    assert WalkFrom(links, nodes, a, c);
  }

  /** All ends of the link are joined by the links. */
  ghost predicate Bridged(links: set<map<string, string>>, link: map<string, string>) {
    forall x, y :: x in link && y in link ==> Joined(links, x, y)
  }

  lemma {:induction false} WalkBridged(
    links: set<map<string, string>>, whole: set<map<string, string>>, nodes: seq<string>, a: string, b: string)
    requires WalkFrom(whole, nodes, a, b) && forall link :: link in whole ==> Bridged(links, link)
    ensures Joined(links, a, b)
    decreases |nodes|
  {
    if |nodes| == 1 {
      JoinedToItself(links, a);
    } else {
      var before := nodes[|nodes| - 2];
      assert Adjacent(whole, before, nodes[|nodes| - 1]);
      assert WalkFrom(whole, Front(nodes), a, before);
      WalkBridged(links, whole, Front(nodes), a, before);
      JoinedOn(links, a, before, b);
    }
  }

  /** Some links reach as far as the whole exactly when they join the ends of each link of the whole. */
  lemma ReachExact(links: set<map<string, string>>, whole: set<map<string, string>>)
    ensures (forall a, b :: Joined(whole, a, b) ==> Joined(links, a, b))
       <==> (forall link :: link in whole ==> Bridged(links, link))
  {
    if forall link :: link in whole ==> Bridged(links, link) {
      forall a, b | Joined(whole, a, b)
        ensures Joined(links, a, b)
      {
        var nodes :| WalkFrom(whole, nodes, a, b);
        WalkBridged(links, whole, nodes, a, b);
      }
    }
    if forall a, b :: Joined(whole, a, b) ==> Joined(links, a, b) {
      forall link, x, y | link in whole && x in link && y in link
        ensures Joined(links, x, y)
      {
        JoinedByOne(whole, link, x, y);
      }
    }
  }

  // ---------------------------------------------------------------- what the request achieves

  /** The VLAN passes, over links that carry it at both ends, between any two switches that the backbone joins. */
  ghost predicate PassesEverywhere(r: Request, hs: seq<Half>) {
    forall a, b :: Joined(BackboneLinks(r.edges, r.managed), a, b) ==> Joined(PassingLinks(r, hs), a, b)
  }

  /**
   * The overlay of the VLAN becomes the whole backbone, yet the VLAN passes no link that it did not pass
   * before. So after the request it passes everywhere if and only if before the request it already joined
   * the ends of every backbone link.
   */
  lemma PassesAfterExact(r: Request)
    requires Served(r)
    ensures PassingLinks(r, r.hs') == PassingLinks(r, r.hs)
    ensures PassesEverywhere(r, r.hs')
       <==> forall link :: link in BackboneLinks(r.edges, r.managed) ==> Bridged(PassingLinks(r, r.hs), link)
  {
    forall e | e in r.edges
      ensures Passes(r.hs', e.ports, r.vid) <==> Passes(r.hs, e.ports, r.vid)
    {
      PassingUnchanged(r, e);
    }
    assert PassingLinks(r, r.hs') == PassingLinks(r, r.hs);
    ReachExact(PassingLinks(r, r.hs), BackboneLinks(r.edges, r.managed));
  }

  /** A VLAN that was on no backbone link: after the request it passes from no switch to another. */
  lemma NewVlanPassesNowhere(r: Request, a: string, b: string)
    requires Served(r) && forall e :: e in r.edges && InBackbone(e, r.managed) ==> Lacks(e, r.managed, r.vid)
    ensures Joined(PassingLinks(r, r.hs'), a, b) <==> a == b
  {
    PassesAfterExact(r);
    forall link | link in BackboneLinks(r.edges, r.managed)
      ensures !Passes(r.hs, link, r.vid)
    {
      var e :| e in r.edges && InBackbone(e, r.managed) && e.ports == link;
      forall h | h in r.hs && LinkOf(h) == link
        ensures r.vid !in h.vlans
      {
        CarriedByEdge(r.hs, e, h);
      }
    }
    assert PassingLinks(r, r.hs') == {};
    NoLinksNoWalk(a, b);
  }

  lemma NoLinksNoWalk(a: string, b: string)
    ensures Joined({}, a, b) <==> a == b
  {
    JoinedToItself({}, a);
    if nodes :| WalkFrom({}, nodes, a, b) {
      if |nodes| > 1 {
        assert Adjacent({}, nodes[0], nodes[1]);
      }
    }
  }

  // ---------------------------------------------------------------- what it would take

  /** Both ends of every backbone link set, instead of one end of those that lack the VLAN. */
  function SetBothEnds(hs: seq<Half>, managed: set<string>, vid: int): (r: seq<Half>)
    ensures |r| == |hs|
    ensures forall i :: 0 <= i < |hs| ==>
      r[i] == if LinkOf(hs[i]).Keys <= managed then hs[i].(vlans := hs[i].vlans + {vid}) else hs[i]
  {
    seq(|hs|, i requires 0 <= i < |hs| =>
      if LinkOf(hs[i]).Keys <= managed then hs[i].(vlans := hs[i].vlans + {vid}) else hs[i])
  }

  ghost predicate SeenFromBothEnds(hs: seq<Half>, link: map<string, string>) {
    exists g, h :: g in hs && h in hs && g.node != h.node && LinkOf(g) == link && LinkOf(h) == link
  }

  ghost function SeenLinks(r: Request): set<map<string, string>> {
    set link | link in BackboneLinks(r.edges, r.managed) && SeenFromBothEnds(r.hs, link)
  }

  lemma SetOnLink(r: Request, h: Half)
    requires h in r.hs && LinkOf(h).Keys <= r.managed
    ensures h.(vlans := h.vlans + {r.vid}) in SetBothEnds(r.hs, r.managed, r.vid)
  {
    var i :| 0 <= i < |r.hs| && r.hs[i] == h;
    assert SetBothEnds(r.hs, r.managed, r.vid)[i] == h.(vlans := h.vlans + {r.vid});
  }

  lemma WasOnLink(r: Request, h: Half) returns (g: Half)
    requires h in SetBothEnds(r.hs, r.managed, r.vid)
    ensures g in r.hs && g.node == h.node && LinkOf(g) == LinkOf(h)
  {
    var i :| 0 <= i < |r.hs| && SetBothEnds(r.hs, r.managed, r.vid)[i] == h;
    g := r.hs[i];
  }

  lemma PassesIfSeen(r: Request, link: map<string, string>)
    requires link.Keys <= r.managed
    ensures Passes(SetBothEnds(r.hs, r.managed, r.vid), link, r.vid) <==> SeenFromBothEnds(r.hs, link)
  {
    if g, h :| g in r.hs && h in r.hs && g.node != h.node && LinkOf(g) == link && LinkOf(h) == link {
      SetOnLink(r, g);
      SetOnLink(r, h);
      assert PassesAt(g.(vlans := g.vlans + {r.vid}), h.(vlans := h.vlans + {r.vid}), link, r.vid);
    }
    var both := SetBothEnds(r.hs, r.managed, r.vid);
    if g', h' :| g' in both && h' in both && PassesAt(g', h', link, r.vid) {
      var g := WasOnLink(r, g');
      var h := WasOnLink(r, h');
    }
  }

  /**
   * With both ends of every backbone link set the VLAN passes everywhere if and only if the links seen
   * from both ends already join the ends of every backbone link.
   */
  lemma BothEndsExact(r: Request)
    ensures PassesEverywhere(r, SetBothEnds(r.hs, r.managed, r.vid))
       <==> forall link :: link in BackboneLinks(r.edges, r.managed) ==> Bridged(SeenLinks(r), link)
  {
    var both := SetBothEnds(r.hs, r.managed, r.vid);
    forall link | link in BackboneLinks(r.edges, r.managed)
      ensures Passes(both, link, r.vid) <==> SeenFromBothEnds(r.hs, link)
    {
      PassesIfSeen(r, link);
    }
    assert PassingLinks(r, both) == SeenLinks(r);
    ReachExact(SeenLinks(r), BackboneLinks(r.edges, r.managed));
  }
}
