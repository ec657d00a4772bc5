/** Parsing one configuration after another is parsing both and merging the second into the first by key. */
module FrrMerge {
  import opened Common
  import opened KeyedList
  import opened FrrParser

  function Later<T>(first: Option<T>, second: Option<T>): Option<T> {
    if second.Some? then second else first
  }

  function MergeNeighbor(a: Neighbor, b: Neighbor): Neighbor {
    Neighbor(a.ip, Later(a.remoteAs, b.remoteAs), Later(a.description, b.description), Later(a.ipSource, b.ipSource))
  }

  function MergeRouter(a: Router, b: Router): Router {
    Router(a.asn, a.vrf, Merged(NeighborKey, MergeNeighbor, a.neighbors, b.neighbors), a.families + b.families)
  }

  function MergeConfig(a: Config, b: Config): Config {
    Config(Later(a.version, b.version), Later(a.defaults, b.defaults), Later(a.hostname, b.hostname),
           a.agentx || b.agentx, Later(a.service, b.service),
           Merged(RouterKey, MergeRouter, a.routers, b.routers), a.routes + b.routes)
  }

  /** A parse that started from nothing, seen as one that started from `base`. */
  function Lift(base: Config, s: State): State {
    s.(config := MergeConfig(base, s.config))
  }

  function LiftOption(base: Config, s: Option<State>): Option<State> {
    if s.None? then None else Some(Lift(base, s.value))
  }

  lemma UpsertMerged(xs: seq<Neighbor>, ys: seq<Neighbor>, ip: string, a: Attribute)
    ensures Merged(NeighborKey, MergeNeighbor, xs, Upsert(ys, ip, a))
         == Upsert(Merged(NeighborKey, MergeNeighbor, xs, ys), ip, a)
  {
    var merged := Merged(NeighborKey, MergeNeighbor, xs, ys);
    HasMerged(NeighborKey, MergeNeighbor, xs, ys, ip);
    if Has(NeighborKey, ys, ip) {
      MergedEdit(NeighborKey, MergeNeighbor, SetAttribute, xs, ys, ip, a);
    } else {
      var added := SetAttribute(Neighbor(ip, None, None, None), a);
      MergedAppend(NeighborKey, MergeNeighbor, xs, ys, added);
      assert EditBy(NeighborKey, MergeNeighbor, merged, ip, added) == EditBy(NeighborKey, SetAttribute, merged, ip, a);
    }
  }

  lemma ApplyMerged(x: Router, y: Router, c: Change)
    requires c.Redistribute? || c.ImportVrf? ==> y.families != []
    ensures MergeRouter(x, ApplyChange(y, c)) == ApplyChange(MergeRouter(x, y), c)
  {
    match c
    case SetNeighbor(ip, a) =>
      UpsertMerged(x.neighbors, y.neighbors, ip, a);
    case OpenFamily(f) =>
      assert x.families + (y.families + [f]) == (x.families + y.families) + [f];
    case _ =>
      assert Last(x.families + y.families) == Last(y.families);
      assert Front(x.families + y.families) == x.families + Front(y.families);
      assert x.families + InLastFamily(y.families, c) == InLastFamily(x.families + y.families, c);
  }

  lemma EditLifted(base: Config, s: State, c: Change)
    requires Invariant(s) && s.router.Some?
    requires c.Redistribute? || c.ImportVrf? ==> s.inFamily
    ensures EditOpen(Lift(base, s), c) == Lift(base, EditOpen(s, c))
  {
    forall x: Router, y: Router | y in s.config.routers && RouterKey(y) == s.router.value
      ensures MergeRouter(x, ApplyChange(y, c)) == ApplyChange(MergeRouter(x, y), c)
    {
      ApplyMerged(x, y, c);
    }
    MergedEdit(RouterKey, MergeRouter, ApplyChange, base.routers, s.config.routers, s.router.value, c);
  }

  lemma WithRouterLifted(base: seq<Router>, routers: seq<Router>, key: (string, string))
    ensures WithRouter(Merged(RouterKey, MergeRouter, base, routers), key)
         == Merged(RouterKey, MergeRouter, base, WithRouter(routers, key))
  {
    var merged := Merged(RouterKey, MergeRouter, base, routers);
    HasMerged(RouterKey, MergeRouter, base, routers, key);
    if !Has(RouterKey, routers, key) {
      var empty := Router(key.0, key.1, [], []);
      MergedAppend(RouterKey, MergeRouter, base, routers, empty);
      forall r: Router
        ensures MergeRouter(r, empty) == r
      {
        MergedNothing(NeighborKey, MergeNeighbor, r.neighbors);
      }
      assert EditBy(RouterKey, MergeRouter, merged, key, empty) == merged;
    }
  }

  lemma StepLifted(base: Config, s: State, line: Line)
    requires Invariant(s)
    ensures Step(Lift(base, s), line) == LiftOption(base, Step(s, line))
  {
    if !Skipped(line) {
      if s.router.Some? {
        StepInRouterLifted(base, s, line);
      } else {
        StepOutsideLifted(base, s, line);
      }
    }
  }

  lemma StepInRouterLifted(base: Config, s: State, line: Line)
    requires Invariant(s) && s.router.Some? && line != []
    ensures StepInRouter(Lift(base, s), line) == LiftOption(base, StepInRouter(s, line))
  {
    if s.inFamily {
      if Starts(line, "redistribute") && |line| > 1 {
        EditLifted(base, s, Redistribute(line[1]));
      } else if StartsTwo(line, "import", "vrf") && |line| > 2 {
        EditLifted(base, s, ImportVrf(line[2]));
      }
    } else if Starts(line, "neighbor") {
      if AttributeOf(line).Some? {
        EditLifted(base, s, SetNeighbor(line[1], AttributeOf(line).value));
      }
    } else if Starts(line, "address-family") && |line| > 2 {
      EditLifted(base, s, OpenFamily(Family(line[1], line[2], [], [])));
    }
  }

  lemma StepOutsideLifted(base: Config, s: State, line: Line)
    requires Invariant(s) && s.router.None? && line != []
    ensures StepOutside(Lift(base, s), line) == LiftOption(base, StepOutside(s, line))
  {
    if StartsTwo(line, "router", "bgp") && |line| > 2 {
      WithRouterLifted(base.routers, s.config.routers, (line[2], if |line| > 4 then line[4] else DEFAULT));
    } else if StartsTwo(line, "ip", "route") && |line| > 2 {
      var route := Route(line[2], if |line| > 3 then Some(line[3]) else None,
                         if s.vrf.None? then DEFAULT else s.vrf.value);
      assert base.routes + (s.config.routes + [route]) == (base.routes + s.config.routes) + [route];
    }
  }

  lemma {:induction false} RunLifted(base: Config, lines: seq<Line>)
    ensures Run(StartOn(base), lines) == LiftOption(base, Run(StartOn(EMPTY), lines))
  {
    if lines == [] {
      MergedNothing(RouterKey, MergeRouter, base.routers);
      assert base.routes + EMPTY.routes == base.routes;
    } else {
      RunLifted(base, Front(lines));
      if Run(StartOn(EMPTY), Front(lines)).Some? {
        RunKeeps(StartOn(EMPTY), Front(lines));
        StepLifted(base, Run(StartOn(EMPTY), Front(lines)).value, Last(lines));
      }
    }
  }

  /** The lines parse and leave no router, address family or VRF open. */
  ghost predicate Closed(lines: seq<Line>) {
    var end := Run(StartOn(EMPTY), lines);
    end.Some? && end.value == StartOn(end.value.config)
  }

  /**
   * Parsing `a` followed by `b`, where `a` leaves nothing open, is parsing both and merging the
   * sections of `b` into those of `a` by key; it stops with an error exactly when `b` does.
   */
  lemma ParseConcat(a: seq<Line>, b: seq<Line>)
    requires Closed(a)
    ensures Parse(a + b) == if Parse(b).None? then None else Some(MergeConfig(Parse(a).value, Parse(b).value))
    ensures Closed(b) ==> Closed(a + b)
  {
    RunConcat(StartOn(EMPTY), a, b);
    RunLifted(Parse(a).value, b);
  }
}
