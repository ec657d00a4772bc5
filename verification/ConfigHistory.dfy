/** The bounded history of switch configurations. */
module ConfigHistory {
  import opened Common

  const LIMIT: nat := 100

  /** Whether the configuration differs from the one before it, or there is none before it. */
  predicate IsNew(seen: seq<string>, cfg: string) {
    seen == [] || Last(seen) != cfg
  }

  /** The configurations with adjacent repeats removed. */
  function Distinct(cfgs: seq<string>): seq<string> {
    if cfgs == [] then []
    else if IsNew(Front(cfgs), Last(cfgs)) then Distinct(Front(cfgs)) + [Last(cfgs)]
    else Distinct(Front(cfgs))
  }

  function Newest(s: seq<string>): (r: seq<string>)
    ensures |r| <= LIMIT
  {
    if |s| <= LIMIT then s else s[|s| - LIMIT..]
  }

  lemma {:induction false} DistinctLast(cfgs: seq<string>)
    ensures cfgs != [] ==> Distinct(cfgs) != [] && Last(Distinct(cfgs)) == Last(cfgs)
  {
    if cfgs != [] {
      DistinctLast(Front(cfgs));
    }
  }

  /** The history after all these configurations: exactly the newest distinct ones, the last one last. */
  ghost predicate Reached(cfgs: seq<string>, history: seq<string>, last: Option<string>) {
    && history == Newest(Distinct(cfgs))
    && last == if cfgs == [] then None else Some(Last(cfgs))
  }

  /** No entry repeats the one before it. */
  ghost predicate Changing(s: seq<string>) {
    forall i, j :: 0 <= i && j == i + 1 && j < |s| ==> s[i] != s[j]
  }

  lemma {:induction false} DistinctChanging(cfgs: seq<string>)
    ensures Changing(Distinct(cfgs))
  {
    if cfgs != [] {
      DistinctChanging(Front(cfgs));
      DistinctLast(Front(cfgs));
    }
  }

  /** The `k`-th configuration stored is the first, or differs from the one stored before it. */
  predicate IsChange(cfgs: seq<string>, k: nat) {
    k < |cfgs| && (k == 0 || cfgs[k] != cfgs[k - 1])
  }

  /** In order, all the places at which the configuration changed. */
  ghost predicate AllChanges(cfgs: seq<string>, at: seq<nat>) {
    && (forall i, j :: 0 <= i < j < |at| ==> at[i] < at[j])
    && (forall k: nat :: k in at <==> IsChange(cfgs, k))
  }

  /** What was stored at the last hundred of these places, or at all of them. */
  ghost predicate LastStoredAt(cfgs: seq<string>, at: seq<nat>, history: seq<string>) {
    && |history| == (if |at| < 100 then |at| else 100)
    && forall i :: 0 <= i < |history| ==>
         var k := at[|at| - |history| + i];
         k < |cfgs| && history[i] == cfgs[k]
  }

  ghost function Changes(cfgs: seq<string>): seq<nat> {
    if cfgs == [] then []
    else Changes(Front(cfgs)) + if IsChange(cfgs, |cfgs| - 1) then [|cfgs| - 1] else []
  }

  lemma {:induction false} ChangesAre(cfgs: seq<string>)
    ensures AllChanges(cfgs, Changes(cfgs))
  {
    if cfgs != [] {
      var before := Changes(Front(cfgs));
      ChangesAre(Front(cfgs));
      forall i | 0 <= i < |before|
        ensures before[i] < |cfgs| - 1
      {
        assert before[i] in before;
      }
      assert forall k: nat :: k < |cfgs| - 1 ==> (IsChange(cfgs, k) <==> IsChange(Front(cfgs), k));
    }
  }

  lemma {:induction false} DistinctAre(cfgs: seq<string>)
    ensures var at := Changes(cfgs);
            |Distinct(cfgs)| == |at|
            && forall i :: 0 <= i < |at| ==> at[i] < |cfgs| && Distinct(cfgs)[i] == cfgs[at[i]]
  {
    if cfgs != [] {
      DistinctAre(Front(cfgs));
    }
  }

  lemma NewestAre(cfgs: seq<string>)
    ensures LastStoredAt(cfgs, Changes(cfgs), Newest(Distinct(cfgs)))
  {
    var all, history := Distinct(cfgs), Newest(Distinct(cfgs));
    DistinctAre(cfgs);
    assert forall i :: 0 <= i < |history| ==> history[i] == all[|all| - |history| + i];
  }

  /**
   * What the history is worth: it ends with the last configuration stored, never holds the same one twice
   * in a row, and is what was stored at the last hundred changes, or at all of them if there were fewer.
   */
  lemma ReachedMeaning(cfgs: seq<string>, history: seq<string>, last: Option<string>)
    requires Reached(cfgs, history, last)
    ensures last == if history == [] then None else Some(Last(history))
    ensures Changing(history)
    ensures exists at: seq<nat> :: AllChanges(cfgs, at) && LastStoredAt(cfgs, at, history)
  {
    DistinctLast(cfgs);
    DistinctChanging(cfgs);
    ChangesAre(cfgs);
    NewestAre(cfgs);
  }

  class SwitchHistory {
    var history: seq<string>
    var last: Option<string>
    ghost var stored: seq<string>

    ghost predicate Valid()
      reads this
    {
      Reached(stored, history, last)
    }

    constructor ()
      ensures Valid() && stored == []
    {
      history, last, stored := [], None, [];
    }

    method StoreConfig(cfg: string) returns (changed: bool)
      requires Valid()
      modifies this
      ensures Valid() && stored == old(stored) + [cfg]
      ensures changed == IsNew(old(stored), cfg)
    {
      assert Front(stored + [cfg]) == stored;
      stored := stored + [cfg];
      changed := last.None? || last.value != cfg;
      if changed {
        last := Some(cfg);
        history := history + [cfg];
        if |history| > LIMIT {
          history := history[1..];
        }
      }
    }
  }
}
