/** The difference of two keyed lists, such as the ports of a switch before and after, as a patch. */
module KeyedDiff {
  import opened Common
  import opened KeyedList

  datatype Diff<T> = Diff(added: seq<T>, changed: seq<T>, deleted: seq<T>)

  /** The elements of `first` that have a namesake in `second` and differ from it. */
  function Changed<T, K(==)>(key: T -> K, same: (T, T) -> bool, first: seq<T>, second: seq<T>): seq<T> {
    if first == [] then []
    else
      var x, found := Last(first), FindBy(key, second, key(Last(first)));
      Changed(key, same, Front(first), second)
      + if found.Some? && !same(x, second[found.value]) then [x] else []
  }

  /** List equality, element by element with the items' own `__eq__`. */
  predicate SameLists<T>(same: (T, T) -> bool, first: seq<T>, second: seq<T>) {
    |first| == |second| && forall i :: 0 <= i < |first| ==> same(first[i], second[i])
  }

  /** `check_difference`. */
  function Difference<T, K(==)>(key: T -> K, same: (T, T) -> bool, first: seq<T>, second: seq<T>): Diff<T> {
    if SameLists(same, first, second) then Diff([], [], [])
    else Diff(Missing(key, second, first), Changed(key, same, first, second), Missing(key, first, second))
  }

  method CheckDifference<T, K(==)>(key: T -> K, same: (T, T) -> bool, first: seq<T>, second: seq<T>)
    returns (d: Diff<T>)
    ensures d == Difference(key, same, first, second)
  {
    var added, changed, deleted := [], [], [];
    if !SameLists(same, first, second) {
      for i := 0 to |first|
        invariant added == Missing(key, second, first[..i]) && changed == Changed(key, same, first[..i], second)
      {
        assert Front(first[..i + 1]) == first[..i];
        var other := FindBy(key, second, key(first[i]));
        if other.None? {
          added := added + [first[i]];
        } else if !same(first[i], second[other.value]) {
          changed := changed + [first[i]];
        }
      }
      for i := 0 to |second|
        invariant deleted == Missing(key, first, second[..i])
      {
        assert Front(second[..i + 1]) == second[..i];
        var other := FindBy(key, first, key(second[i]));
        if other.None? {
          deleted := deleted + [second[i]];
        }
      }
      assert first[..|first|] == first && second[..|second|] == second;
    }
    d := Diff(added, changed, deleted);
  }

  // ---------------------------------------------------------------- the difference as a patch

  ghost function Lookup<T, K>(key: T -> K, xs: seq<T>, k: K): Option<T> {
    var found := FindBy(key, xs, k);
    if found.None? then None else Some(xs[found.value])
  }

  /** What holds for a key once the patch is applied to what held before. */
  ghost function Patch<T, K>(key: T -> K, before: Option<T>, d: Diff<T>, k: K): Option<T> {
    if Has(key, d.deleted, k) then None
    else if Has(key, d.changed, k) then Lookup(key, d.changed, k)
    else if Has(key, d.added, k) then Lookup(key, d.added, k)
    else before
  }

  /** What a list says of a key once the patch is applied to it. */
  ghost function Patched<T, K>(key: T -> K, xs: seq<T>, d: Diff<T>, k: K): Option<T> {
    Patch(key, Lookup(key, xs, k), d, k)
  }

  ghost predicate Agree<T>(same: (T, T) -> bool, a: Option<T>, b: Option<T>) {
    if a.None? then b.None? else b.Some? && same(a.value, b.value)
  }

  /** The items' equality is an equivalence and implies the same key. */
  ghost predicate Congruence<T(!new), K>(key: T -> K, same: (T, T) -> bool) {
    && (forall x :: same(x, x))
    && (forall x, y :: same(x, y) ==> same(y, x) && key(x) == key(y))
  }

  lemma LookupUnique<T, K>(key: T -> K, xs: seq<T>, i: nat)
    requires UniqueBy(key, xs) && i < |xs|
    ensures Lookup(key, xs, key(xs[i])) == Some(xs[i])
  {
  }

  lemma {:induction false} ChangedMembers<T, K>(key: T -> K, same: (T, T) -> bool, first: seq<T>, second: seq<T>)
    ensures forall x <- Changed(key, same, first, second) ::
      x in first && Lookup(key, second, key(x)).Some? && !same(x, Lookup(key, second, key(x)).value)
    ensures UniqueBy(key, first) ==> UniqueBy(key, Changed(key, same, first, second))
  {
    if first != [] {
      ChangedMembers(key, same, Front(first), second);
      assert first == Front(first) + [Last(first)];
    }
  }

  lemma {:induction false} ChangedHas<T, K>(key: T -> K, same: (T, T) -> bool, first: seq<T>, second: seq<T>, i: nat)
    requires i < |first| && Lookup(key, second, key(first[i])).Some?
    requires !same(first[i], Lookup(key, second, key(first[i])).value)
    ensures first[i] in Changed(key, same, first, second)
  {
    if i < |first| - 1 {
      ChangedHas(key, same, Front(first), second, i);
    }
  }

  lemma {:induction false} MissingHasItem<T, K>(key: T -> K, xs: seq<T>, ys: seq<T>, i: nat)
    requires i < |ys| && !Has(key, xs, key(ys[i]))
    ensures ys[i] in Missing(key, xs, ys)
  {
    if i < |ys| - 1 {
      MissingHasItem(key, xs, Front(ys), i);
    }
  }

  lemma HasMember<T, K>(key: T -> K, xs: seq<T>, x: T)
    requires x in xs
    ensures Has(key, xs, key(x))
    ensures UniqueBy(key, xs) ==> Lookup(key, xs, key(x)) == Some(x)
  {
    var i :| 0 <= i < |xs| && xs[i] == x;
  }

  lemma SameListsAgree<T(!new), K>(key: T -> K, same: (T, T) -> bool, first: seq<T>, second: seq<T>, k: K)
    requires Congruence(key, same) && UniqueBy(key, first) && UniqueBy(key, second) && SameLists(same, first, second)
    ensures Agree(same, Lookup(key, first, k), Lookup(key, second, k))
  {
    if i :| 0 <= i < |first| && key(first[i]) == k {
      LookupUnique(key, first, i);
      LookupUnique(key, second, i);
    } else {
      assert forall i :: 0 <= i < |second| ==> key(second[i]) == key(first[i]);
    }
  }

  /** The three parts name different keys: of the first list only, of both, of the second only. */
  lemma PartsDisjoint<T, K>(key: T -> K, same: (T, T) -> bool, first: seq<T>, second: seq<T>, k: K)
    ensures var d := Difference(key, same, first, second);
            && (Has(key, d.added, k) ==> Has(key, first, k) && !Has(key, second, k))
            && (Has(key, d.changed, k) ==> Has(key, first, k) && Has(key, second, k))
            && (Has(key, d.deleted, k) ==> !Has(key, first, k) && Has(key, second, k))
  {
    var d := Difference(key, same, first, second);
    MissingMembers(key, second, first);
    MissingMembers(key, first, second);
    ChangedMembers(key, same, first, second);
    if i :| 0 <= i < |d.added| && key(d.added[i]) == k {
      assert d.added[i] in d.added;
      HasMember(key, first, d.added[i]);
    }
    if i :| 0 <= i < |d.changed| && key(d.changed[i]) == k {
      assert d.changed[i] in d.changed;
      HasMember(key, first, d.changed[i]);
    }
    if i :| 0 <= i < |d.deleted| && key(d.deleted[i]) == k {
      assert d.deleted[i] in d.deleted;
      HasMember(key, second, d.deleted[i]);
    }
  }

  /** What comes first in the part comes first in the whole. */
  ghost predicate InOrder<T>(part: seq<T>, whole: seq<T>) {
    forall i, j :: 0 <= i < j < |part| ==> Precedes(whole, part[i], part[j])
  }

  ghost predicate Precedes<T>(whole: seq<T>, x: T, y: T) {
    exists i, j :: 0 <= i < j < |whole| && whole[i] == x && whole[j] == y
  }

  lemma OneMoreInOrder<T>(part: seq<T>, whole: seq<T>, x: T)
    requires InOrder(part, whole) && forall y :: y in part ==> y in whole
    ensures InOrder(part, whole + [x]) && InOrder(part + [x], whole + [x])
  {
    var longer := whole + [x];
    forall i, j | 0 <= i < j < |part|
      ensures Precedes(longer, part[i], part[j])
    {
      assert Precedes(whole, part[i], part[j]);
      var k, l :| 0 <= k < l < |whole| && whole[k] == part[i] && whole[l] == part[j];
      assert longer[k] == part[i] && longer[l] == part[j];
    }
    forall i | 0 <= i < |part|
      ensures Precedes(longer, part[i], x)
    {
      assert part[i] in whole;
      var k :| 0 <= k < |whole| && whole[k] == part[i];
      assert longer[k] == part[i] && longer[|whole|] == x;
    }
  }

  lemma {:induction false} MissingInOrder<T, K>(key: T -> K, xs: seq<T>, ys: seq<T>)
    ensures InOrder(Missing(key, xs, ys), ys)
  {
    if ys != [] {
      MissingInOrder(key, xs, Front(ys));
      MissingMembers(key, xs, Front(ys));
      OneMoreInOrder(Missing(key, xs, Front(ys)), Front(ys), Last(ys));
      assert ys == Front(ys) + [Last(ys)];
    }
  }

  lemma {:induction false} ChangedInOrder<T, K>(key: T -> K, same: (T, T) -> bool, first: seq<T>, second: seq<T>)
    ensures InOrder(Changed(key, same, first, second), first)
  {
    if first != [] {
      ChangedInOrder(key, same, Front(first), second);
      ChangedMembers(key, same, Front(first), second);
      OneMoreInOrder(Changed(key, same, Front(first), second), Front(first), Last(first));
      assert first == Front(first) + [Last(first)];
    }
  }

  /** Every part keeps the order of the list that it comes from, and names no key twice if that does not. */
  lemma PartsInOrder<T, K>(key: T -> K, same: (T, T) -> bool, first: seq<T>, second: seq<T>)
    ensures var d := Difference(key, same, first, second);
            && InOrder(d.added, first) && InOrder(d.changed, first) && InOrder(d.deleted, second)
            && (UniqueBy(key, first) ==> UniqueBy(key, d.added) && UniqueBy(key, d.changed))
            && (UniqueBy(key, second) ==> UniqueBy(key, d.deleted))
  {
    MissingInOrder(key, second, first);
    MissingInOrder(key, first, second);
    ChangedInOrder(key, same, first, second);
    MissingMembers(key, second, first);
    MissingMembers(key, first, second);
    ChangedMembers(key, same, first, second);
  }

  /**
   * With unique keys, the difference from `second` to `first` is a patch: applied to `second` it says
   * of every key what `first` says, up to the items' equality.
   */
  lemma DifferencePatches<T(!new), K>(key: T -> K, same: (T, T) -> bool, first: seq<T>, second: seq<T>, k: K)
    requires Congruence(key, same) && UniqueBy(key, first) && UniqueBy(key, second)
    ensures Agree(same, Lookup(key, first, k), Patched(key, second, Difference(key, same, first, second), k))
  {
    var d := Difference(key, same, first, second);
    if SameLists(same, first, second) {
      SameListsAgree(key, same, first, second, k);
    } else {
      PartsDisjoint(key, same, first, second, k);
      if i :| 0 <= i < |first| && key(first[i]) == k {
        PatchKeeps(key, same, first, second, i);
      } else if j :| 0 <= j < |second| && key(second[j]) == k {
        MissingHasItem(key, first, second, j);
        HasMember(key, d.deleted, second[j]);
      }
    }
  }

  lemma PatchKeeps<T(!new), K>(key: T -> K, same: (T, T) -> bool, first: seq<T>, second: seq<T>, i: nat)
    requires Congruence(key, same) && UniqueBy(key, first) && UniqueBy(key, second)
    requires !SameLists(same, first, second) && i < |first|
    ensures Agree(same, Some(first[i]), Patched(key, second, Difference(key, same, first, second), key(first[i])))
  {
    var d, x := Difference(key, same, first, second), first[i];
    PartsDisjoint(key, same, first, second, key(x));
    MissingMembers(key, second, first);
    ChangedMembers(key, same, first, second);
    HasMember(key, first, x);
    if !Has(key, second, key(x)) {
      MissingHasItem(key, second, first, i);
      HasMember(key, d.added, x);
    } else if !same(x, Lookup(key, second, key(x)).value) {
      ChangedHas(key, same, first, second, i);
      HasMember(key, d.changed, x);
    } else if Has(key, d.changed, key(x)) {
      var j :| 0 <= j < |d.changed| && key(d.changed[j]) == key(x);
      assert d.changed[j] in d.changed;
      HasMember(key, first, d.changed[j]);
    }
  }

  ghost predicate Transitive<T(!new)>(same: (T, T) -> bool) {
    forall x, y, z :: same(x, y) && same(y, z) ==> same(x, z)
  }

  /** A patch gives the same, up to the items' equality, on what agrees with the list it was made for. */
  lemma PatchOfAgreeing<T(!new), K>(
    key: T -> K, same: (T, T) -> bool, first: seq<T>, second: seq<T>, before: Option<T>, k: K)
    requires Congruence(key, same) && Transitive(same) && UniqueBy(key, first) && UniqueBy(key, second)
    requires Agree(same, Lookup(key, second, k), before)
    ensures Agree(same, Lookup(key, first, k), Patch(key, before, Difference(key, same, first, second), k))
  {
    DifferencePatches(key, same, first, second, k);
    PartsDisjoint(key, same, first, second, k);
  }

  /**
   * Applied to the second list and then, to what that gives, with its arguments swapped: the difference
   * takes every key to what the first list says of it and back to what the second says.
   */
  lemma SwappedUndoes<T(!new), K>(key: T -> K, same: (T, T) -> bool, first: seq<T>, second: seq<T>, k: K)
    requires Congruence(key, same) && Transitive(same) && UniqueBy(key, first) && UniqueBy(key, second)
    ensures var there := Patch(key, Lookup(key, second, k), Difference(key, same, first, second), k);
            var back := Patch(key, there, Difference(key, same, second, first), k);
            Agree(same, Lookup(key, first, k), there) && Agree(same, Lookup(key, second, k), back)
  {
    DifferencePatches(key, same, first, second, k);
    var there := Patched(key, second, Difference(key, same, first, second), k);
    PatchOfAgreeing(key, same, second, first, there, k);
  }
}
