/** Lists of records in which a key names at most one record: editing by key and merging by key. */
module KeyedList {
  import opened Common

  ghost predicate UniqueBy<T, K>(key: T -> K, xs: seq<T>) {
    forall i, j :: 0 <= i < j < |xs| ==> key(xs[i]) != key(xs[j])
  }

  predicate Has<T, K(==)>(key: T -> K, xs: seq<T>, k: K) {
    exists i :: 0 <= i < |xs| && key(xs[i]) == k
  }

  /** The first record with key `k`, searching from position `i`. */
  function FindBy<T, K(==)>(key: T -> K, xs: seq<T>, k: K, i: nat := 0): (r: Option<nat>)
    requires i <= |xs|
    ensures r.Some? ==> i <= r.value < |xs| && key(xs[r.value]) == k
    ensures r.Some? ==> forall n :: i <= n < r.value ==> key(xs[n]) != k
    ensures r.None? ==> forall n :: i <= n < |xs| ==> key(xs[n]) != k
    decreases |xs| - i
  {
    if i == |xs| then None else if key(xs[i]) == k then Some(i) else FindBy(key, xs, k, i + 1)
  }

  /** The list with `change` applied to the records with key `k`. */
  function EditBy<T, K(==), C>(key: T -> K, apply: (T, C) -> T, xs: seq<T>, k: K, change: C): (r: seq<T>)
    ensures |r| == |xs|
    ensures forall i :: 0 <= i < |xs| ==> r[i] == if key(xs[i]) == k then apply(xs[i], change) else xs[i]
  {
    seq(|xs|, i requires 0 <= i < |xs| => if key(xs[i]) == k then apply(xs[i], change) else xs[i])
  }

  /** The records of `ys` whose key no record of `xs` has. */
  function Missing<T, K(==)>(key: T -> K, xs: seq<T>, ys: seq<T>): seq<T> {
    if ys == [] then []
    else Missing(key, xs, Front(ys)) + if Has(key, xs, key(Last(ys))) then [] else [Last(ys)]
  }

  function MergeInto<T, K(==)>(key: T -> K, merge: (T, T) -> T, x: T, ys: seq<T>): T {
    var found := FindBy(key, ys, key(x));
    if found.None? then x else merge(x, ys[found.value])
  }

  function MergeEach<T, K(==)>(key: T -> K, merge: (T, T) -> T, xs: seq<T>, ys: seq<T>): (r: seq<T>)
    ensures |r| == |xs|
    ensures forall i :: 0 <= i < |xs| ==> r[i] == MergeInto(key, merge, xs[i], ys)
  {
    seq(|xs|, i requires 0 <= i < |xs| => MergeInto(key, merge, xs[i], ys))
  }

  /** `xs` with the records of `ys` of the same key merged into its own, followed by the others of `ys`. */
  function Merged<T, K(==)>(key: T -> K, merge: (T, T) -> T, xs: seq<T>, ys: seq<T>): seq<T> {
    MergeEach(key, merge, xs, ys) + Missing(key, xs, ys)
  }

  lemma EditConcat<T, K, C>(key: T -> K, apply: (T, C) -> T, xs: seq<T>, ys: seq<T>, k: K, change: C)
    ensures EditBy(key, apply, xs + ys, k, change)
         == EditBy(key, apply, xs, k, change) + EditBy(key, apply, ys, k, change)
  {
  }

  lemma EditSnoc<T, K, C>(key: T -> K, apply: (T, C) -> T, xs: seq<T>, x: T, k: K, change: C)
    ensures EditBy(key, apply, xs + [x], k, change)
         == EditBy(key, apply, xs, k, change) + [if key(x) == k then apply(x, change) else x]
  {
  }

  lemma MissingSnoc<T, K>(key: T -> K, xs: seq<T>, ys: seq<T>, y: T)
    ensures Missing(key, xs, ys + [y]) == Missing(key, xs, ys) + if Has(key, xs, key(y)) then [] else [y]
  {
    assert Front(ys + [y]) == ys;
  }

  lemma {:induction false} MissingEdited<T, K, C>(
    key: T -> K, apply: (T, C) -> T, xs: seq<T>, ys: seq<T>, k: K, change: C)
    requires forall y: T <- ys :: key(apply(y, change)) == key(y)
    ensures Missing(key, xs, EditBy(key, apply, ys, k, change)) == EditBy(key, apply, Missing(key, xs, ys), k, change)
  {
    if ys != [] {
      var before, y := Front(ys), ys[|ys| - 1];
      var edited := if key(y) == k then apply(y, change) else y;
      assert y in ys && ys == before + [y];
      MissingEdited(key, apply, xs, before, k, change);
      EditSnoc(key, apply, before, y, k, change);
      MissingSnoc(key, xs, before, y);
      MissingSnoc(key, xs, EditBy(key, apply, before, k, change), edited);
      EditSnoc(key, apply, Missing(key, xs, before), y, k, change);
    }
  }

  lemma {:induction false} MissingMembers<T, K>(key: T -> K, xs: seq<T>, ys: seq<T>)
    ensures forall y <- Missing(key, xs, ys) :: y in ys && !Has(key, xs, key(y))
    ensures UniqueBy(key, ys) ==> UniqueBy(key, Missing(key, xs, ys))
  {
    if ys != [] {
      MissingMembers(key, xs, Front(ys));
      assert ys == Front(ys) + [Last(ys)];
    }
  }

  /** A record found by its key is found again, edited, in the edited list. */
  lemma FindEdited<T, K, C>(key: T -> K, apply: (T, C) -> T, ys: seq<T>, k: K, change: C, k': K, i: nat)
    requires i <= |ys|
    requires forall y: T <- ys :: key(apply(y, change)) == key(y)
    ensures FindBy(key, EditBy(key, apply, ys, k, change), k', i) == FindBy(key, ys, k', i)
    decreases |ys| - i
  {
    if i < |ys| {
      assert ys[i] in ys;
      FindEdited(key, apply, ys, k, change, k', i + 1);
    }
  }

  /** Editing a record of the second list and merging is merging and then editing. */
  lemma MergedEdit<T, K, C>(
    key: T -> K, merge: (T, T) -> T, apply: (T, C) -> T, xs: seq<T>, ys: seq<T>, k: K, change: C)
    requires Has(key, ys, k)
    requires forall x: T, y: T :: key(merge(x, y)) == key(x)
    requires forall y: T <- ys :: key(apply(y, change)) == key(y)
    requires forall x: T, y: T <- ys :: key(y) == k ==> merge(x, apply(y, change)) == apply(merge(x, y), change)
    ensures Merged(key, merge, xs, EditBy(key, apply, ys, k, change))
         == EditBy(key, apply, Merged(key, merge, xs, ys), k, change)
  {
    var edited := EditBy(key, apply, ys, k, change);
    MissingEdited(key, apply, xs, ys, k, change);
    EditConcat(key, apply, MergeEach(key, merge, xs, ys), Missing(key, xs, ys), k, change);
    forall i | 0 <= i < |xs|
      ensures MergeInto(key, merge, xs[i], edited) == EditBy(key, apply, MergeEach(key, merge, xs, ys), k, change)[i]
    {
      FindEdited(key, apply, ys, k, change, key(xs[i]), 0);
    }
    assert MergeEach(key, merge, xs, edited) == EditBy(key, apply, MergeEach(key, merge, xs, ys), k, change);
  }

  lemma FindAppended<T, K>(key: T -> K, ys: seq<T>, y: T, k: K, i: nat)
    requires i <= |ys|
    ensures FindBy(key, ys + [y], k, i)
         == if FindBy(key, ys, k, i).Some? then FindBy(key, ys, k, i) else if key(y) == k then Some(|ys|) else None
    decreases |ys| - i
  {
    if i < |ys| {
      FindAppended(key, ys, y, k, i + 1);
    }
  }

  /** Appending a record with a new key to the second list edits the merged list, or appends to it. */
  lemma MergedAppend<T, K>(key: T -> K, merge: (T, T) -> T, xs: seq<T>, ys: seq<T>, y: T)
    requires !Has(key, ys, key(y))
    requires forall x: T, y: T :: key(merge(x, y)) == key(x)
    ensures Merged(key, merge, xs, ys + [y])
         == if Has(key, xs, key(y)) then EditBy(key, merge, Merged(key, merge, xs, ys), key(y), y)
            else Merged(key, merge, xs, ys) + [y]
  {
    assert Front(ys + [y]) == ys;
    forall i | 0 <= i < |xs|
      ensures MergeInto(key, merge, xs[i], ys + [y])
           == if key(xs[i]) == key(y) then merge(xs[i], y) else MergeInto(key, merge, xs[i], ys)
    {
      FindAppended(key, ys, y, key(xs[i]), 0);
    }
    MissingMembers(key, xs, ys);
    var missing := Missing(key, xs, ys);
    forall i | 0 <= i < |missing|
      ensures key(missing[i]) != key(y)
    {
      assert missing[i] in missing;
    }
    if Has(key, xs, key(y)) {
      EditConcat(key, merge, MergeEach(key, merge, xs, ys), missing, key(y), y);
      assert EditBy(key, merge, missing, key(y), y) == missing;
      forall i | 0 <= i < |xs| && key(xs[i]) == key(y)
        ensures MergeInto(key, merge, xs[i], ys) == xs[i]
      {
      }
      assert MergeEach(key, merge, xs, ys + [y]) == EditBy(key, merge, MergeEach(key, merge, xs, ys), key(y), y);
    } else {
      assert MergeEach(key, merge, xs, ys + [y]) == MergeEach(key, merge, xs, ys);
    }
  }

  lemma MergedNothing<T, K>(key: T -> K, merge: (T, T) -> T, xs: seq<T>)
    ensures Merged(key, merge, xs, []) == xs
  {
  }

  lemma HasMerged<T, K>(key: T -> K, merge: (T, T) -> T, xs: seq<T>, ys: seq<T>, k: K)
    requires forall x: T, y: T :: key(merge(x, y)) == key(x)
    ensures Has(key, Merged(key, merge, xs, ys), k) <==> Has(key, xs, k) || Has(key, ys, k)
  {
    var each, missing := MergeEach(key, merge, xs, ys), Missing(key, xs, ys);
    assert forall i :: 0 <= i < |xs| ==> key(each[i]) == key(xs[i]);
    MissingMembers(key, xs, ys);
    MissingHas(key, xs, ys, k);
    if Has(key, xs, k) {
      var i :| 0 <= i < |xs| && key(xs[i]) == k;
      assert key((each + missing)[i]) == k;
    } else if Has(key, ys, k) {
      var i :| 0 <= i < |missing| && key(missing[i]) == k;
      assert key((each + missing)[|each| + i]) == k;
    }
    if Has(key, each + missing, k) {
      var i :| 0 <= i < |each + missing| && key((each + missing)[i]) == k;
      if i >= |each| {
        assert missing[i - |each|] in missing;
      }
    }
  }

  lemma {:induction false} MissingHas<T, K>(key: T -> K, xs: seq<T>, ys: seq<T>, k: K)
    ensures Has(key, ys, k) && !Has(key, xs, k) ==> Has(key, Missing(key, xs, ys), k)
  {
    if ys != [] && Has(key, ys, k) && !Has(key, xs, k) {
      var rest := Missing(key, xs, Front(ys));
      if key(Last(ys)) == k {
        assert key((rest + [Last(ys)])[|rest|]) == k;
      } else {
        MissingHas(key, xs, Front(ys), k);
        var i :| 0 <= i < |ys| && key(ys[i]) == k;
        assert key(Front(ys)[i]) == k;
        var j :| 0 <= j < |rest| && key(rest[j]) == k;
        assert key(Missing(key, xs, ys)[j]) == k;
      }
    }
  }
}
