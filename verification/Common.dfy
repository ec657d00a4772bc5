/** Small datatypes and list functions shared by the models. */
module Common {

  datatype Option<+T> = None | Some(value: T)

  function Last<T>(s: seq<T>): T
    requires s != []
  {
    s[|s| - 1]
  }

  function Front<T>(s: seq<T>): seq<T>
    requires s != []
  {
    s[..|s| - 1]
  }

  predicate NoDup<T(==)>(s: seq<T>) {
    forall i, j :: 0 <= i < j < |s| ==> s[i] != s[j]
  }

  ghost function Elements<T>(s: seq<T>): set<T> {
    set x | x in s
  }

  /** The list with every occurrence of `x` filtered out. */
  function Without<T(==,!new)>(s: seq<T>, x: T): (r: seq<T>)
    ensures forall y :: y in r <==> y in s && y != x
    ensures NoDup(s) ==> NoDup(r)
    ensures x !in s ==> r == s
    ensures |r| <= |s|
  {
    if s == [] then []
    else
      assert s == [s[0]] + s[1..];
      if s[0] == x then Without(s[1..], x)
      else
        var rest := Without(s[1..], x);
        assert NoDup(s) ==> s[0] !in s[1..];
        assert forall i :: 0 <= i < |rest| ==> rest[i] in rest;
        [s[0]] + rest
  }

  /** The list with those elements of `xs` appended, in order, that it does not hold yet. */
  function AppendNew<T(==)>(list: seq<T>, xs: seq<T>): seq<T> {
    if xs == [] then list
    else
      var now := AppendNew(list, Front(xs));
      if Last(xs) in now then now else now + [Last(xs)]
  }

  lemma {:induction false} AppendNewMembers<T>(list: seq<T>, xs: seq<T>)
    ensures NoDup(list) ==> NoDup(AppendNew(list, xs))
    ensures forall x <- list + xs :: x in AppendNew(list, xs)
    ensures forall x <- AppendNew(list, xs) :: x in list || x in xs
  {
    if xs != [] {
      AppendNewMembers(list, Front(xs));
      assert xs == Front(xs) + [Last(xs)];
    }
  }

  /** Appending only adds at the end, and what comes of the first of the `xs` comes first. */
  lemma {:induction false} AppendNewPrefix<T>(list: seq<T>, xs: seq<T>, k: nat)
    requires k <= |xs|
    ensures list <= AppendNew(list, xs) && AppendNew(list, xs[..k]) <= AppendNew(list, xs)
  {
    if k == |xs| {
      assert xs[..k] == xs;
    } else {
      assert Front(xs)[..k] == xs[..k];
    }
    if xs != [] {
      AppendNewPrefix(list, Front(xs), if k == |xs| then k - 1 else k);
    }
  }

  /** Python's `list.remove`: the first occurrence goes, if there is one. */
  function RemoveFirst<T(==)>(s: seq<T>, x: T): (r: seq<T>)
    ensures multiset(r) == multiset(s) - multiset{x}
  {
    if s == [] then []
    else
      assert s == [s[0]] + s[1..];
      if s[0] == x then s[1..] else [s[0]] + RemoveFirst(s[1..], x)
  }

  /** With nothing to remove before position `i`: what is at that position goes, if anything is. */
  lemma {:induction false} RemoveFirstAt<T>(s: seq<T>, x: T, i: nat)
    requires i <= |s| && x !in s[..i] && (i < |s| ==> s[i] == x)
    ensures RemoveFirst(s, x) == s[..i] + if i < |s| then s[i + 1..] else []
  {
    if s != [] {
      assert s == [s[0]] + s[1..];
      if i > 0 {
        assert s[0] in s[..i] && s[..i] == [s[0]] + s[1..][..i - 1];
        RemoveFirstAt(s[1..], x, i - 1);
      }
    }
  }

  function Fold<A, X>(f: (A, X) -> A, a: A, xs: seq<X>): A {
    if xs == [] then a else f(Fold(f, a, Front(xs)), Last(xs))
  }

  lemma {:induction false} FoldConcat<A, X>(f: (A, X) -> A, a: A, xs: seq<X>, ys: seq<X>)
    ensures Fold(f, a, xs + ys) == Fold(f, Fold(f, a, xs), ys)
  {
    if ys == [] {
      assert xs + ys == xs;
    } else {
      FoldConcat(f, a, xs, Front(ys));
      assert Front(xs + ys) == xs + Front(ys);
    }
  }

  // ---------------------------------------------------------------- sorting

  ghost predicate TotalOrder<T(!new)>(leq: (T, T) -> bool) {
    && (forall x, y :: leq(x, y) || leq(y, x))
    && (forall x, y, z :: leq(x, y) && leq(y, z) ==> leq(x, z))
  }

  ghost predicate SortedBy<T>(leq: (T, T) -> bool, s: seq<T>) {
    forall i, j :: 0 <= i < j < |s| ==> leq(s[i], s[j])
  }

  function Insert<T>(leq: (T, T) -> bool, s: seq<T>, x: T): (r: seq<T>)
    ensures multiset(r) == multiset(s) + multiset{x}
  {
    if s == [] then [x]
    else
      assert s == Front(s) + [Last(s)];
      if leq(Last(s), x) then s + [x] else Insert(leq, Front(s), x) + [Last(s)]
  }

  function Sort<T>(leq: (T, T) -> bool, s: seq<T>): (r: seq<T>)
    ensures multiset(r) == multiset(s)
  {
    if s == [] then []
    else
      assert s == Front(s) + [Last(s)];
      Insert(leq, Sort(leq, Front(s)), Last(s))
  }

  lemma SameMembers<T>(s: seq<T>, r: seq<T>)
    requires multiset(s) == multiset(r)
    ensures forall x :: x in s <==> x in r
    ensures |s| == |r|
  {
    assert forall x :: x in s <==> x in multiset(s);
    assert forall x :: x in r <==> x in multiset(r);
    assert |multiset(s)| == |s| && |multiset(r)| == |r|;
  }

  lemma {:induction false} InsertSorted<T(!new)>(leq: (T, T) -> bool, s: seq<T>, x: T)
    requires TotalOrder(leq) && SortedBy(leq, s)
    ensures SortedBy(leq, Insert(leq, s, x))
  {
    if s != [] {
      assert s == Front(s) + [Last(s)];
      if !leq(Last(s), x) {
        InsertSorted(leq, Front(s), x);
        var r := Insert(leq, Front(s), x);
        SameMembers(r, Front(s) + [x]);
        forall i | 0 <= i < |r|
          ensures leq(r[i], Last(s))
        {
          assert r[i] in r;
        }
      }
    }
  }

  lemma {:induction false} SortSorted<T(!new)>(leq: (T, T) -> bool, s: seq<T>)
    requires TotalOrder(leq)
    ensures SortedBy(leq, Sort(leq, s))
  {
    if s != [] {
      SortSorted(leq, Front(s));
      InsertSorted(leq, Sort(leq, Front(s)), Last(s));
    }
  }
}
