/** VLAN lists in Comware configurations, such as `2 5 to 9 20`: compression and the decoder. */
module ComwareRanges {
  import opened Common

  datatype Token = Number(n: int) | To

  /** The list so far and whether the last word was `to`. */
  datatype State = State(vlans: seq<int>, foundTo: bool)

  function Interval(first: int, end: int): (r: seq<int>)
    ensures |r| == (if first < end then end - first else 0)
    ensures forall i :: 0 <= i < |r| ==> r[i] == first + i
  {
    seq(if first < end then end - first else 0, i => first + i)
  }

  /**
   * One word of the decoder. As written a range stops short of its end; with `inclusive` it does not.
   * A range without a beginning is an IndexError.
   */
  function Step(s: State, t: Token, inclusive: bool): Option<State> {
    match t
    case To => Some(s.(foundTo := true))
    case Number(n) =>
      if !s.foundTo then Some(State(s.vlans + [n], false))
      else if s.vlans == [] then None
      else Some(State(s.vlans + Interval(Last(s.vlans) + 1, if inclusive then n + 1 else n), false))
  }

  function Run(tokens: seq<Token>, inclusive: bool): Option<State> {
    if tokens == [] then Some(State([], false))
    else
      var before := Run(Front(tokens), inclusive);
      if before.None? then None else Step(before.value, Last(tokens), inclusive)
  }

  method Decode(tokens: seq<Token>) returns (vlans: Option<seq<int>>)
    ensures vlans == var end := Run(tokens, false); if end.None? then None else Some(end.value.vlans)
  {
    var list, foundTo := [], false;
    for i := 0 to |tokens|
      invariant Run(tokens[..i], false) == Some(State(list, foundTo))
    {
      assert Front(tokens[..i + 1]) == tokens[..i];
      match tokens[i] {
        case To => foundTo := true;
        case Number(n) =>
          if !foundTo {
            list := list + [n];
          } else {
            if list == [] {
              ErrorStops(tokens, i + 1);
              return None;
            }
            list := list + Interval(Last(list) + 1, n);
            foundTo := false;
          }
      }
    }
    assert tokens[..|tokens|] == tokens;
    vlans := Some(list);
  }

  lemma {:induction false} ErrorStops(tokens: seq<Token>, n: nat)
    requires n <= |tokens| && Run(tokens[..n], false).None?
    ensures Run(tokens, false).None?
  {
    if n == |tokens| {
      assert tokens[..n] == tokens;
    } else {
      assert Front(tokens)[..n] == tokens[..n];
      ErrorStops(Front(tokens), n);
    }
  }

  /** A word more: a number is added or, after `to`, the VLANs from the last one on up to it. */
  lemma DecodeWord(tokens: seq<Token>, n: int, inclusive: bool)
    requires Run(tokens, inclusive).Some?
    ensures var s, after := Run(tokens, inclusive).value, Run(tokens + [Number(n)], inclusive);
            && Run(tokens + [To], inclusive) == Some(State(s.vlans, true))
            && (s.foundTo <==> tokens != [] && Last(tokens) == To)
            && (!s.foundTo ==> after == Some(State(s.vlans + [n], false)))
            && (s.foundTo && s.vlans != [] ==>
                  && after.Some? && s.vlans <= after.value.vlans && !after.value.foundTo
                  && forall i :: |s.vlans| <= i < |after.value.vlans| ==>
                       after.value.vlans[i] == after.value.vlans[i - 1] + 1)
            && (s.foundTo && s.vlans != [] ==>
                  Last(after.value.vlans)
                  == if Last(s.vlans) >= n then Last(s.vlans) else if inclusive then n else n - 1)
            && (after.None? <==> s.foundTo && s.vlans == [])
  {
    assert Front(tokens + [Number(n)]) == tokens && Front(tokens + [To]) == tokens;
  }

  /** Decoding fails exactly when a number follows words that are all `to`. */
  lemma {:induction false} DecodeFails(tokens: seq<Token>, inclusive: bool)
    ensures Run(tokens, inclusive).None? <==> tokens != [] && tokens[0].To? && exists t :: t in tokens && t.Number?
    ensures Run(tokens, inclusive).Some? ==>
      (Run(tokens, inclusive).value.vlans == [] <==> forall t :: t in tokens ==> t.To?)
  {
    if tokens != [] {
      DecodeFails(Front(tokens), inclusive);
      assert tokens == Front(tokens) + [Last(tokens)];
      if Run(Front(tokens), inclusive).Some? && Last(tokens).Number? {
        DecodeWord(Front(tokens), Last(tokens).n, inclusive);
      }
    }
  }

  // ---------------------------------------------------------------- compression into maximal ranges

  datatype Range = Range(first: int, last: int)

  /** The ranges of a list as the switch prints it: a VLAN right after the last range makes it longer. */
  function Ranges(s: seq<int>): seq<Range> {
    if s == [] then []
    else
      var rs, v := Ranges(Front(s)), Last(s);
      if rs != [] && Last(rs).last + 1 == v then Front(rs) + [Range(Last(rs).first, v)] else rs + [Range(v, v)]
  }

  function RangeTokens(r: Range): seq<Token> {
    if r.first == r.last then [Number(r.first)] else [Number(r.first), To, Number(r.last)]
  }

  function Tokens(rs: seq<Range>): seq<Token> {
    if rs == [] then [] else Tokens(Front(rs)) + RangeTokens(Last(rs))
  }

  function Compress(s: seq<int>): seq<Token> {
    Tokens(Ranges(s))
  }

  /** The VLANs of a range; with `inclusive` off, a range of two or more goes without its end. */
  function Members(r: Range, inclusive: bool): seq<int> {
    Interval(r.first, if inclusive || r.first == r.last then r.last + 1 else r.last)
  }

  function Expand(rs: seq<Range>, inclusive: bool): seq<int> {
    if rs == [] then [] else Expand(Front(rs), inclusive) + Members(Last(rs), inclusive)
  }

  lemma RunRange(tokens: seq<Token>, vlans: seq<int>, r: Range, inclusive: bool)
    requires Run(tokens, inclusive) == Some(State(vlans, false)) && r.first <= r.last
    ensures Run(tokens + RangeTokens(r), inclusive) == Some(State(vlans + Members(r, inclusive), false))
  {
    RunSingle(tokens, vlans, r.first, inclusive);
    if r.first < r.last {
      var end := if inclusive then r.last + 1 else r.last;
      var s := State(vlans + [r.first], false);
      var single := tokens + [Number(r.first)];
      RunToEnd(single, s, r.last, inclusive);
      assert single + [To, Number(r.last)] == tokens + RangeTokens(r);
      assert vlans + [r.first] + Interval(r.first + 1, end) == vlans + Interval(r.first, end);
    } else {
      assert Interval(r.first, r.last + 1) == [r.first];
    }
  }

  lemma RunSingle(tokens: seq<Token>, vlans: seq<int>, v: int, inclusive: bool)
    requires Run(tokens, inclusive) == Some(State(vlans, false))
    ensures Run(tokens + [Number(v)], inclusive) == Some(State(vlans + [v], false))
  {
    assert Front(tokens + [Number(v)]) == tokens;
  }

  lemma RunToEnd(tokens: seq<Token>, s: State, last: int, inclusive: bool)
    requires Run(tokens, inclusive) == Some(s) && s.vlans != [] && !s.foundTo
    ensures var more := Interval(Last(s.vlans) + 1, if inclusive then last + 1 else last);
            Run(tokens + [To, Number(last)], inclusive) == Some(State(s.vlans + more, false))
  {
    var withTo := tokens + [To];
    assert Front(withTo) == tokens;
    assert Front(tokens + [To, Number(last)]) == withTo;
  }

  ghost predicate Ordered(rs: seq<Range>) {
    forall i :: 0 <= i < |rs| ==> rs[i].first <= rs[i].last
  }

  ghost predicate Singles(rs: seq<Range>) {
    forall i :: 0 <= i < |rs| ==> rs[i].first == rs[i].last
  }

  lemma {:induction false} RunTokens(rs: seq<Range>, inclusive: bool)
    requires Ordered(rs)
    ensures Run(Tokens(rs), inclusive) == Some(State(Expand(rs, inclusive), false))
  {
    if rs != [] {
      RunTokens(Front(rs), inclusive);
      RunRange(Tokens(Front(rs)), Expand(Front(rs), inclusive), Last(rs), inclusive);
    }
  }

  lemma ExpandSnoc(rs: seq<Range>, r: Range, inclusive: bool)
    ensures Expand(rs + [r], inclusive) == Expand(rs, inclusive) + Members(r, inclusive)
  {
    assert Front(rs + [r]) == rs;
  }

  lemma MembersGrow(r: Range)
    requires r.first <= r.last
    ensures Members(Range(r.first, r.last + 1), true) == Members(r, true) + [r.last + 1]
    ensures Members(Range(r.last, r.last), true) == [r.last]
  {
  }

  /** Whether a VLAN goes into the last range. */
  predicate Joins(rs: seq<Range>, v: int) {
    rs != [] && Last(rs).last + 1 == v
  }

  lemma RangesSnoc(s: seq<int>, v: int)
    ensures var rs := Ranges(s);
            Ranges(s + [v]) == if Joins(rs, v) then Front(rs) + [Range(Last(rs).first, v)] else rs + [Range(v, v)]
  {
    assert Front(s + [v]) == s;
  }

  lemma OneMoreVlan(rs: seq<Range>, v: int)
    requires Ordered(rs)
    ensures Joins(rs, v) ==>
      Expand(Front(rs) + [Range(Last(rs).first, v)], true) == Expand(rs, true) + [v]
    ensures Expand(rs + [Range(v, v)], true) == Expand(rs, true) + [v]
  {
    ExpandSnoc(rs, Range(v, v), true);
    MembersGrow(Range(v, v));
    if Joins(rs, v) {
      assert rs == Front(rs) + [Last(rs)];
      ExpandSnoc(Front(rs), Last(rs), true);
      ExpandSnoc(Front(rs), Range(Last(rs).first, v), true);
      MembersGrow(Last(rs));
    }
  }

  lemma {:induction false} RangesEnd(s: seq<int>)
    ensures Ordered(Ranges(s))
    ensures Ranges(s) == [] <==> s == []
    ensures s != [] ==> Last(Ranges(s)).last == Last(s)
  {
    if s != [] {
      RangesEnd(Front(s));
    }
  }

  lemma {:induction false} RangesExpand(s: seq<int>)
    ensures Expand(Ranges(s), true) == s
  {
    if s != [] {
      RangesExpand(Front(s));
      RangesEnd(Front(s));
      RangesSnoc(Front(s), Last(s));
      OneMoreVlan(Ranges(Front(s)), Last(s));
      assert s == Front(s) + [Last(s)];
    }
  }

  ghost predicate NoneAdjacent(s: seq<int>) {
    forall i, j :: 0 <= i < |s| && j == i + 1 && j < |s| ==> s[j] != s[i] + 1
  }

  lemma NoneAdjacentSnoc(s: seq<int>, v: int)
    ensures NoneAdjacent(s + [v]) <==> NoneAdjacent(s) && (s != [] ==> v != Last(s) + 1)
  {
    var all := s + [v];
    assert forall i :: 0 <= i < |s| ==> all[i] == s[i];
    if NoneAdjacent(all) && s != [] {
      assert all[|s|] != all[|s| - 1] + 1;
    }
  }

  lemma SinglesSnoc(rs: seq<Range>, v: int)
    requires Ordered(rs)
    ensures Joins(rs, v) ==> !Singles(Front(rs) + [Range(Last(rs).first, v)])
    ensures Singles(rs + [Range(v, v)]) <==> Singles(rs)
  {
    var more := rs + [Range(v, v)];
    assert forall i :: 0 <= i < |rs| ==> more[i] == rs[i];
    if Joins(rs, v) {
      var r := (Front(rs) + [Range(Last(rs).first, v)])[|rs| - 1];
      assert r.first != r.last;
    }
  }

  /** Every range is a single VLAN exactly when no two neighbors in the list are adjacent VLANs. */
  lemma {:induction false} SinglesExact(s: seq<int>)
    ensures Singles(Ranges(s)) <==> NoneAdjacent(s)
  {
    if s != [] {
      var before, v := Front(s), Last(s);
      assert s == before + [v];
      SinglesExact(before);
      RangesEnd(before);
      RangesSnoc(before, v);
      SinglesSnoc(Ranges(before), v);
      NoneAdjacentSnoc(before, v);
    }
  }

  lemma SinglesLast(rs: seq<Range>)
    requires rs != []
    ensures Singles(rs) <==> Singles(Front(rs)) && Last(rs).first == Last(rs).last
  {
    assert forall i :: 0 <= i < |rs| - 1 ==> Front(rs)[i] == rs[i];
  }

  lemma SameTail(a: seq<int>, b: seq<int>, tail: seq<int>)
    ensures a + tail == b + tail <==> a == b
  {
    if a + tail == b + tail {
      assert |a| == |b|;
      forall i | 0 <= i < |a|
        ensures a[i] == b[i]
      {
        assert a[i] == (a + tail)[i] && b[i] == (b + tail)[i];
      }
    }
  }

  lemma {:induction false} OpenIsShorter(rs: seq<Range>)
    requires Ordered(rs)
    ensures |Expand(rs, false)| <= |Expand(rs, true)|
    ensures Expand(rs, false) == Expand(rs, true) <==> Singles(rs)
  {
    if rs != [] {
      OpenIsShorter(Front(rs));
      var r := Last(rs);
      var a, b := Expand(Front(rs), false), Expand(Front(rs), true);
      assert |Members(r, false)| <= |Members(r, true)|;
      assert |Members(r, false)| == |Members(r, true)| <==> r.first == r.last;
      if r.first == r.last {
        SameTail(a, b, Members(r, true));
      }
      SinglesLast(rs);
    }
  }

  /**
   * Decoding undoes the compression of every list when range ends count. As written, every range of
   * two or more loses its end, so a list comes back intact exactly when no VLAN follows its predecessor.
   */
  lemma DecodeCompressed(s: seq<int>)
    ensures Run(Compress(s), true) == Some(State(s, false))
    ensures Run(Compress(s), false) == Some(State(Expand(Ranges(s), false), false))
    ensures Run(Compress(s), false) == Some(State(s, false)) <==> NoneAdjacent(s)
  {
    RangesEnd(s);
    RangesExpand(s);
    RunTokens(Ranges(s), true);
    RunTokens(Ranges(s), false);
    OpenIsShorter(Ranges(s));
    SinglesExact(s);
  }

  // ---------------------------------------------------------------- the other decoder

  /**
   * A VLAN item: of a text with `to` in it only the first and the last word count, and any other text
   * must be one number. As written the end of the range is missing here, too.
   */
  function DecodeItem(tokens: seq<Token>, inclusive: bool): Option<seq<int>>
    requires tokens != []
  {
    var first, last := tokens[0], Last(tokens);
    if To in tokens then
      if first.To? || last.To? then None else Some(Interval(first.n, if inclusive then last.n + 1 else last.n))
    else if |tokens| == 1 then Some([first.n]) else None
  }

  /** What comes back of any text: the VLANs from its first number to its last, or its only number. */
  lemma ItemMeaning(tokens: seq<Token>, inclusive: bool)
    requires tokens != []
    ensures var item, first, last := DecodeItem(tokens, inclusive), tokens[0], Last(tokens);
            && (item.Some? <==> first.Number? && last.Number? && (|tokens| == 1 || To in tokens))
            && (item.Some? && |tokens| == 1 ==> item.value == [first.n])
            && (item.Some? && |tokens| > 1 ==>
                  forall v :: v in item.value <==> first.n <= v < last.n || (inclusive && v == last.n >= first.n))
  {
    var item := DecodeItem(tokens, inclusive);
    if item.Some? && |tokens| > 1 {
      var first, end := tokens[0].n, if inclusive then Last(tokens).n + 1 else Last(tokens).n;
      assert item.value == Interval(first, end);
      forall v
        ensures v in item.value <==> first <= v < end
      {
        IntervalHas(first, end, v);
      }
    }
  }

  lemma IntervalHas(first: int, end: int, v: int)
    ensures v in Interval(first, end) <==> first <= v < end
  {
    if first <= v < end {
      assert Interval(first, end)[v - first] == v;
    }
  }

  lemma {:induction false} TokensEnds(rs: seq<Range>)
    requires rs != []
    ensures var tokens := Tokens(rs);
            tokens != [] && tokens[0] == Number(rs[0].first) && tokens[|tokens| - 1] == Number(Last(rs).last)
  {
    var before, end := Front(rs), RangeTokens(Last(rs));
    assert end[0] == Number(Last(rs).first) && end[|end| - 1] == Number(Last(rs).last);
    if before != [] {
      TokensEnds(before);
    }
  }

  lemma {:induction false} TokensTo(rs: seq<Range>)
    ensures To in Tokens(rs) <==> !Singles(rs)
    ensures Singles(rs) ==> |Tokens(rs)| == |rs|
  {
    if rs != [] {
      var before, r := Front(rs), Last(rs);
      TokensTo(before);
      SinglesLast(rs);
      assert r.first != r.last ==> RangeTokens(r)[1] == To;
    }
  }

  lemma {:induction false} RangesFirst(s: seq<int>)
    requires s != []
    ensures Ranges(s) != [] && Ranges(s)[0].first == s[0]
    ensures |Ranges(s)| <= |s|
  {
    if |s| > 1 {
      RangesFirst(Front(s));
    }
  }

  lemma {:induction false} IntervalIsOneRange(first: int, last: int)
    requires first <= last
    ensures Ranges(Interval(first, last + 1)) == [Range(first, last)]
    decreases last - first
  {
    var s := Interval(first, last + 1);
    if first == last {
      assert s == [first] && Front(s) == [];
    } else {
      IntervalIsOneRange(first, last - 1);
      assert Front(s) == Interval(first, last);
    }
  }

  lemma OneRange(s: seq<int>)
    requires s != []
    ensures |Ranges(s)| == 1 <==> s == Interval(s[0], Last(s) + 1)
  {
    var rs, whole := Ranges(s), Interval(s[0], Last(s) + 1);
    RangesFirst(s);
    RangesEnd(s);
    if |rs| == 1 {
      RangesExpand(s);
      assert Front(rs) == [] && Expand([], true) == [];
    }
    if s == whole {
      IntervalIsOneRange(s[0], Last(s));
    }
  }

  lemma EndIsMissing(s: seq<int>, first: int)
    requires s != []
    ensures s != Interval(first, Last(s))
  {
    var open' := Interval(first, Last(s));
    assert |open'| == |s| ==> open'[|s| - 1] < Last(s);
  }

  /** What the decoder makes of the compressed list: of several single VLANs nothing, and else from first to last. */
  lemma ItemOf(s: seq<int>, inclusive: bool)
    requires s != []
    ensures Compress(s) != []
    ensures Singles(Ranges(s)) ==>
      DecodeItem(Compress(s), inclusive) == if |Ranges(s)| == 1 then Some([s[0]]) else None
    ensures !Singles(Ranges(s)) ==>
      DecodeItem(Compress(s), inclusive) == Some(Interval(s[0], if inclusive then Last(s) + 1 else Last(s)))
  {
    RangesFirst(s);
    RangesEnd(s);
    TokensEnds(Ranges(s));
    TokensTo(Ranges(s));
    DecodeShape(Compress(s), s[0], Last(s), inclusive);
  }

  lemma DecodeShape(tokens: seq<Token>, first: int, last: int, inclusive: bool)
    requires tokens != [] && tokens[0] == Number(first) && tokens[|tokens| - 1] == Number(last)
    ensures DecodeItem(tokens, inclusive) ==
      if To in tokens then Some(Interval(first, if inclusive then last + 1 else last))
      else if |tokens| == 1 then Some([first]) else None
  {
  }

  lemma SingleVlan(s: seq<int>)
    requires s != []
    ensures |s| == 1 <==> |Ranges(s)| == 1 && Singles(Ranges(s))
    ensures |s| == 1 <==> s == [s[0]]
  {
    var rs := Ranges(s);
    RangesFirst(s);
    if |s| == 1 {
      assert Front(s) == [] && rs == [Range(s[0], s[0])];
    }
    if |rs| == 1 && Singles(rs) {
      RangesEnd(s);
      OneRange(s);
      assert Last(rs) == rs[0];
    }
  }

  /** A list comes back from its compression exactly when it is one range; as written, when it is one VLAN. */
  lemma ItemExact(s: seq<int>)
    requires s != []
    ensures Compress(s) != []
    ensures DecodeItem(Compress(s), true) == Some(s) <==> |Ranges(s)| == 1
    ensures DecodeItem(Compress(s), false) == Some(s) <==> |s| == 1
  {
    ItemOf(s, true);
    ItemOf(s, false);
    OneRange(s);
    EndIsMissing(s, s[0]);
    SingleVlan(s);
  }
}
