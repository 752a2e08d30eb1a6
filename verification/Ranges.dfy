/** Merging of code point ranges for the terminal tables. */
module Ranges {
  import opened Sets
  import opened Sorting

  datatype Range = Range(start: int, end: int)

  /** The order of pairs. */
  predicate Before(r: Range, s: Range) {
    r.start < s.start || (r.start == s.start && r.end <= s.end)
  }

  /** The points of a..b. */
  function Span(a: int, b: int): (s: set<int>)
    ensures forall x :: x in s <==> a <= x <= b
    decreases b - a
  {
    if a > b then {} else Span(a, b - 1) + {b}
  }

  lemma {:induction false} SpanSize(a: int, b: int)
    requires a <= b + 1
    ensures |Span(a, b)| == b - a + 1
    decreases b - a
  {
    if a <= b {
      SpanSize(a, b - 1);
    }
  }

  /** All points of the ranges. */
  function Points(rs: seq<Range>): set<int> {
    if rs == [] then {}
    else Points(rs[..|rs| - 1]) + Span(rs[|rs| - 1].start, rs[|rs| - 1].end)
  }

  lemma PointsSnoc(rs: seq<Range>, r: Range)
    ensures Points(rs + [r]) == Points(rs) + Span(r.start, r.end)
  {
    assert (rs + [r])[..|rs|] == rs;
  }

  lemma {:induction false} PointsMeaning(rs: seq<Range>, x: int)
    ensures x in Points(rs) <==> exists r :: r in rs && r.start <= x <= r.end
  {
    if rs != [] {
      var before, last := rs[..|rs| - 1], rs[|rs| - 1];
      PointsMeaning(before, x);
      assert rs == before + [last];
    }
  }

  lemma SameMembers(rs: seq<Range>, ss: seq<Range>)
    requires forall r :: r in rs <==> r in ss
    ensures Points(rs) == Points(ss)
  {
    forall x
      ensures x in Points(rs) <==> x in Points(ss)
    {
      PointsMeaning(rs, x);
      PointsMeaning(ss, x);
    }
  }

  /** Ascending non-empty ranges with at least one free point between neighbours. */
  predicate Canonical(rs: seq<Range>) {
    rs != [] ==>
      var before, last := rs[..|rs| - 1], rs[|rs| - 1];
      && Canonical(before) && last.start <= last.end
      && (before != [] ==> before[|before| - 1].end + 1 < last.start)
  }

  lemma CanonicalSnoc(rs: seq<Range>, r: Range)
    ensures Canonical(rs + [r]) <==>
            && Canonical(rs) && r.start <= r.end
            && (rs != [] ==> rs[|rs| - 1].end + 1 < r.start)
  {
    assert (rs + [r])[..|rs|] == rs;
  }

  /** Points of earlier ranges lie below the last range and leave a point free. */
  lemma {:induction false} EarlierBelow(rs: seq<Range>, r: Range, x: int)
    requires Canonical(rs + [r]) && x in Points(rs)
    ensures x + 1 < r.start
  {
    CanonicalSnoc(rs, r);
    var before, last := rs[..|rs| - 1], rs[|rs| - 1];
    assert rs == before + [last];
    if x in Points(before) {
      EarlierBelow(before, last, x);
    }
  }

  /** Overlapping or touching ranges are one range. */
  lemma JoinSpans(a: Range, b: Range)
    requires a.start <= b.start <= a.end + 1
    ensures Span(a.start, a.end) + Span(b.start, b.end) == Span(a.start, if b.end > a.end then b.end else a.end)
  {
  }

  /** Extending the last range of a canonical list by one that starts in it or right after it. */
  lemma MergeLast(rs: seq<Range>, r: Range) returns (joined: Range)
    requires rs != [] && Canonical(rs)
    requires rs[|rs| - 1].start <= r.start <= rs[|rs| - 1].end + 1
    ensures joined == Range(rs[|rs| - 1].start, if r.end > rs[|rs| - 1].end then r.end else rs[|rs| - 1].end)
    ensures Canonical(rs[..|rs| - 1] + [joined])
    ensures Points(rs[..|rs| - 1] + [joined]) == Points(rs) + Span(r.start, r.end)
  {
    var before, last := rs[..|rs| - 1], rs[|rs| - 1];
    joined := Range(last.start, if r.end > last.end then r.end else last.end);
    assert rs == before + [last];
    CanonicalSnoc(before, last);
    CanonicalSnoc(before, joined);
    PointsSnoc(before, last);
    PointsSnoc(before, joined);
    JoinSpans(last, r);
  }

  lemma StartsAscend(rs: seq<Range>)
    requires SortedBy(rs, Before)
    ensures forall j, k :: 0 <= j < k < |rs| ==> rs[j].start <= rs[k].start
  {
    forall j, k | 0 <= j < k < |rs|
      ensures rs[j].start <= rs[k].start
    {
      assert Before(rs[j], rs[k]);
    }
  }

  /** One turn of the merge: extend the last range or open a new one. */
  method AddRange(merged: seq<Range>, r: Range) returns (next: seq<Range>)
    requires Canonical(merged) && r.start <= r.end
    requires merged != [] ==> merged[|merged| - 1].start <= r.start
    ensures Canonical(next) && Points(next) == Points(merged) + Span(r.start, r.end)
    ensures next != [] && next[|next| - 1].start <= r.start
  {
    if merged != [] && r.start <= merged[|merged| - 1].end + 1 {
      ghost var joined := MergeLast(merged, r);
      var last := merged[|merged| - 1];
      next := merged[..|merged| - 1] + [Range(last.start, if r.end > last.end then r.end else last.end)];
    } else {
      PointsSnoc(merged, r);
      CanonicalSnoc(merged, r);
      next := merged + [r];
    }
  }

  lemma PointsStep(rs: seq<Range>, k: nat)
    requires k < |rs|
    ensures Points(rs[..k + 1]) == Points(rs[..k]) + Span(rs[k].start, rs[k].end)
  {
    assert rs[..k + 1] == rs[..k] + [rs[k]];
    PointsSnoc(rs[..k], rs[k]);
  }

  /** The loop over the sorted ranges. */
  method MergeOrdered(ordered: seq<Range>) returns (merged: seq<Range>)
    requires forall k :: 0 <= k < |ordered| ==> ordered[k].start <= ordered[k].end
    requires forall j, k :: 0 <= j < k < |ordered| ==> ordered[j].start <= ordered[k].start
    ensures Canonical(merged) && Points(merged) == Points(ordered)
  {
    merged := [];
    for k := 0 to |ordered|
      invariant Canonical(merged) && Points(merged) == Points(ordered[..k])
      invariant merged != [] ==> k > 0 && merged[|merged| - 1].start <= ordered[k - 1].start
    {
      PointsStep(ordered, k);
      merged := AddRange(merged, ordered[k]);
    }
    assert ordered[..|ordered|] == ordered;
  }

  method MergeRanges(ranges: seq<Range>) returns (merged: seq<Range>)
    requires forall r :: r in ranges ==> r.start <= r.end
    ensures Canonical(merged)
    ensures Points(merged) == Points(ranges)
  {
    var ordered := Sort(ranges, Before);
    SortSorts(ranges, Before);
    SortMembers(ranges, Before);
    StartsAscend(ordered);
    SameMembers(ordered, ranges);
    merged := MergeOrdered(ordered);
  }

  predicate Increasing(values: seq<int>) {
    forall j, k :: 0 <= j < k < |values| ==> values[j] < values[k]
  }

  /** The distinct points in ascending order. */
  method Ascending(points: set<int>) returns (values: seq<int>)
    ensures Increasing(values) && Elems(values) == points
  {
    values := [];
    var rest := points;
    while rest != {}
      invariant rest <= points && Elems(values) == points - rest
      invariant Increasing(values)
      invariant forall k, x :: 0 <= k < |values| && x in rest ==> values[k] < x
      decreases rest
    {
      Smallest(rest);
      var m :| m in rest && forall x :: x in rest ==> m <= x;
      ElemsSnoc(values, m);
      values := values + [m];
      rest := rest - {m};
    }
  }

  lemma Smallest(s: set<int>)
    requires s != {}
    ensures exists m :: m in s && forall x :: x in s ==> m <= x
  {
    var negated := set x | x in s :: -x;
    var x := Pick(s);
    assert -x in negated;
    var m := Largest(negated);
    assert forall y :: y in s ==> -y in negated;
    assert -m in s && forall y :: y in s ==> -m <= y;
  }

  lemma GrowRange(rs: seq<Range>, start: int, end: int)
    requires Canonical(rs + [Range(start, end)])
    ensures Canonical(rs + [Range(start, end + 1)])
    ensures Points(rs + [Range(start, end + 1)]) == Points(rs + [Range(start, end)]) + {end + 1}
  {
    CanonicalSnoc(rs, Range(start, end));
    CanonicalSnoc(rs, Range(start, end + 1));
    PointsSnoc(rs, Range(start, end));
    PointsSnoc(rs, Range(start, end + 1));
  }

  lemma OpenRange(rs: seq<Range>, start: int, end: int, value: int)
    requires Canonical(rs + [Range(start, end)]) && end + 1 < value
    ensures Canonical(rs + [Range(start, end)] + [Range(value, value)])
    ensures Points(rs + [Range(start, end)] + [Range(value, value)]) == Points(rs + [Range(start, end)]) + {value}
  {
    CanonicalSnoc(rs + [Range(start, end)], Range(value, value));
    PointsSnoc(rs + [Range(start, end)], Range(value, value));
  }

  /** One turn over the points: the open range grows by the next point or is closed before it. */
  method AddPoint(ranges: seq<Range>, start: int, previous: int, value: int)
    returns (next: seq<Range>, start': int)
    requires Canonical(ranges + [Range(start, previous)]) && previous < value
    ensures Canonical(next + [Range(start', value)])
    ensures Points(next + [Range(start', value)]) == Points(ranges + [Range(start, previous)]) + {value}
  {
    next, start' := ranges, start;
    if value != previous + 1 {
      OpenRange(ranges, start, previous, value);
      next, start' := ranges + [Range(start, previous)], value;
    } else {
      GrowRange(ranges, start, previous);
    }
  }

  method FromPoints(points: set<int>) returns (ranges: seq<Range>)
    ensures Canonical(ranges)
    ensures Points(ranges) == points
  {
    var values := Ascending(points);
    if values == [] {
      return [];
    }
    ranges := [];
    var start := values[0];
    PointsSnoc([], Range(start, start));
    CanonicalSnoc([], Range(start, start));
    ElemsStep(values, 0);
    for k := 1 to |values|
      invariant Canonical(ranges + [Range(start, values[k - 1])])
      invariant Points(ranges + [Range(start, values[k - 1])]) == Elems(values[..k])
    {
      ElemsStep(values, k);
      ranges, start := AddPoint(ranges, start, values[k - 1], values[k]);
    }
    ranges := ranges + [Range(start, values[|values| - 1])];
    assert values[..|values|] == values;
  }

  /** What the points say about the last range. */
  lemma LastRange(rs: seq<Range>, r: Range)
    requires Canonical(rs + [r])
    ensures var all := Points(rs + [r]);
            && r.start <= r.end
            && (forall x :: r.start <= x <= r.end ==> x in all)
            && (forall x :: x in all ==> x <= r.end)
            && r.start - 1 !in all && Points(rs) == all - Span(r.start, r.end)
  {
    PointsSnoc(rs, r);
    CanonicalSnoc(rs, r);
    forall x | x in Points(rs)
      ensures x + 1 < r.start
    {
      EarlierBelow(rs, r, x);
    }
  }

  lemma OnlyEmptyIsEmpty(rs: seq<Range>)
    requires Canonical(rs)
    ensures Points(rs) == {} <==> rs == []
  {
    if rs != [] {
      assert rs == rs[..|rs| - 1] + [rs[|rs| - 1]];
      LastRange(rs[..|rs| - 1], rs[|rs| - 1]);
      assert rs[|rs| - 1].end in Points(rs);
    }
  }

  /** A set of points has one canonical form. */
  lemma {:induction false} CanonicalUnique(rs: seq<Range>, ss: seq<Range>)
    requires Canonical(rs) && Canonical(ss) && Points(rs) == Points(ss)
    ensures rs == ss
  {
    OnlyEmptyIsEmpty(rs);
    OnlyEmptyIsEmpty(ss);
    if rs != [] {
      var r, s := rs[|rs| - 1], ss[|ss| - 1];
      assert rs == rs[..|rs| - 1] + [r] && ss == ss[..|ss| - 1] + [s];
      LastRange(rs[..|rs| - 1], r);
      LastRange(ss[..|ss| - 1], s);
      assert r.end in Points(rs) && s.end in Points(ss);
      assert r.start in Points(rs) && s.start in Points(ss);
      assert r.start < s.start ==> s.start - 1 in Points(rs);
      assert s.start < r.start ==> r.start - 1 in Points(ss);
      CanonicalUnique(rs[..|rs| - 1], ss[..|ss| - 1]);
    }
  }

  /** The fast merge and the detour over the points give the same table. */
  method MergeBothWays(ranges: seq<Range>) returns (merged: seq<Range>, rebuilt: seq<Range>)
    requires forall r :: r in ranges ==> r.start <= r.end
    ensures merged == rebuilt && Canonical(merged) && Points(merged) == Points(ranges)
  {
    merged := MergeRanges(ranges);
    rebuilt := FromPoints(Points(ranges));
    CanonicalUnique(merged, rebuilt);
  }

  /** The count checked against the expected number of points. */
  method CountPoints(ranges: seq<Range>) returns (points: int)
    requires Canonical(ranges)
    ensures points == |Points(ranges)|
  {
    points := 0;
    for k := 0 to |ranges|
      invariant points == |Points(ranges[..k])|
    {
      CountStep(ranges, k);
      points := points + (ranges[k].end - ranges[k].start + 1);
    }
    assert ranges[..|ranges|] == ranges;
  }

  lemma {:induction false} CanonicalPrefix(rs: seq<Range>, k: nat)
    requires Canonical(rs) && k <= |rs|
    ensures Canonical(rs[..k])
  {
    if k < |rs| {
      CanonicalPrefix(rs[..|rs| - 1], k);
      assert rs[..|rs| - 1][..k] == rs[..k];
    } else {
      assert rs[..k] == rs;
    }
  }

  lemma DisjointSize(s: set<int>, t: set<int>)
    requires s !! t
    ensures |s + t| == |s| + |t|
  {
  }

  lemma PrefixGrows(rs: seq<Range>, k: nat)
    requires Canonical(rs) && k < |rs|
    ensures rs[k].start <= rs[k].end
    ensures Points(rs[..k]) !! Span(rs[k].start, rs[k].end)
    ensures Points(rs[..k + 1]) == Points(rs[..k]) + Span(rs[k].start, rs[k].end)
  {
    CanonicalPrefix(rs, k + 1);
    assert rs[..k + 1] == rs[..k] + [rs[k]];
    LastRange(rs[..k], rs[k]);
    PointsSnoc(rs[..k], rs[k]);
  }

  lemma CountStep(rs: seq<Range>, k: nat)
    requires Canonical(rs) && k < |rs|
    ensures |Points(rs[..k + 1])| == |Points(rs[..k])| + rs[k].end - rs[k].start + 1
  {
    PrefixGrows(rs, k);
    SpanSize(rs[k].start, rs[k].end);
    DisjointSize(Points(rs[..k]), Span(rs[k].start, rs[k].end));
  }
}
