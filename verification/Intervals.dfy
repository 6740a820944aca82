/** The ordered map from interval starts to interval ends, kept merged. */
module Intervals {
  import opened Common

  /** One entry of the ordered map: the half-open range [start, end). */
  datatype Interval = Interval(start: nat, end: nat)

  /** Entries in key order, none empty, with a gap between each and the next. */
  ghost predicate Separated(s: seq<Interval>) {
    && (forall k | 0 <= k < |s| :: s[k].start < s[k].end)
    && (forall j, k | 0 <= j < k < |s| :: s[j].end < s[k].start)
  }

  /** The whole map lies in [lo, hi). */
  ghost predicate Within(s: seq<Interval>, lo: nat, hi: nat) {
    forall k | 0 <= k < |s| :: lo <= s[k].start && s[k].end <= hi
  }

  /** The indices covered by the map. */
  ghost function Covered(s: seq<Interval>): set<nat> {
    if s == [] then {} else Span(s[0].start, s[0].end) + Covered(s[1..])
  }

  /** The sum of the entries' lengths. */
  ghost function Total(s: seq<Interval>): int {
    if s == [] then 0 else s[0].end - s[0].start + Total(s[1..])
  }

  lemma {:induction false} Concat(a: seq<Interval>, b: seq<Interval>)
    ensures Total(a + b) == Total(a) + Total(b)
    ensures Covered(a + b) == Covered(a) + Covered(b)
  {
    if a == [] {
      assert a + b == b;
    } else {
      Concat(a[1..], b);
      assert (a + b)[1..] == a[1..] + b;
    }
  }

  /** An entry contributes its own length and its own indices, wherever it stands. */
  lemma Contribution(s: seq<Interval>, k: nat)
    requires k < |s|
    ensures Total(s) == Total(s[..k] + s[k + 1..]) + (s[k].end - s[k].start)
    ensures Covered(s) == Covered(s[..k] + s[k + 1..]) + Span(s[k].start, s[k].end)
  {
    Concat(s[..k], s[k + 1..]);
    Concat([s[k]], s[k + 1..]);
    assert [s[k]][1..] == [] && [s[k]] + s[k + 1..] == s[k..];
    Concat(s[..k], s[k..]);
    assert s[..k] + s[k..] == s;
  }

  lemma {:induction false} CoveredBounds(s: seq<Interval>, lo: nat, hi: nat)
    requires Within(s, lo, hi)
    ensures forall i | i in Covered(s) :: lo <= i < hi
  {
    if s != [] {
      CoveredBounds(s[1..], lo, hi);
    }
  }

  /** In a separated map the running total of lengths counts the distinct indices covered. */
  lemma {:induction false} TotalIsCount(s: seq<Interval>)
    requires Separated(s)
    ensures Total(s) == |Covered(s)|
  {
    if s != [] {
      assert Separated(s[1..]);
      TotalIsCount(s[1..]);
      FrontIsApart(s);
      SpanSize(s[0].start, s[0].end);
      assert Span(s[0].start, s[0].end) !! Covered(s[1..]);
    }
  }

  /** Everything after the first entry lies beyond a gap. */
  lemma FrontIsApart(s: seq<Interval>)
    requires Separated(s) && s != []
    ensures forall i | i in Covered(s[1..]) :: s[0].end < i
  {
    var top := UpperEnd(s[1..]);
    CoveredBounds(s[1..], s[0].end + 1, top);
  }

  lemma FrontNotCovered(s: seq<Interval>, lo: nat)
    requires Separated(s) && s != [] && s[0].start != lo
    requires forall i | i in Covered(s) :: lo <= i
    ensures lo !in Covered(s)
  {
    assert s[0].start in Span(s[0].start, s[0].end);
    FrontIsApart(s);
  }

  ghost function UpperEnd(s: seq<Interval>): (hi: nat)
    requires Separated(s)
    ensures forall k | 0 <= k < |s| :: s[k].end <= hi
  {
    if s == [] then 0 else s[|s| - 1].end
  }

  /** The state of the merging loop: entries before `it` end before the growing range [lo, hi),
      entries from `it` on may still touch it. */
  ghost predicate Merging(s: seq<Interval>, it: nat, lo: nat, hi: nat) {
    && Separated(s) && it <= |s| && lo < hi
    && (forall k | 0 <= k < it :: s[k].end < lo)
    && (forall k | it <= k < |s| :: lo <= s[k].end)
  }

  /** Folding a touching entry into the range and erasing it covers the same indices. */
  lemma MergeStep(s: seq<Interval>, it: nat, lo: nat, hi: nat)
    requires Merging(s, it, lo, hi) && it < |s| && s[it].start <= hi
    ensures
      var erased, lo', hi' := s[..it] + s[it + 1..], Min(lo, s[it].start), Max(hi, s[it].end);
      && Merging(erased, it, lo', hi')
      && Covered(erased) + Span(lo', hi') == Covered(s) + Span(lo, hi)
      && Total(erased) == Total(s) - (s[it].end - s[it].start)
  {
    var r := s[..it] + s[it + 1..];
    assert forall k | 0 <= k < |r| :: r[k] == s[if k < it then k else k + 1];
    Contribution(s, it);
    assert Span(Min(lo, s[it].start), Max(hi, s[it].end)) == Span(lo, hi) + Span(s[it].start, s[it].end);
  }

  /** Inserting the finished range where it leaves gaps on both sides adds exactly its indices. */
  lemma InsertStep(s: seq<Interval>, it: nat, lo: nat, hi: nat)
    requires Merging(s, it, lo, hi) && (it < |s| ==> hi < s[it].start)
    ensures
      var r := s[..it] + [Interval(lo, hi)] + s[it..];
      Separated(r) && Covered(r) == Covered(s) + Span(lo, hi) && Total(r) == Total(s) + (hi - lo)
  {
    var r := s[..it] + [Interval(lo, hi)] + s[it..];
    MergingGap(s, it, lo, hi);
    InsertKeepsGaps(s, it, Interval(lo, hi));
    SpliceOut(s, it, Interval(lo, hi));
    hide Separated, Covered, Total, Span;
    Contribution(r, it);
  }

  /** Taking an inserted entry out again. */
  lemma SpliceOut(s: seq<Interval>, it: nat, e: Interval)
    requires it <= |s|
    ensures var r := s[..it] + [e] + s[it..]; |r| == |s| + 1 && r[it] == e && r[..it] + r[it + 1..] == s
  {
    var r := s[..it] + [e] + s[it..];
    assert r[..it] == s[..it] && r[it + 1..] == s[it..];
    assert s[..it] + s[it..] == s;
  }

  lemma MergingGap(s: seq<Interval>, it: nat, lo: nat, hi: nat)
    requires Merging(s, it, lo, hi) && (it < |s| ==> hi < s[it].start)
    ensures forall k | it <= k < |s| :: hi < s[k].start
  {
    forall k | it <= k < |s|
      ensures hi < s[k].start
    {
      if it < k {
        assert s[it].start < s[it].end < s[k].start;
      }
    }
  }

  lemma InsertKeepsGaps(s: seq<Interval>, it: nat, e: Interval)
    requires Separated(s) && it <= |s| && e.start < e.end
    requires forall k | 0 <= k < it :: s[k].end < e.start
    requires forall k | it <= k < |s| :: e.end < s[k].start
    ensures Separated(s[..it] + [e] + s[it..])
  {
    var r := s[..it] + [e] + s[it..];
    forall k | 0 <= k < |r|
      ensures r[k].start < r[k].end
    {
      assert r[k] == if k < it then s[k] else if k == it then e else s[k - 1];
    }
    forall j, k | 0 <= j < k < |r|
      ensures r[j].end < r[k].start
    {
      assert r[j] == if j < it then s[j] else if j == it then e else s[j - 1];
      assert r[k] == if k < it then s[k] else if k == it then e else s[k - 1];
    }
  }

  /** The bounds of the entries follow from the bounds of the indices. */
  lemma WithinFromCovered(s: seq<Interval>, lo: nat, hi: nat)
    requires Separated(s)
    requires forall i | i in Covered(s) :: lo <= i < hi
    ensures Within(s, lo, hi)
  {
    forall k | 0 <= k < |s|
      ensures lo <= s[k].start && s[k].end <= hi
    {
      Contribution(s, k);
      assert s[k].start in Covered(s) && s[k].end - 1 in Covered(s);
    }
  }

  /** `lower_bound`: the first entry whose key is at least `key`. */
  method LowerBound(s: seq<Interval>, key: nat) returns (it: nat)
    requires Separated(s)
    ensures it <= |s|
    ensures forall k | 0 <= k < it :: s[k].start < key
    ensures forall k | it <= k < |s| :: key <= s[k].start
  {
    it := 0;
    while it < |s| && s[it].start < key
      invariant it <= |s|
      invariant forall k | 0 <= k < it :: s[k].start < key
    {
      it := it + 1;
    }
  }
}
