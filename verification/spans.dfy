/**
 * Deleting a set of ranges from a sequence, stated two ways: copying the gaps
 * between sorted ranges (`CopyKept`), and keeping every element that no range
 * covers (`Uncovered`). Both exporters delete this way: the tagged-region
 * exporter on characters, the line-range exporter on lines.
 */
module Spans {

  /** The half-open index range `[lo, hi)`. */
  datatype Span = Span(lo: int, hi: int)

  /**
   * The spans lie inside a sequence of length `n`, are each well-formed, the
   * first starts at or after `from`, and each starts at or after the end of the
   * one before: sorted and pairwise disjoint.
   */
  predicate Ascending(spans: seq<Span>, from: int, n: int)
    decreases |spans|
  {
    |spans| == 0
    || (0 <= from <= spans[0].lo <= spans[0].hi <= n && Ascending(spans[1..], spans[0].hi, n))
  }

  /** The number of elements the spans cover together. */
  function TotalWidth(spans: seq<Span>): int
    decreases |spans|
  {
    if |spans| == 0 then 0 else (spans[0].hi - spans[0].lo) + TotalWidth(spans[1..])
  }

  /** Position `i` lies in one of the spans. */
  predicate Covered(spans: seq<Span>, i: int) {
    exists k | 0 <= k < |spans| :: spans[k].lo <= i < spans[k].hi
  }

  /** The elements of `xs[from..]` that no span covers, in their original order. */
  function Uncovered<T>(xs: seq<T>, spans: seq<Span>, from: nat): seq<T>
    decreases |xs| - from
  {
    if from >= |xs| then []
    else (if Covered(spans, from) then [] else [xs[from]]) + Uncovered(xs, spans, from + 1)
  }

  /** The gaps of `xs[from..]` between consecutive spans, concatenated. */
  function CopyKept<T>(xs: seq<T>, spans: seq<Span>, from: int): (r: seq<T>)
    requires 0 <= from <= |xs| && Ascending(spans, from, |xs|)
    ensures |r| == |xs| - from - TotalWidth(spans)
    decreases |spans|
  {
    if |spans| == 0 then xs[from..]
    else xs[from..spans[0].lo] + CopyKept(xs, spans[1..], spans[0].hi)
  }

  /** Every span of an ascending list starts at or after `from`. */
  lemma {:induction false} AscendingLowerBound(spans: seq<Span>, from: int, n: int)
    requires Ascending(spans, from, n)
    ensures forall k :: 0 <= k < |spans| ==> from <= spans[k].lo <= spans[k].hi <= n
    decreases |spans|
  {
    if |spans| > 0 {
      AscendingLowerBound(spans[1..], spans[0].hi, n);
      forall k | 1 <= k < |spans|
        ensures from <= spans[k].lo <= spans[k].hi <= n
      {
        assert spans[k] == spans[1..][k - 1];
      }
    }
  }

  /** An ascending list stays ascending from any earlier non-negative start. */
  lemma AscendingWeaken(spans: seq<Span>, from: int, earlier: int, n: int)
    requires Ascending(spans, from, n) && 0 <= earlier <= from
    ensures Ascending(spans, earlier, n)
  {
  }

  /** Positions that no span covers are copied one by one. */
  lemma {:induction false} UncoveredRun<T>(xs: seq<T>, spans: seq<Span>, i: nat, j: nat)
    requires i <= j <= |xs|
    requires forall p :: i <= p < j ==> !Covered(spans, p)
    ensures Uncovered(xs, spans, i) == xs[i..j] + Uncovered(xs, spans, j)
    decreases j - i
  {
    if i < j {
      assert !Covered(spans, i);
      UncoveredKeeps(xs, spans, i);
      UncoveredRun(xs, spans, i + 1, j);
      ConsSlice(xs, i, j, Uncovered(xs, spans, j));
    }
  }

  // An uncovered position is copied, then the rest follows.
  lemma UncoveredKeeps<T>(xs: seq<T>, spans: seq<Span>, i: nat)
    requires i < |xs| && !Covered(spans, i)
    ensures Uncovered(xs, spans, i) == [xs[i]] + Uncovered(xs, spans, i + 1)
  {
  }

  // Putting one element in front of a slice extends the slice.
  lemma ConsSlice<T>(xs: seq<T>, i: nat, j: nat, tail: seq<T>)
    requires i < j <= |xs|
    ensures [xs[i]] + (xs[i + 1..j] + tail) == xs[i..j] + tail
  {
    assert xs[i..j] == [xs[i]] + xs[i + 1..j];
  }

  // Two sequences with the same first element are equal exactly when their rests are.
  lemma ConsEqualIff<T>(x: T, a: seq<T>, b: seq<T>)
    ensures [x] + a == [x] + b <==> a == b
  {
    if [x] + a == [x] + b {
      assert a == ([x] + a)[1..];
    }
  }

  // One turn of the gap copy: the gap before the first span joins the kept prefix.
  lemma CopyKeptTurn<T>(xs: seq<T>, rest: seq<Span>, end: int, kept: seq<T>)
    requires |rest| > 0 && 0 <= end <= |xs| && Ascending(rest, end, |xs|)
    ensures (kept + xs[end..rest[0].lo]) + CopyKept(xs, rest[1..], rest[0].hi) == kept + CopyKept(xs, rest, end)
  {
    var k := CopyKept(xs, rest[1..], rest[0].hi);
    assert CopyKept(xs, rest, end) == xs[end..rest[0].lo] + k;
    assert (kept + xs[end..rest[0].lo]) + k == kept + (xs[end..rest[0].lo] + k);
  }

  /** Positions that some span covers contribute nothing. */
  lemma {:induction false} CoveredRun<T>(xs: seq<T>, spans: seq<Span>, i: nat, j: nat)
    requires i <= j <= |xs|
    requires forall p :: i <= p < j ==> Covered(spans, p)
    ensures Uncovered(xs, spans, i) == Uncovered(xs, spans, j)
    decreases j - i
  {
    if i < j {
      CoveredRun(xs, spans, i + 1, j);
    }
  }

  /** Two span lists that cover the same positions from `i` on keep the same elements. */
  lemma {:induction false} UncoveredSameCover<T>(xs: seq<T>, a: seq<Span>, b: seq<Span>, i: nat)
    requires forall p :: i <= p < |xs| ==> (Covered(a, p) <==> Covered(b, p))
    ensures Uncovered(xs, a, i) == Uncovered(xs, b, i)
    decreases |xs| - i
  {
    if i < |xs| {
      UncoveredSameCover(xs, a, b, i + 1);
    }
  }

  /**
   * Copying the gaps between sorted, disjoint, in-bounds spans removes exactly
   * the covered elements and keeps every other element in order.
   */
  lemma {:induction false} CopyKeptIsUncovered<T>(xs: seq<T>, spans: seq<Span>, from: nat)
    requires from <= |xs| && Ascending(spans, from, |xs|)
    ensures CopyKept(xs, spans, from) == Uncovered(xs, spans, from)
    decreases |spans|
  {
    if |spans| == 0 {
      UncoveredRun(xs, spans, from, |xs|);
      assert xs[from..|xs|] == xs[from..];
    } else {
      var s := spans[0];
      var rest := spans[1..];
      AscendingLowerBound(rest, s.hi, |xs|);
      forall p | from <= p < s.lo
        ensures !Covered(spans, p)
      {
        forall k | 1 <= k < |spans|
          ensures spans[k].lo >= s.hi
        {
          assert spans[k] == rest[k - 1];
        }
      }
      UncoveredRun(xs, spans, from, s.lo);
      forall p | s.lo <= p < s.hi
        ensures Covered(spans, p)
      {
        assert spans[0].lo <= p < spans[0].hi;
      }
      CoveredRun(xs, spans, s.lo, s.hi);
      forall p | s.hi <= p < |xs|
        ensures Covered(spans, p) <==> Covered(rest, p)
      {
        if Covered(spans, p) {
          var k :| 0 <= k < |spans| && spans[k].lo <= p < spans[k].hi;
          assert k != 0;
          assert rest[k - 1] == spans[k];
        }
        if Covered(rest, p) {
          var k :| 0 <= k < |rest| && rest[k].lo <= p < rest[k].hi;
          assert spans[k + 1] == rest[k];
        }
      }
      UncoveredSameCover(xs, spans, rest, s.hi);
      CopyKeptIsUncovered(xs, rest, s.hi);
    }
  }

  /** Only elements of the sequence are kept. */
  lemma {:induction false} UncoveredElements<T>(xs: seq<T>, spans: seq<Span>, from: nat)
    ensures forall y :: y in Uncovered(xs, spans, from) ==> y in xs
    decreases |xs| - from
  {
    if from < |xs| {
      UncoveredElements(xs, spans, from + 1);
    }
  }

  /** With no spans at all, every element is kept. */
  lemma NoSpansKeepsAll<T>(xs: seq<T>)
    ensures Uncovered(xs, [], 0) == xs
  {
    UncoveredRun(xs, [], 0, |xs|);
    assert xs[0..|xs|] == xs;
  }
}
