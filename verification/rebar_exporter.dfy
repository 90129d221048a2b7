/**
 * The line-range file exporter (`C5Dev\Rebar\FileExporter\FileExporter`).
 *
 * Each kept file goes through two mutators: cut the line ranges listed for it,
 * then apply every substitution pair. Template markers are never stripped.
 */
module RebarExporter {
  import opened Wrappers
  import opened PhpString
  import opened Spans
  import opened Exclusions

  /** `[start, count]`: `count` lines from the 1-indexed line `start`. */
  datatype LineRange = LineRange(start: int, count: int)

  /** The substitution table: keys (never read) with their `[search, replace]` pairs, in array order. */
  type SubstTable = seq<(string, (string, string))>

  /** The exporter's configuration: the exclusion table (line ranges) and the substitutions. */
  datatype Exporter = Exporter(exclusions: Table<LineRange>, substitutions: SubstTable)

  /** `setExclusions`: the whole table is replaced; the substitutions stay. */
  function SetExclusions(e: Exporter, table: Table<LineRange>): (r: Exporter)
    ensures r.exclusions == table && r.substitutions == e.substitutions
  {
    e.(exclusions := table)
  }

  /** `setExclusion` on the exporter's table; the substitutions stay. */
  function SetExclusionOf(e: Exporter, path: string, arg: Arg<LineRange>): (r: Exporter)
    ensures r.exclusions == SetExclusion(e.exclusions, path, arg)
    ensures r.substitutions == e.substitutions
  {
    e.(exclusions := SetExclusion(e.exclusions, path, arg))
  }

  /** `setSubstitutions`: the whole table is replaced; the exclusions stay. */
  function SetSubstitutions(e: Exporter, subs: SubstTable): (r: Exporter)
    ensures r.substitutions == subs && r.exclusions == e.exclusions
  {
    e.(substitutions := subs)
  }

  // ---------------------------------------------------------------------------
  // Sorting the ranges
  // ---------------------------------------------------------------------------

  predicate SortedByStart(rs: seq<LineRange>) {
    forall i, j :: 0 <= i < j < |rs| ==> rs[i].start <= rs[j].start
  }

  /** Puts `x` in front of the first range that does not start before it. */
  function Insert(x: LineRange, sorted: seq<LineRange>): (r: seq<LineRange>)
    requires SortedByStart(sorted)
    ensures SortedByStart(r)
    ensures multiset(r) == multiset(sorted) + multiset{x}
    ensures forall y :: y in r ==> y == x || y in sorted
    decreases |sorted|
  {
    if |sorted| == 0 then [x]
    else if x.start <= sorted[0].start then
      InsertFront(x, sorted);
      [x] + sorted
    else
      var rest := Insert(x, sorted[1..]);
      InsertPast(x, sorted, rest);
      [sorted[0]] + rest
  }

  // `x` goes in front of a list whose first range does not start before it.
  lemma InsertFront(x: LineRange, sorted: seq<LineRange>)
    requires SortedByStart(sorted) && |sorted| > 0 && x.start <= sorted[0].start
    ensures SortedByStart([x] + sorted)
  {
    HeadStartsFirst(sorted);
    SortedCons(x, sorted);
  }

  // `x` goes past the first range: it keeps its place in front of the rest.
  lemma InsertPast(x: LineRange, sorted: seq<LineRange>, rest: seq<LineRange>)
    requires SortedByStart(sorted) && |sorted| > 0
    requires SortedByStart(rest) && multiset(rest) == multiset(sorted[1..]) + multiset{x}
    requires sorted[0].start < x.start && forall y :: y in rest ==> y == x || y in sorted[1..]
    ensures SortedByStart([sorted[0]] + rest)
    ensures multiset([sorted[0]] + rest) == multiset(sorted) + multiset{x}
    ensures forall y :: y in [sorted[0]] + rest ==> y == x || y in sorted
  {
    HeadStartsFirst(sorted);
    assert forall y :: y in sorted[1..] ==> y in sorted;
    SortedCons(sorted[0], rest);
    assert sorted == [sorted[0]] + sorted[1..];
  }

  // No range of a sorted list starts before its first one.
  lemma HeadStartsFirst(sorted: seq<LineRange>)
    requires SortedByStart(sorted) && |sorted| > 0
    ensures forall y :: y in sorted ==> sorted[0].start <= y.start
  {
    forall y | y in sorted
      ensures sorted[0].start <= y.start
    {
      var k :| 0 <= k < |sorted| && sorted[k] == y;
      if k > 0 {
        assert sorted[0].start <= sorted[k].start;
      }
    }
  }

  // A range that starts no later than any range of a sorted list can go in front.
  lemma SortedCons(a: LineRange, rest: seq<LineRange>)
    requires SortedByStart(rest) && forall y :: y in rest ==> a.start <= y.start
    ensures SortedByStart([a] + rest)
  {
    var r := [a] + rest;
    forall i, j | 0 <= i < j < |r|
      ensures r[i].start <= r[j].start
    {
      assert r[j] == rest[j - 1] && rest[j - 1] in rest;
      if i > 0 {
        assert r[i] == rest[i - 1];
      }
    }
  }

  /**
   * The `uasort` by start line: the ranges in ascending order of start, ties
   * kept in their configured order, none lost or added.
   */
  function SortByStart(rs: seq<LineRange>): (r: seq<LineRange>)
    ensures SortedByStart(r)
    ensures multiset(r) == multiset(rs)
    decreases |rs|
  {
    if |rs| == 0 then []
    else
      assert rs == [rs[0]] + rs[1..];
      Insert(rs[0], SortByStart(rs[1..]))
  }

  /** No two ranges start on the same line, and they are in order. */
  predicate StrictlyByStart(rs: seq<LineRange>) {
    forall i, j :: 0 <= i < j < |rs| ==> rs[i].start < rs[j].start
  }

  /**
   * When no two ranges share a start line, there is only one way to order
   * them by start: any sorted permutation is the strictly ordered one.
   */
  lemma {:induction false} SortedPermutationUnique(x: seq<LineRange>, y: seq<LineRange>)
    requires StrictlyByStart(x) && SortedByStart(y)
    requires multiset(x) == multiset(y)
    ensures x == y
    decreases |x|
  {
    assert |x| == |multiset(x)| == |multiset(y)| == |y|;
    if |x| > 0 {
      SameHead(x, y);
      TailsSameMultiset(x, y);
      SortedPermutationUnique(x[1..], y[1..]);
      assert x == [x[0]] + x[1..] && y == [y[0]] + y[1..];
    }
  }

  /** Both sequences start with the one range of least start. */
  lemma SameHead(x: seq<LineRange>, y: seq<LineRange>)
    requires StrictlyByStart(x) && SortedByStart(y)
    requires multiset(x) == multiset(y) && |x| > 0
    ensures |y| > 0 && x[0] == y[0]
  {
    assert x[0] in multiset(y);
    var k :| 0 <= k < |y| && y[k] == x[0];
    assert y[0] in multiset(x);
    var m :| 0 <= m < |x| && x[m] == y[0];
    assert y[0].start <= y[k].start;
  }

  lemma TailsSameMultiset(x: seq<LineRange>, y: seq<LineRange>)
    requires |x| > 0 && |y| > 0 && x[0] == y[0]
    requires multiset(x) == multiset(y)
    ensures multiset(x[1..]) == multiset(y[1..])
  {
    assert x == [x[0]] + x[1..] && y == [y[0]] + y[1..];
    assert multiset(x[1..]) == multiset(x) - multiset{x[0]};
    assert multiset(y[1..]) == multiset(y) - multiset{y[0]};
  }

  /** `SortByStart` of ranges with distinct starts is their strictly ascending arrangement. */
  lemma SortsTo(rs: seq<LineRange>, x: seq<LineRange>)
    requires StrictlyByStart(x) && multiset(rs) == multiset(x)
    ensures SortByStart(rs) == x
  {
    SortedPermutationUnique(x, SortByStart(rs));
  }

  // ---------------------------------------------------------------------------
  // Cutting the ranges
  // ---------------------------------------------------------------------------

  /** The 0-indexed span of lines a range names. */
  function ToSpan(x: LineRange): Span {
    Span(x.start - 1, x.start - 1 + x.count)
  }

  function ToSpans(rs: seq<LineRange>): (ss: seq<Span>)
    ensures |ss| == |rs|
    ensures forall k :: 0 <= k < |rs| ==> ss[k] == ToSpan(rs[k])
    decreases |rs|
  {
    if |rs| == 0 then [] else [ToSpan(rs[0])] + ToSpans(rs[1..])
  }

  /** The sum of the counts of the ranges. */
  function SumCounts(rs: seq<LineRange>): int
    decreases |rs|
  {
    if |rs| == 0 then 0 else rs[0].count + SumCounts(rs[1..])
  }

  /** The lines the spans of the ranges cover together are the sum of their counts. */
  lemma {:induction false} WidthIsSumCounts(rs: seq<LineRange>)
    ensures TotalWidth(ToSpans(rs)) == SumCounts(rs)
    decreases |rs|
  {
    if |rs| > 0 {
      assert ToSpans(rs)[1..] == ToSpans(rs[1..]);
      WidthIsSumCounts(rs[1..]);
    }
  }

  /**
   * The deletion loop: each range is cut with `array_splice` at its start
   * line shifted up by `count`, the number of lines already cut.
   */
  function SpliceLines(lines: seq<string>, rs: seq<LineRange>, count: int): seq<string>
    decreases |rs|
  {
    if |rs| == 0 then lines
    else SpliceLines(ArraySplice(lines, (rs[0].start - count) - 1, rs[0].count), rs[1..], count + rs[0].count)
  }

  /**
   * The `$count`-adjusted loop is the gap copy: when the lines still to be
   * processed are a kept prefix `p` followed by the untouched original lines
   * from `from` on, and `p` is exactly `count` lines shorter than `from`, the
   * loop yields `p` followed by the gaps between the remaining ranges.
   */
  lemma {:induction false} SpliceLinesCopiesKept(orig: seq<string>, rs: seq<LineRange>, from: int, p: seq<string>, count: int)
    requires 0 <= from <= |orig| && Ascending(ToSpans(rs), from, |orig|)
    requires |p| == from - count
    ensures SpliceLines(p + orig[from..], rs, count) == p + CopyKept(orig, ToSpans(rs), from)
    decreases |rs|
  {
    if |rs| > 0 {
      FirstSpan(rs, from, |orig|);
      KeptPrefixGrows(orig, rs[0], from, p, count);
      SpliceLinesCopiesKept(orig, rs[1..], ToSpan(rs[0]).hi, p + orig[from..ToSpan(rs[0]).lo], count + rs[0].count);
      SpliceKeptTurn(orig, rs, from, p, count);
    } else {
      SpliceNoRanges(orig, rs, from, p, count);
    }
  }

  // With no ranges left, the loop keeps the rest of the lines.
  lemma SpliceNoRanges(orig: seq<string>, rs: seq<LineRange>, from: int, p: seq<string>, count: int)
    requires 0 <= from <= |orig| && |rs| == 0
    ensures SpliceLines(p + orig[from..], rs, count) == p + CopyKept(orig, ToSpans(rs), from)
  {
    assert CopyKept(orig, ToSpans(rs), from) == orig[from..];
  }

  // After one cut, the kept prefix is still `count` lines shorter than the resume point.
  lemma KeptPrefixGrows(orig: seq<string>, x: LineRange, from: int, p: seq<string>, count: int)
    requires 0 <= from <= ToSpan(x).lo <= ToSpan(x).hi <= |orig| && |p| == from - count
    ensures |p + orig[from..ToSpan(x).lo]| == ToSpan(x).hi - (count + x.count)
  {
  }

  // The turn that cuts the first range, given what the loop makes of the rest.
  lemma SpliceKeptTurn(orig: seq<string>, rs: seq<LineRange>, from: int, p: seq<string>, count: int)
    requires |rs| > 0 && 0 <= from <= |orig| && Ascending(ToSpans(rs), from, |orig|) && |p| == from - count
    requires SpliceLines((p + orig[from..ToSpan(rs[0]).lo]) + orig[ToSpan(rs[0]).hi..], rs[1..], count + rs[0].count)
             == (p + orig[from..ToSpan(rs[0]).lo]) + CopyKept(orig, ToSpans(rs[1..]), ToSpan(rs[0]).hi)
    ensures SpliceLines(p + orig[from..], rs, count) == p + CopyKept(orig, ToSpans(rs), from)
  {
    FirstSpan(rs, from, |orig|);
    SpliceTurn(orig, rs, from, p, count);
    CopyKeptTurn(orig, ToSpans(rs), from, p);
  }

  // The first range's span lies inside the text after `from`, and the rest follow it.
  lemma FirstSpan(rs: seq<LineRange>, from: int, n: int)
    requires |rs| > 0 && Ascending(ToSpans(rs), from, n)
    ensures ToSpans(rs)[0] == ToSpan(rs[0]) && ToSpans(rs)[1..] == ToSpans(rs[1..])
    ensures from <= ToSpan(rs[0]).lo <= ToSpan(rs[0]).hi <= n && Ascending(ToSpans(rs[1..]), ToSpan(rs[0]).hi, n)
  {
    assert ToSpans(rs)[1..] == ToSpans(rs[1..]);
  }

  // One turn of the loop, with `count` lines cut before the first range: the gap before it joins the kept prefix.
  lemma SpliceTurn(orig: seq<string>, rs: seq<LineRange>, from: int, p: seq<string>, count: int)
    requires |rs| > 0 && 0 <= from <= ToSpan(rs[0]).lo <= ToSpan(rs[0]).hi <= |orig| && |p| == from - count
    ensures SpliceLines(p + orig[from..], rs, count)
            == SpliceLines((p + orig[from..ToSpan(rs[0]).lo]) + orig[ToSpan(rs[0]).hi..], rs[1..], count + rs[0].count)
  {
    SpliceGap(orig, rs[0], from, p, count);
  }

  // Splicing out one range, with `count` lines cut before it, leaves the gap before it kept.
  lemma SpliceGap(orig: seq<string>, x: LineRange, from: int, p: seq<string>, count: int)
    requires 0 <= from <= ToSpan(x).lo <= ToSpan(x).hi <= |orig| && |p| == from - count
    ensures ArraySplice(p + orig[from..], (x.start - count) - 1, x.count)
            == (p + orig[from..ToSpan(x).lo]) + orig[ToSpan(x).hi..]
  {
    var lines := p + orig[from..];
    assert lines[..|p| + (ToSpan(x).lo - from)] == p + orig[from..ToSpan(x).lo];
    assert lines[|p| + (ToSpan(x).hi - from)..] == orig[ToSpan(x).hi..];
  }

  /**
   * `processLineExclusions`: unless the file's entry is a non-empty list, the
   * content is returned as it is. Otherwise, when the sorted ranges are
   * disjoint and inside the file, the lines they name are removed, every
   * other line is kept byte for byte and in order, and the line count drops
   * by the sum of the counts.
   */
  function ProcessLineExclusions(e: Exporter, path: string, t: string): (r: string)
    ensures ActiveItems(e.exclusions, path).None? ==> r == t
    ensures ActiveItems(e.exclusions, path).Some? ==>
              var sorted := SortByStart(ActiveItems(e.exclusions, path).value);
              var lines := Explode(t, '\n');
              var kept := Uncovered(lines, ToSpans(sorted), 0);
              Ascending(ToSpans(sorted), 0, |lines|) ==>
                && r == Implode(kept, '\n')
                && (|kept| > 0 ==> Explode(r, '\n') == kept)
                && |kept| == |lines| - SumCounts(sorted)
  {
    match ActiveItems(e.exclusions, path)
    case None => t
    case Some(rs) =>
      var sorted := SortByStart(rs);
      var lines := Explode(t, '\n');
      var r := Implode(SpliceLines(lines, sorted, 0), '\n');
      LinesCut(lines, sorted);
      r
  }

  /** From the first line on, the loop removes exactly the covered lines; the kept lines still split back out. */
  lemma LinesCut(lines: seq<string>, sorted: seq<LineRange>)
    requires forall k :: 0 <= k < |lines| ==> '\n' !in lines[k]
    ensures var kept := Uncovered(lines, ToSpans(sorted), 0);
            Ascending(ToSpans(sorted), 0, |lines|) ==>
              && SpliceLines(lines, sorted, 0) == kept
              && |kept| == |lines| - SumCounts(sorted)
              && (|kept| > 0 ==> Explode(Implode(kept, '\n'), '\n') == kept)
  {
    var spans := ToSpans(sorted);
    if Ascending(spans, 0, |lines|) {
      SpliceLinesCopiesKept(lines, sorted, 0, [], 0);
      assert [] + lines[0..] == lines;
      CopyKeptIsUncovered(lines, spans, 0);
      WidthIsSumCounts(sorted);
      var kept := Uncovered(lines, spans, 0);
      UncoveredElements(lines, spans, 0);
      if |kept| > 0 {
        forall k | 0 <= k < |kept|
          ensures '\n' !in kept[k]
        {
          assert kept[k] in kept;
        }
        ExplodeImplode(kept, '\n');
      }
    }
  }

  // ---------------------------------------------------------------------------
  // Substitutions, the pipeline and the export
  // ---------------------------------------------------------------------------

  /** `substitute`: every pair, whatever its key and whatever the file, in table order. */
  function Substitute(subs: SubstTable, path: string, t: string): string
    decreases |subs|
  {
    if |subs| == 0 then t
    else Substitute(subs[1..], path, StrReplace(subs[0].1.0, subs[0].1.1, t))
  }

  /** The pairs of the table, in order, keys dropped. */
  function Values(subs: SubstTable): (r: seq<(string, string)>)
    ensures |r| == |subs|
    ensures forall k :: 0 <= k < |subs| ==> r[k] == subs[k].1
    decreases |subs|
  {
    if |subs| == 0 then [] else [subs[0].1] + Values(subs[1..])
  }

  /** Substituting is one run of `str_replace` calls over all pairs, the same for every path. */
  lemma {:induction false} SubstituteIgnoresKeysAndPath(subs: SubstTable, path: string, t: string)
    ensures Substitute(subs, path, t) == StrReplaceEach(Values(subs), t)
    decreases |subs|
  {
    if |subs| > 0 {
      assert Values(subs)[1..] == Values(subs[1..]);
      SubstituteIgnoresKeysAndPath(subs[1..], path, StrReplace(subs[0].1.0, subs[0].1.1, t));
    }
  }

  /** `prepare`: the two mutators in order, each given the previous output and the same path. */
  function Prepare(e: Exporter, path: string, t: string): string {
    Substitute(e.substitutions, path, ProcessLineExclusions(e, path, t))
  }

  /**
   * A file with no lines to cut and none of the search strings in it is
   * exported byte for byte, template markers included: nothing strips them.
   */
  lemma PrepareUntouched(e: Exporter, path: string, t: string)
    requires ActiveItems(e.exclusions, path).None?
    requires forall k :: 0 <= k < |e.substitutions| ==> !Contains(t, e.substitutions[k].1.0)
    ensures Prepare(e, path, t) == t
  {
    SubstituteIgnoresKeysAndPath(e.substitutions, path, t);
  }

  /**
   * `export`: when the grandparent of the destination is not writable, an
   * `InvalidArgumentException` naming the destination's parent, and nothing is
   * written; otherwise every source file whose entry is not exactly `true`,
   * under its relative path, holding its prepared content.
   */
  function Export(e: Exporter, src: map<string, string>, basePath: string, writable: bool)
    : (r: Result<map<string, string>, Exception>)
    ensures r.Failure? <==> !writable
    ensures r.Failure? ==> r.error == InvalidArgumentException("Path [" + basePath + "] is not writable.")
    ensures r.Success? ==> r.value.Keys == set p | p in src && !ShouldExcludeEntirely(e.exclusions, p)
    ensures r.Success? ==> forall p :: p in r.value ==> r.value[p] == Prepare(e, p, src[p])
  {
    if !writable then Failure(InvalidArgumentException("Path [" + basePath + "] is not writable."))
    else Success(map p | p in src && !ShouldExcludeEntirely(e.exclusions, p) :: Prepare(e, p, src[p]))
  }
}
