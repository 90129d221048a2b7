/**
 * The tagged-region file exporter (`C5Labs\Cli\FileExporter\FileExporter`).
 *
 * A template tree, seen as a map from relative path to content, is copied
 * with three content mutators applied in order to every kept file: cut the
 * `@section` regions listed for the file, apply the substitution table, strip
 * whatever markers remain.
 */
module CliExporter {
  import opened Wrappers
  import opened PhpString
  import opened Glob
  import opened Spans
  import opened Markers
  import opened Exclusions

  /**
   * One value of the substitution table: a `[search, replace]` pair, or a
   * list of such pairs (meant for the files whose path the key glob-matches).
   */
  datatype Subst = Pair(search: string, replace: string) | Pairs(pairs: seq<(string, string)>)

  /** The substitution table: keys with their values, in array order. */
  type SubstTable = seq<(string, Subst)>

  /** The exporter's configuration: the exclusion table (tag names) and the substitutions. */
  datatype Exporter = Exporter(exclusions: Table<string>, substitutions: SubstTable)

  /** `setExclusions`: the whole table is replaced; the substitutions stay. */
  function SetExclusions(e: Exporter, table: Table<string>): (r: Exporter)
    ensures r.exclusions == table && r.substitutions == e.substitutions
  {
    e.(exclusions := table)
  }

  /** `setExclusion` on the exporter's table; the substitutions stay. */
  function SetExclusionOf(e: Exporter, path: string, arg: Arg<string>): (r: Exporter)
    ensures r.exclusions == SetExclusion(e.exclusions, path, arg)
    ensures r.substitutions == e.substitutions
  {
    e.(exclusions := SetExclusion(e.exclusions, path, arg))
  }

  /** `setSubstitutions`: the whole table is replaced; the exclusions stay. */
  function SetSubstitutions(e: Exporter, subs: SubstTable): (r: Exporter)
    ensures r.substitutions == subs && r.exclusions == e.exclusions
  {
    e.(substitutions := subs)
  }

  // ---------------------------------------------------------------------------
  // Stage 1: cutting the listed regions
  // ---------------------------------------------------------------------------

  /** The spans of the regions whose opening name is listed, in match order (`in_array` on each match). */
  function SelectedSpans(rs: seq<Region>, tags: seq<string>): (ss: seq<Span>)
    ensures |ss| <= |rs|
    decreases |rs|
  {
    if |rs| == 0 then []
    else (if rs[0].name in tags then [Span(rs[0].start, rs[0].end)] else []) + SelectedSpans(rs[1..], tags)
  }

  /** Keeping only some of the matches keeps them sorted, disjoint and in bounds. */
  lemma {:induction false} SelectedAscending(rs: seq<Region>, tags: seq<string>, from: int, n: int)
    requires Ascending(SpansOf(rs), from, n)
    ensures Ascending(SelectedSpans(rs, tags), from, n)
    decreases |rs|
  {
    if |rs| > 0 {
      assert SpansOf(rs)[1..] == SpansOf(rs[1..]);
      SelectedAscending(rs[1..], tags, rs[0].end, n);
      var rest := SelectedSpans(rs[1..], tags);
      if rs[0].name in tags {
        assert ([Span(rs[0].start, rs[0].end)] + rest)[1..] == rest;
      } else {
        assert SpansOf(rs)[0] == Span(rs[0].start, rs[0].end);
        assert SelectedSpans(rs, tags) == rest;
        AscendingWeaken(rest, rs[0].end, from, n);
      }
    }
  }

  lemma CoveredCons(s: Span, rest: seq<Span>, i: int)
    ensures Covered([s] + rest, i) <==> (s.lo <= i < s.hi || Covered(rest, i))
  {
    var all := [s] + rest;
    if Covered(rest, i) {
      var k :| 0 <= k < |rest| && rest[k].lo <= i < rest[k].hi;
      assert all[k + 1] == rest[k];
    }
    if Covered(all, i) {
      var k :| 0 <= k < |all| && all[k].lo <= i < all[k].hi;
      if k > 0 {
        assert all[k] == rest[k - 1];
      }
    }
    if s.lo <= i < s.hi {
      assert all[0] == s;
    }
  }

  /** Index `i` lies inside a match whose opening name is listed. */
  predicate InListedRegion(rs: seq<Region>, tags: seq<string>, i: int) {
    exists k | 0 <= k < |rs| :: rs[k].name in tags && rs[k].start <= i < rs[k].end
  }

  /** A character is cut exactly when some match with a listed opening name covers it. */
  lemma {:induction false} SelectedCoveredIff(rs: seq<Region>, tags: seq<string>, i: int)
    ensures Covered(SelectedSpans(rs, tags), i) <==> InListedRegion(rs, tags, i)
    decreases |rs|
  {
    if |rs| == 0 {
    } else {
      SelectedCoveredIff(rs[1..], tags, i);
      var rest := SelectedSpans(rs[1..], tags);
      if rs[0].name in tags {
        CoveredCons(Span(rs[0].start, rs[0].end), rest, i);
      } else {
        assert SelectedSpans(rs, tags) == rest;
      }
      if InListedRegion(rs[1..], tags, i) {
        var k :| 0 <= k < |rs[1..]| && rs[1..][k].name in tags && rs[1..][k].start <= i < rs[1..][k].end;
        assert rs[k + 1] == rs[1..][k];
      }
      if InListedRegion(rs, tags, i) {
        var k :| 0 <= k < |rs| && rs[k].name in tags && rs[k].start <= i < rs[k].end;
        if k > 0 {
          assert rs[1..][k - 1] == rs[k];
        }
      }
    }
  }

  /** One turn of the deletion loop: `substr($contents, 0, $lo - $position) . substr($contents, $hi - $position)`. */
  function CutSpan(contents: string, o: Span, position: int): string {
    SubstrPrefix(contents, o.lo - position) + SubstrFrom(contents, o.hi - position)
  }

  /**
   * The deletion loop: the spans are cut one by one with two `substr` calls
   * each, their bounds shifted left by `position`, the total width already
   * cut. The cumulative shift keeps every later span aimed at the same
   * characters, so exactly the covered characters go and the rest stay in
   * order.
   */
  method CutOffsets(t: string, spans: seq<Span>) returns (r: string)
    requires Ascending(spans, 0, |t|)
    ensures r == Uncovered(t, spans, 0)
    ensures |r| == |t| - TotalWidth(spans)
  {
    var contents := t;
    var position := 0;
    var i := 0;
    ghost var kept: string := "";
    ghost var end := 0;
    assert spans[0..] == spans;
    assert t == kept + t[end..];
    while i < |spans|
      invariant 0 <= i <= |spans| && 0 <= end <= |t|
      invariant Ascending(spans[i..], end, |t|)
      invariant contents == kept + t[end..] && position == end - |kept|
      invariant kept + CopyKept(t, spans[i..], end) == CopyKept(t, spans, 0)
      decreases |spans| - i
    {
      assert spans[i..][0] == spans[i] && spans[i..][1..] == spans[i + 1..];
      assert end <= spans[i].lo <= spans[i].hi <= |t| && Ascending(spans[i + 1..], spans[i].hi, |t|);
      CutGap(t, spans[i], end, kept, contents, position);
      ShiftGrows(t, spans[i], end, kept, position);
      CopyKeptTurn(t, spans[i..], end, kept);
      contents := CutSpan(contents, spans[i], position);
      kept := kept + t[end..spans[i].lo];
      position := position + (spans[i].hi - spans[i].lo);
      end := spans[i].hi;
      i := i + 1;
    }
    assert CopyKept(t, spans[i..], end) == t[end..];
    CopyKeptIsUncovered(t, spans, 0);
    r := contents;
  }

  /**
   * One turn keeps the loop's shape: when the text is the kept gaps followed
   * by the original from `end` on, the two `substr` calls add the gap before
   * the span to the kept part and resume the original after the span.
   */
  lemma CutGap(t: string, o: Span, end: int, kept: string, contents: string, position: int)
    requires 0 <= end <= o.lo <= o.hi <= |t|
    requires contents == kept + t[end..] && position == end - |kept|
    ensures CutSpan(contents, o, position) == (kept + t[end..o.lo]) + t[o.hi..]
  {
    KeepBefore(t, o.lo, end, kept, contents, position);
    ResumeAfter(t, o.hi, end, kept, contents, position);
  }

  // The first `substr` keeps the kept part and the gap.
  lemma KeepBefore(t: string, lo: int, end: int, kept: string, contents: string, position: int)
    requires 0 <= end <= lo <= |t|
    requires contents == kept + t[end..] && position == end - |kept|
    ensures SubstrPrefix(contents, lo - position) == kept + t[end..lo]
  {
    assert contents[..lo - position] == kept + t[end..lo];
  }

  // The second `substr` resumes the original after the span.
  lemma ResumeAfter(t: string, hi: int, end: int, kept: string, contents: string, position: int)
    requires 0 <= end <= hi <= |t|
    requires contents == kept + t[end..] && position == end - |kept|
    ensures SubstrFrom(contents, hi - position) == t[hi..]
  {
    assert contents[hi - position..] == t[hi..];
  }

  /** After a turn the shift is again the original position less the kept part. */
  lemma ShiftGrows(t: string, o: Span, end: int, kept: string, position: int)
    requires 0 <= end <= o.lo <= |t| && position == end - |kept|
    ensures position + (o.hi - o.lo) == o.hi - |kept + t[end..o.lo]|
  {
  }

  /**
   * `processExclusionTags`: unless the file's entry is a non-empty list, the
   * content is returned as it is; otherwise the deletion loop (`CutOffsets`)
   * runs over the matches whose opening name is listed, which leaves the gaps
   * between them: exactly the characters of those matches are removed, every
   * other character is kept in order, and the length drops by the total width
   * removed.
   */
  function ProcessExclusionTags(e: Exporter, path: string, t: string): (r: string)
    ensures ActiveItems(e.exclusions, path).None? ==> r == t
    ensures ActiveItems(e.exclusions, path).Some? ==>
              var spans := SelectedSpans(Regions(t, 0), ActiveItems(e.exclusions, path).value);
              && r == Uncovered(t, spans, 0)
              && |r| == |t| - TotalWidth(spans)
  {
    match ActiveItems(e.exclusions, path)
    case None => t
    case Some(tags) =>
      var spans := SelectedSpans(Regions(t, 0), tags);
      SelectedAscending(Regions(t, 0), tags, 0, |t|);
      CopyKeptIsUncovered(t, spans, 0);
      CopyKept(t, spans, 0)
  }

  /** Character `i` survives the cut exactly when no match with a listed name covers it. */
  lemma KeptIffNotListed(e: Exporter, path: string, t: string, i: int)
    requires ActiveItems(e.exclusions, path).Some?
    ensures var tags := ActiveItems(e.exclusions, path).value;
            Covered(SelectedSpans(Regions(t, 0), tags), i) <==> InListedRegion(Regions(t, 0), tags, i)
  {
    SelectedCoveredIff(Regions(t, 0), ActiveItems(e.exclusions, path).value, i);
  }

  /** When no match carries a listed name, nothing is removed. */
  lemma UnknownTagsRemoveNothing(e: Exporter, path: string, t: string)
    requires ActiveItems(e.exclusions, path).Some?
    requires forall k :: 0 <= k < |Regions(t, 0)| ==> Regions(t, 0)[k].name !in ActiveItems(e.exclusions, path).value
    ensures ProcessExclusionTags(e, path, t) == t
  {
    var tags := ActiveItems(e.exclusions, path).value;
    NoneSelected(Regions(t, 0), tags);
    NoSpansKeepsAll(t);
  }

  lemma {:induction false} NoneSelected(rs: seq<Region>, tags: seq<string>)
    requires forall k :: 0 <= k < |rs| ==> rs[k].name !in tags
    ensures SelectedSpans(rs, tags) == []
    decreases |rs|
  {
    if |rs| > 0 {
      assert forall k :: 0 <= k < |rs[1..]| ==> rs[1..][k] == rs[k + 1];
      NoneSelected(rs[1..], tags);
    }
  }

  // ---------------------------------------------------------------------------
  // Stage 2: substitutions
  // ---------------------------------------------------------------------------

  /**
   * One table entry, as the exporter evidently intends it: a pair is applied
   * to every file; a list of pairs is applied, pair by pair, to the files whose
   * path the key glob-matches (`Str::is`), and to no other file.
   */
  function SubstituteEntry(key: string, v: Subst, path: string, t: string): string {
    match v
    case Pair(s, r) => StrReplace(s, r, t)
    case Pairs(ps) => if StrIs(key, path) then StrReplaceEach(ps, t) else t
  }

  /** `substitute`: the entries in table order, each on the previous output. */
  function Substitute(subs: SubstTable, path: string, t: string): string
    decreases |subs|
  {
    if |subs| == 0 then t
    else Substitute(subs[1..], path, SubstituteEntry(subs[0].0, subs[0].1, path, t))
  }

  /** The pairs in effect for `path`, flattened in table order. */
  function PairsFor(subs: SubstTable, path: string): seq<(string, string)>
    decreases |subs|
  {
    if |subs| == 0 then []
    else
      var here := match subs[0].1
        case Pair(s, r) => [(s, r)]
        case Pairs(ps) => if StrIs(subs[0].0, path) then ps else [];
      here + PairsFor(subs[1..], path)
  }

  /**
   * Substituting is one flat run of `str_replace` calls over the pairs in
   * effect for the path, in table order: later pairs see earlier output.
   */
  lemma {:induction false} SubstituteIsPairsInEffect(subs: SubstTable, path: string, t: string)
    ensures Substitute(subs, path, t) == StrReplaceEach(PairsFor(subs, path), t)
    decreases |subs|
  {
    if |subs| > 0 {
      var key := subs[0].0;
      var v := subs[0].1;
      var here := match v
        case Pair(s, r) => [(s, r)]
        case Pairs(ps) => if StrIs(key, path) then ps else [];
      assert SubstituteEntry(key, v, path, t) == StrReplaceEach(here, t);
      SubstituteIsPairsInEffect(subs[1..], path, SubstituteEntry(key, v, path, t));
      StrReplaceEachAppend(here, PairsFor(subs[1..], path), t);
    }
  }

  /** A chain of pairs composes: `[X→Y, Y→Z]` turns `X` into `Z`. */
  lemma ChainedPairs()
    ensures StrReplaceEach([("X", "Y"), ("Y", "Z")], "X") == "Z"
  {
    ReplacementNotRescanned("X", "Y");
    ReplacementNotRescanned("Y", "Z");
    assert [("X", "Y"), ("Y", "Z")][1..] == [("Y", "Z")];
  }

  /**
   * One table entry exactly as the loop body is written. When the key
   * glob-matches the path, the value is iterated as a list of pairs, so a plain
   * pair is read as two strings whose first two characters become search and
   * replace. Otherwise the value is indexed as a pair, so a list of pairs
   * becomes an array `str_replace`: its first pair is the search list, its
   * second pair the replace list, or `null` (the empty string) when missing.
   */
  function SubstituteEntryAsWritten(key: string, v: Subst, path: string, t: string): string {
    if StrIs(key, path) then
      match v
      case Pairs(ps) => StrReplaceEach(ps, t)
      case Pair(s, r) => StrReplaceEach([(CharAt(s, 0), CharAt(s, 1)), (CharAt(r, 0), CharAt(r, 1))], t)
    else
      match v
      case Pair(s, r) => StrReplace(s, r, t)
      case Pairs(ps) =>
        if |ps| == 0 then t
        else if |ps| == 1 then StrReplaceEach([(ps[0].0, ""), (ps[0].1, "")], t)
        else StrReplaceEach([(ps[0].0, ps[1].0), (ps[0].1, ps[1].1)], t)
  }

  /** `substitute` exactly as written. */
  function SubstituteAsWritten(subs: SubstTable, path: string, t: string): string
    decreases |subs|
  {
    if |subs| == 0 then t
    else SubstituteAsWritten(subs[1..], path, SubstituteEntryAsWritten(subs[0].0, subs[0].1, path, t))
  }

  /** Every list of pairs is keyed by a glob matching the path and no plain pair is: the shapes the loop expects. */
  predicate ScopesFit(subs: SubstTable, path: string) {
    forall k :: 0 <= k < |subs| ==> (subs[k].1.Pairs? <==> StrIs(subs[k].0, path))
  }

  /** When every entry has the shape the loop expects for this path, the loop as written does what is intended. */
  lemma {:induction false} AsWrittenAgreesWhenScopesFit(subs: SubstTable, path: string, t: string)
    requires ScopesFit(subs, path)
    ensures SubstituteAsWritten(subs, path, t) == Substitute(subs, path, t)
    decreases |subs|
  {
    if |subs| > 0 {
      assert 0 <= 0 < |subs|;
      assert subs[0].1.Pairs? <==> StrIs(subs[0].0, path);
      assert forall k :: 0 <= k < |subs[1..]| ==> subs[1..][k] == subs[k + 1];
      AsWrittenAgreesWhenScopesFit(subs[1..], path, SubstituteEntry(subs[0].0, subs[0].1, path, t));
    }
  }

  /**
   * A list of pairs scoped to `controller.php` still runs on `other.php` as
   * written, as the array replacement `["foo", "bar"] → ""`: the content `foo`
   * is erased, where the scoped entry should leave it alone.
   */
  lemma ScopedListLeaksAsWritten()
    ensures SubstituteAsWritten([("controller.php", Pairs([("foo", "bar")]))], "other.php", "foo") == ""
    ensures Substitute([("controller.php", Pairs([("foo", "bar")]))], "other.php", "foo") == "foo"
  {
    assert !StrIs("controller.php", "other.php");
    ReplacementNotRescanned("foo", "");
    assert StrReplace("bar", "", "") == "";
    assert [("foo", ""), ("bar", "")][1..] == [("bar", "")];
  }

  /**
   * A plain pair whose key matches the path is read as two strings as
   * written: `["ab", "cd"]` becomes the swaps `a → b` and `c → d`, so `ab`
   * turns into `bb`, where the pair should turn it into `cd`.
   */
  lemma MatchedPairSplitAsWritten()
    ensures SubstituteAsWritten([("name", Pair("ab", "cd"))], "name", "ab") == "bb"
    ensures Substitute([("name", Pair("ab", "cd"))], "name", "ab") == "cd"
  {
    assert CharAt("ab", 0) == "a" && CharAt("ab", 1) == "b";
    assert CharAt("cd", 0) == "c" && CharAt("cd", 1) == "d";
    assert StrReplace("a", "b", "ab") == "bb" by {
      assert "ab"[..1] == "a";
      assert "ab"[1..] == "b";
      assert "b"[..1] != "a";
      assert StrReplace("a", "b", "b") == "b";
    }
    assert !Contains("bb", "c") by {
      FirstCharAbsent("bb", "c");
    }
    assert [("a", "b"), ("c", "d")][1..] == [("c", "d")];
    ReplacementNotRescanned("ab", "cd");
  }

  // ---------------------------------------------------------------------------
  // Stage 3: stripping the remaining markers
  // ---------------------------------------------------------------------------

  /**
   * `removeTemplateTags`: every case-sensitive opening or closing marker,
   * with the whitespace before it, is deleted. The content comes back as it
   * is exactly when it holds no such marker.
   */
  function RemoveTemplateTags(t: string): (r: string)
    ensures |r| <= |t|
    ensures r == t <==> TagFreeFrom(t, 0)
  {
    TagsMatchEnds(t);
    StripUnchangedIff(t, Tags(t), 0);
    TagFreeIsMatchFree(t, 0);
    assert t[0..] == t;
    StripFrom(t, Tags(t), 0)
  }

  // A marker split in two by another marker: `/*@sec`, then `/*@section a*/`, then `tion a*/`.
  const SplitMarker := "/*@sec/*@section a*/tion a*/"

  /**
   * Stripping is not idempotent: deleting the inner marker joins the text
   * around it into a new marker, which only a second pass deletes.
   */
  lemma StrippingNotIdempotent()
    ensures RemoveTemplateTags(SplitMarker) == "/*@section a*/"
    ensures RemoveTemplateTags(RemoveTemplateTags(SplitMarker)) != RemoveTemplateTags(SplitMarker)
  {
    SplitMarkerStripsOnce();
    SplitMarkerJoins();
    JoinedMarkerTagged();
  }

  // One pass removes the inner marker and nothing else.
  lemma SplitMarkerStripsOnce()
    ensures RemoveTemplateTags(SplitMarker) == SplitMarker[0..6] + SplitMarker[20..28]
  {
    TagsMatchEnds(SplitMarker);
    SplitMarkerMatches();
    StripSkipsOneMatch(SplitMarker, Tags(SplitMarker), 6, 20);
  }

  // Where the stripping matches of the split marker are.
  lemma SplitMarkerMatches()
    ensures |Tags(SplitMarker)| == 28
    ensures forall p :: 0 <= p < 6 ==> Tags(SplitMarker)[p].None?
    ensures Tags(SplitMarker)[6] == Some(20)
    ensures forall p :: 20 <= p < 28 ==> Tags(SplitMarker)[p].None?
  {
    SplitMarkerFirst();
    SplitMarkerHead();
    SplitMarkerInner();
    SplitMarkerTail();
  }

  /** With a single match, from `a` to `e`, stripping keeps what lies before and after it. */
  lemma StripSkipsOneMatch(t: string, ts: seq<Option<nat>>, a: nat, e: nat)
    requires MatchEnds(|t|, ts) && a < e <= |t|
    requires forall p :: 0 <= p < a ==> ts[p].None?
    requires ts[a] == Some(e)
    requires forall p :: e <= p < |t| ==> ts[p].None?
    ensures StripFrom(t, ts, 0) == t[0..a] + t[e..|t|]
  {
    StripRun(t, ts, 0, a);
    StripRun(t, ts, e, |t|);
  }

  // Dropping the inner marker leaves `/*@section a*/`.
  lemma SplitMarkerJoins()
    ensures SplitMarker[0..6] + SplitMarker[20..28] == "/*@section a*/"
  {
    var j := SplitMarker[0..6] + SplitMarker[20..28];
    assert |j| == 14;
    assert forall k :: 0 <= k < 6 ==> j[k] == SplitMarker[k];
    assert forall k :: 6 <= k < 14 ==> j[k] == SplitMarker[k + 14];
  }

  // No stripping match starts at the first `/*`: `@sec/` is not `@section`.
  lemma SplitMarkerFirst()
    ensures TagAt(SplitMarker, 0).None?
  {
    SplitMarkerOpens();
    SplitMarkerNoKeyword();
    NoKeywordAfterOpenNoTag(SplitMarker, 0);
  }

  // The text opens with `/*`, no whitespace before or after it.
  lemma SplitMarkerOpens()
    ensures SkipSpaces(SplitMarker, 0) == 0 && SkipSpaces(SplitMarker, 2) == 2
  {
    assert !IsSpace(SplitMarker[0]) && !IsSpace(SplitMarker[2]);
  }

  // Neither keyword follows the first `/*`.
  lemma SplitMarkerNoKeyword()
    ensures !LiteralAt(SplitMarker, 2, Section, false) && !LiteralAt(SplitMarker, 2, EndSection, false)
  {
    assert SplitMarker[6] != Section[4];
    assert SplitMarker[3] != EndSection[1];
  }

  // No stripping match starts in the rest of `/*@sec`.
  lemma SplitMarkerHead()
    ensures forall p :: 1 <= p < 6 ==> TagAt(SplitMarker, p).None?
  {
    assert forall p :: 1 <= p < 6 ==> !IsSpace(SplitMarker[p]) && SplitMarker[p] != '/';
    NoSlashRunNoTag(SplitMarker, 1, 6);
  }

  // The inner marker spans indices 6 to 20.
  lemma SplitMarkerInner()
    ensures TagAt(SplitMarker, 6) == Some(20)
  {
    SplitMarkerInnerOpens();
    SplitMarkerInnerCloses();
    OpeningMarkerTag(SplitMarker, 6, 17, 18);
  }

  // The scanner's steps over `/*@section` at index 6.
  lemma SplitMarkerInnerOpens()
    ensures SkipSpaces(SplitMarker, 6) == 6 && LiteralAt(SplitMarker, 6, "/*", false)
    ensures SkipSpaces(SplitMarker, 8) == 8 && LiteralAt(SplitMarker, 8, Section, false)
  {
  }

  // The scanner's steps over ` a*/` at index 16.
  lemma SplitMarkerInnerCloses()
    ensures SkipSpaces(SplitMarker, 16) == 17 && SkipName(SplitMarker, 17, false) == 18
    ensures SkipSpaces(SplitMarker, 18) == 18 && LiteralAt(SplitMarker, 18, "*/", false)
  {
  }

  // No stripping match starts in `tion a*/`.
  lemma SplitMarkerTail()
    ensures forall p :: 20 <= p < 28 ==> TagAt(SplitMarker, p).None?
  {
    var t := SplitMarker;
    forall p | 20 <= p < 27
      ensures TagAt(t, p).None?
    {
      NoSlashNoTag(t, p);
    }
    assert !LiteralAt(t, 27, "/*", false);
  }

  // What is left after one pass is itself a marker.
  lemma JoinedMarkerTagged()
    ensures !TagFreeFrom("/*@section a*/", 0)
  {
    JoinedMarkerSteps();
    OpeningMarkerTag("/*@section a*/", 0, 11, 12);
  }

  // The scanner's steps over `/*@section a*/` at index 0.
  lemma JoinedMarkerSteps()
    ensures SkipSpaces("/*@section a*/", 0) == 0 && LiteralAt("/*@section a*/", 0, "/*", false)
    ensures SkipSpaces("/*@section a*/", 2) == 2 && LiteralAt("/*@section a*/", 2, Section, false)
    ensures SkipSpaces("/*@section a*/", 10) == 11 && SkipName("/*@section a*/", 11, false) == 12
    ensures SkipSpaces("/*@section a*/", 12) == 12 && LiteralAt("/*@section a*/", 12, "*/", false)
  {
  }

  // ---------------------------------------------------------------------------
  // The pipeline and the export
  // ---------------------------------------------------------------------------

  /** `prepare`: the three mutators in order, each given the previous output and the same path. */
  function Prepare(e: Exporter, path: string, t: string): string {
    RemoveTemplateTags(Substitute(e.substitutions, path, ProcessExclusionTags(e, path, t)))
  }

  /**
   * A file with nothing to cut, none of the pairs in effect for it occurring
   * in it, and no marker left, is exported byte for byte.
   */
  lemma PrepareUntouched(e: Exporter, path: string, t: string)
    requires ActiveItems(e.exclusions, path).None?
    requires forall k :: 0 <= k < |PairsFor(e.substitutions, path)| ==> !Contains(t, PairsFor(e.substitutions, path)[k].0)
    requires TagFreeFrom(t, 0)
    ensures Prepare(e, path, t) == t
  {
    SubstituteIsPairsInEffect(e.substitutions, path, t);
  }

  /** `prepare` with `substitute` exactly as written. */
  function PrepareAsWritten(e: Exporter, path: string, t: string): string {
    RemoveTemplateTags(SubstituteAsWritten(e.substitutions, path, ProcessExclusionTags(e, path, t)))
  }

  /**
   * The pipeline as written prepares a file as the corrected one does
   * whenever every entry of the substitution table has the shape the loop
   * expects for that file.
   */
  lemma PrepareAsWrittenAgreesWhenScopesFit(e: Exporter, path: string, t: string)
    requires ScopesFit(e.substitutions, path)
    ensures PrepareAsWritten(e, path, t) == Prepare(e, path, t)
  {
    AsWrittenAgreesWhenScopesFit(e.substitutions, path, ProcessExclusionTags(e, path, t));
  }

  /**
   * `export`: when the grandparent of the destination is not writable, an
   * `InvalidArgumentException` naming the destination's parent, and nothing is
   * written; otherwise every source file whose entry is not exactly `true`,
   * under its relative path, holding its prepared content.
   */
  function Export(e: Exporter, src: map<string, string>, basePath: string, writable: bool)
    : (r: Result<map<string, string>, Exception>)
    ensures r.Failure? <==> !writable
    ensures r.Failure? ==> r.error == InvalidArgumentException("Path [" + basePath + "] is not writable.")
    ensures r.Success? ==> r.value.Keys == set p | p in src && !ShouldExcludeEntirely(e.exclusions, p)
    ensures r.Success? ==> forall p :: p in r.value ==> r.value[p] == Prepare(e, p, src[p])
  {
    if !writable then Failure(InvalidArgumentException("Path [" + basePath + "] is not writable."))
    else Success(map p | p in src && !ShouldExcludeEntirely(e.exclusions, p) :: Prepare(e, p, src[p]))
  }

  /** A file set to `true` is not exported, and setting a list after it brings it back. */
  lemma SkipThenListExports(e: Exporter, src: map<string, string>, basePath: string, path: string, tags: seq<string>)
    requires path in src
    ensures var skipped := SetExclusionOf(e, path, NotArray);
            path !in Export(skipped, src, basePath, true).value
            && path in Export(SetExclusionOf(skipped, path, Items(tags)), src, basePath, true).value
  {
  }
}
