// The two regular expressions of the tagged-region exporter, written as
// left-to-right scanners.
//
// A marker is `/*`, optional whitespace, a keyword (`@section` or
// `@endsection`), optional whitespace, a name of letters, `-` and `_`, optional
// whitespace and `*/`. Whitespace and name characters are disjoint classes, so
// each greedy run in the pattern has a single way to succeed and the scanners
// below take it without backtracking.
//
// - `Regions` is the `preg_match_all` of the region pattern (case-insensitive):
//   leading whitespace, an opening marker, the shortest gap, then an optional
//   `=` and a closing marker whose name is not compared.
// - `StripFrom` is the `preg_replace` of the stripping pattern (case-sensitive):
//   leading whitespace and one opening or closing marker, removed.
module Markers {
  import opened Wrappers
  import opened Spans

  const Section := "@section"
  const EndSection := "@endsection"

  /** PCRE's `\s` outside UTF mode: space, tab, newline, vertical tab, form feed, carriage return. */
  predicate IsSpace(c: char) {
    c == ' ' || c == '\t' || c == '\n' || c == '\U{0B}' || c == '\U{0C}' || c == '\r'
  }

  /** The character as a caseless ASCII match sees it: upper case folded to lower. */
  function Fold(c: char, caseless: bool): char {
    if caseless && 'A' <= c <= 'Z' then (c as int + 32) as char else c
  }

  /** The class `[a-z-_]`, which the `i` modifier widens to upper-case letters. */
  predicate IsNameChar(c: char, caseless: bool) {
    ('a' <= c <= 'z') || c == '-' || c == '_' || (caseless && 'A' <= c <= 'Z')
  }

  /** The end of the whitespace run that starts at `i`. */
  function SkipSpaces(t: string, i: nat): (j: nat)
    requires i <= |t|
    ensures i <= j <= |t|
    ensures forall k {:trigger IsSpace(t[k])} :: i <= k < j ==> IsSpace(t[k])
    ensures j == |t| || !IsSpace(t[j])
    decreases |t| - i
  {
    if i < |t| && IsSpace(t[i]) then SkipSpaces(t, i + 1) else i
  }

  /** The end of the name run that starts at `i`. */
  function SkipName(t: string, i: nat, caseless: bool): (j: nat)
    requires i <= |t|
    ensures i <= j <= |t|
    ensures forall k {:trigger IsNameChar(t[k], caseless)} :: i <= k < j ==> IsNameChar(t[k], caseless)
    ensures j == |t| || !IsNameChar(t[j], caseless)
    decreases |t| - i
  {
    if i < |t| && IsNameChar(t[i], caseless) then SkipName(t, i + 1, caseless) else i
  }

  /** The literal `lit` (lower case) appears at `i`, up to case folding when caseless. */
  predicate LiteralAt(t: string, i: nat, lit: string, caseless: bool) {
    i + |lit| <= |t| && forall k :: 0 <= k < |lit| ==> Fold(t[i + k], caseless) == lit[k]
  }

  // A marker found by the scanners: the captured name and the index just past `*/`.
  datatype Marker = Marker(name: string, end: nat)

  // The marker `/* keyword name */` starting exactly at `i`, if there is one.
  function MarkerAt(t: string, i: nat, keyword: string, caseless: bool): (r: Option<Marker>)
    requires i <= |t|
    ensures r.Some? ==> i + 4 <= r.value.end <= |t| && LiteralAt(t, i, "/*", caseless)
  {
    if !LiteralAt(t, i, "/*", caseless) then None
    else
      var j := SkipSpaces(t, i + 2);
      if !LiteralAt(t, j, keyword, caseless) then None
      else
        var k := SkipSpaces(t, j + |keyword|);
        var n := SkipName(t, k, caseless);
        var m := SkipSpaces(t, n);
        if LiteralAt(t, m, "*/", caseless) then Some(Marker(t[k..n], m + 2)) else None
  }

  /** The closing part of the region pattern at `p`: an optional `=`, then an end marker. */
  function CloseAt(t: string, p: nat): (r: Option<nat>)
    requires p <= |t|
    ensures r.Some? ==> p < r.value <= |t|
  {
    var q := if p < |t| && t[p] == '=' then p + 1 else p;
    match MarkerAt(t, q, EndSection, true)
    case Some(m) => Some(m.end)
    case None => None
  }

  /** Where a closing part was found: its first index and the index just past it. */
  datatype Close = Close(at: nat, end: nat)

  /** The lazy gap `[\S\s]*?`: the first closing part that starts at or after `p`. */
  function FindClose(t: string, p: nat): (r: Option<Close>)
    requires p <= |t|
    ensures r.Some? ==> p <= r.value.at < r.value.end <= |t|
                        && CloseAt(t, r.value.at) == Some(r.value.end)
    ensures r.Some? ==> forall q :: p <= q < r.value.at ==> CloseAt(t, q).None?
    ensures r.None? ==> forall q :: p <= q <= |t| ==> CloseAt(t, q).None?
    decreases |t| - p
  {
    if p >= |t| then
      NoCloseAtEnd(t);
      None
    else match CloseAt(t, p)
      case Some(e) => Some(Close(p, e))
      case None =>
        var r := FindClose(t, p + 1);
        if r.Some? then
          NoCloseBefore(t, p, r.value.at);
          r
        else
          NoCloseBefore(t, p, |t| + 1);
          r
  }

  // No closing part starts at the very end of the text.
  lemma NoCloseAtEnd(t: string)
    ensures forall q :: |t| <= q <= |t| ==> CloseAt(t, q).None?
  {
    assert !LiteralAt(t, |t|, "/*", true);
  }

  // A position without a closing part extends a stretch without one by one to the left.
  lemma NoCloseBefore(t: string, p: nat, limit: nat)
    requires p < limit <= |t| + 1 && CloseAt(t, p).None?
    requires forall q :: p + 1 <= q < limit ==> CloseAt(t, q).None?
    ensures forall q :: p <= q < limit ==> CloseAt(t, q).None?
  {
  }

  /** One match of the region pattern: from `start` (whitespace included) to `end`. */
  datatype Region = Region(start: nat, name: string, end: nat)

  /**
   * The region pattern anchored at `i`: the whitespace run, an opening marker
   * (caseless), and the first closing part after that marker, whatever its name.
   */
  function RegionAt(t: string, i: nat): (r: Option<Region>)
    requires i <= |t|
    ensures r.Some? ==> i < r.value.end <= |t|
    ensures r.Some? ==>
              var j := SkipSpaces(t, i);
              && r.value.start == i
              && MarkerAt(t, j, Section, true).Some?
              && r.value.name == MarkerAt(t, j, Section, true).value.name
              && var open := MarkerAt(t, j, Section, true).value.end;
                 exists c :: open <= c < r.value.end
                             && CloseAt(t, c) == Some(r.value.end)
                             && forall q :: open <= q < c ==> CloseAt(t, q).None?
  {
    var j := SkipSpaces(t, i);
    match MarkerAt(t, j, Section, true)
    case None => None
    case Some(m) =>
      match FindClose(t, m.end)
      case None => None
      case Some(c) => Some(Region(i, m.name, c.end))
  }

  /** The spans the regions occupy, in order. */
  function SpansOf(rs: seq<Region>): (ss: seq<Span>)
    ensures |ss| == |rs|
    ensures forall k :: 0 <= k < |rs| ==> ss[k] == Span(rs[k].start, rs[k].end)
    decreases |rs|
  {
    if |rs| == 0 then [] else [Span(rs[0].start, rs[0].end)] + SpansOf(rs[1..])
  }

  /**
   * `preg_match_all` of the region pattern from `i`: after a match the scan
   * resumes at its end, otherwise one character further. The matches come out
   * sorted, disjoint and inside the text.
   */
  function Regions(t: string, i: nat): (rs: seq<Region>)
    requires i <= |t|
    ensures Ascending(SpansOf(rs), i, |t|)
    decreases |t| - i
  {
    if i >= |t| then []
    else match RegionAt(t, i)
      case Some(r) =>
        var rest := Regions(t, r.end);
        assert ([r] + rest)[1..] == rest;
        [r] + rest
      case None => Regions(t, i + 1)
  }

  /**
   * One match of the stripping pattern anchored at `i`: the whitespace run and
   * one case-sensitive opening or closing marker. The end of the match, if any.
   */
  function TagAt(t: string, i: nat): (r: Option<nat>)
    requires i <= |t|
    ensures r.Some? ==> i < r.value <= |t|
  {
    var j := SkipSpaces(t, i);
    match MarkerAt(t, j, Section, false)
    case Some(m) => Some(m.end)
    case None =>
      match MarkerAt(t, j, EndSection, false)
      case Some(m) => Some(m.end)
      case None => None
  }

  /** The stripping match at every index of `t`: where it ends, if one starts there. */
  function Tags(t: string): (ts: seq<Option<nat>>)
    ensures |ts| == |t|
    ensures forall k :: 0 <= k < |t| ==> ts[k] == TagAt(t, k)
  {
    seq(|t|, k requires 0 <= k < |t| => TagAt(t, k))
  }

  /** Matches over a text of length `n`: each ends past its start and inside the text. */
  predicate MatchEnds(n: nat, ts: seq<Option<nat>>) {
    |ts| == n && forall k :: 0 <= k < n && ts[k].Some? ==> k < ts[k].value <= n
  }

  /** The stripping matches of `t` are well placed. */
  lemma TagsMatchEnds(t: string)
    ensures MatchEnds(|t|, Tags(t))
  {
    forall k | 0 <= k < |t| && Tags(t)[k].Some?
      ensures k < Tags(t)[k].value <= |t|
    {
      assert Tags(t)[k] == TagAt(t, k);
    }
  }

  /**
   * `preg_replace` of the stripping pattern with `''`, from index `i` on,
   * given where the matches are (`Tags(t)`): a match is dropped and the scan
   * resumes at its end; elsewhere one character is copied.
   */
  function StripFrom(t: string, ts: seq<Option<nat>>, i: nat): (r: string)
    requires MatchEnds(|t|, ts) && i <= |t|
    ensures |r| <= |t| - i
    decreases |t| - i
  {
    if i >= |t| then ""
    else match ts[i]
      case Some(e) => StripFrom(t, ts, e)
      case None => [t[i]] + StripFrom(t, ts, i + 1)
  }

  /** No match starts anywhere from index `i` on. */
  predicate MatchFreeFrom(ts: seq<Option<nat>>, i: nat) {
    forall j :: i <= j < |ts| ==> ts[j].None?
  }

  /** No stripping match starts anywhere in `t[i..]`. */
  predicate TagFreeFrom(t: string, i: nat)
    requires i <= |t|
  {
    forall j :: i <= j < |t| ==> TagAt(t, j).None?
  }

  /** Being free of stripping matches is being free of the matches `Tags` lists. */
  lemma TagFreeIsMatchFree(t: string, i: nat)
    requires i <= |t|
    ensures TagFreeFrom(t, i) <==> MatchFreeFrom(Tags(t), i)
  {
    var ts := Tags(t);
    if TagFreeFrom(t, i) {
      forall j | i <= j < |ts|
        ensures ts[j].None?
      {
        assert ts[j] == TagAt(t, j);
      }
    }
    if MatchFreeFrom(ts, i) {
      forall j | i <= j < |t|
        ensures TagAt(t, j).None?
      {
        assert ts[j] == TagAt(t, j);
      }
    }
  }

  /** Stripping leaves the text unchanged exactly when no match starts in it. */
  lemma {:induction false} StripUnchangedIff(t: string, ts: seq<Option<nat>>, i: nat)
    requires MatchEnds(|t|, ts) && i <= |t|
    ensures StripFrom(t, ts, i) == t[i..] <==> MatchFreeFrom(ts, i)
    decreases |t| - i
  {
    if i < |t| {
      if ts[i].Some? {
        assert |StripFrom(t, ts, i)| < |t[i..]|;
      } else {
        StripUnchangedIff(t, ts, i + 1);
        assert t[i..] == [t[i]] + t[i + 1..];
        ConsEqualIff(t[i], StripFrom(t, ts, i + 1), t[i + 1..]);
      }
    }
  }

  /** A stretch without matches is copied as it is. */
  lemma {:induction false} StripRun(t: string, ts: seq<Option<nat>>, i: nat, j: nat)
    requires MatchEnds(|t|, ts) && i <= j <= |t|
    requires forall p :: i <= p < j ==> ts[p].None?
    ensures StripFrom(t, ts, i) == t[i..j] + StripFrom(t, ts, j)
    decreases j - i
  {
    if i < j {
      StripRun(t, ts, i + 1, j);
      ConsSlice(t, i, j, StripFrom(t, ts, j));
    }
  }

  /** A position whose whitespace run is not followed by `/` starts no stripping match. */
  /** A stretch of characters that are neither whitespace nor `/` starts no stripping match. */
  lemma NoSlashRunNoTag(t: string, lo: nat, hi: nat)
    requires lo <= hi <= |t|
    requires forall p :: lo <= p < hi ==> !IsSpace(t[p]) && t[p] != '/'
    ensures forall p :: lo <= p < hi ==> TagAt(t, p).None?
  {
    forall p | lo <= p < hi
      ensures TagAt(t, p).None?
    {
      assert SkipSpaces(t, p) == p;
      NoSlashNoTag(t, p);
    }
  }

  lemma NoSlashNoTag(t: string, i: nat)
    requires i <= |t|
    requires SkipSpaces(t, i) == |t| || t[SkipSpaces(t, i)] != '/'
    ensures TagAt(t, i).None?
  {
    var j := SkipSpaces(t, i);
    assert !LiteralAt(t, j, "/*", false) by {
      if j + 2 <= |t| {
        assert Fold(t[j], false) != "/*"[0];
      }
    }
  }

  // An opening marker with no whitespace before `/*` or `@section`, and nothing but whitespace
  // between its name and `*/`, is a stripping match ending just past `*/`.
  lemma OpeningMarkerTag(t: string, i: nat, k: nat, n: nat)
    requires i + 2 + |Section| <= |t| && SkipSpaces(t, i) == i && LiteralAt(t, i, "/*", false)
    requires SkipSpaces(t, i + 2) == i + 2 && LiteralAt(t, i + 2, Section, false)
    requires SkipSpaces(t, i + 2 + |Section|) == k && SkipName(t, k, false) == n
    requires SkipSpaces(t, n) == n && LiteralAt(t, n, "*/", false)
    ensures TagAt(t, i) == Some(n + 2)
  {
    assert MarkerAt(t, i, Section, false) == Some(Marker(t[k..n], n + 2));
  }

  // A position whose opening delimiter is not followed by either keyword starts no stripping match.
  lemma NoKeywordNoTag(t: string, i: nat)
    requires i <= |t| && SkipSpaces(t, i) + 2 <= |t|
    requires !LiteralAt(t, SkipSpaces(t, SkipSpaces(t, i) + 2), Section, false)
    requires !LiteralAt(t, SkipSpaces(t, SkipSpaces(t, i) + 2), EndSection, false)
    ensures TagAt(t, i).None?
  {
  }

  // `NoKeywordNoTag` for a position that starts with `/*`, no whitespace before or after it.
  lemma NoKeywordAfterOpenNoTag(t: string, i: nat)
    requires i + 2 <= |t| && SkipSpaces(t, i) == i && SkipSpaces(t, i + 2) == i + 2
    requires !LiteralAt(t, i + 2, Section, false) && !LiteralAt(t, i + 2, EndSection, false)
    ensures TagAt(t, i).None?
  {
    NoKeywordNoTag(t, i);
  }

  /** The case-sensitive name run never outruns the caseless one and can only stop short at an upper-case letter. */
  lemma {:induction false} SkipNameStopsAtUpper(t: string, i: nat)
    requires i <= |t|
    ensures SkipName(t, i, false) <= SkipName(t, i, true)
    ensures SkipName(t, i, false) < SkipName(t, i, true) ==> 'A' <= t[SkipName(t, i, false)] <= 'Z'
    decreases |t| - i
  {
    if i < |t| && IsNameChar(t[i], false) {
      SkipNameStopsAtUpper(t, i + 1);
    }
  }

  // The case-sensitive marker scan at `i`, one step at a time.
  lemma MarkerAtSteps(t: string, i: nat, keyword: string)
    requires i <= |t|
    ensures MarkerAt(t, i, keyword, false).Some? ==>
              && LiteralAt(t, i, "/*", false)
              && var j := SkipSpaces(t, i + 2);
                 && LiteralAt(t, j, keyword, false)
                 && var k := SkipSpaces(t, j + |keyword|);
                    LiteralAt(t, SkipSpaces(t, SkipName(t, k, false)), "*/", false)
  {
  }

  // The name the caseless marker scan at `i` captures.
  lemma MarkerAtCaselessName(t: string, i: nat, keyword: string)
    requires i <= |t|
    requires MarkerAt(t, i, keyword, true).Some?
    ensures var j := SkipSpaces(t, i + 2);
            var k := SkipSpaces(t, j + |keyword|);
            k <= |t| && MarkerAt(t, i, keyword, true).value.name == t[k..SkipName(t, k, true)]
  {
  }

  /**
   * A marker whose name holds an upper-case letter is found by the caseless
   * region pattern but never by the case-sensitive stripping pattern.
   */
  predicate HasUpper(s: string) {
    exists x | 0 <= x < |s| :: 'A' <= s[x] <= 'Z'
  }

  lemma UpperCaseNameNotStripped(t: string, i: nat, keyword: string)
    requires i <= |t|
    requires MarkerAt(t, i, keyword, true).Some?
    requires HasUpper(MarkerAt(t, i, keyword, true).value.name)
    ensures MarkerAt(t, i, keyword, false).None?
  {
    MarkerAtCaselessName(t, i, keyword);
    var name := MarkerAt(t, i, keyword, true).value.name;
    var k := SkipSpaces(t, SkipSpaces(t, i + 2) + |keyword|);
    var x :| 0 <= x < |name| && 'A' <= name[x] <= 'Z';
    assert t[k + x] == name[x];
    UpperInNameStopsClose(t, k, k + x);
    MarkerAtSteps(t, i, keyword);
  }

  // An upper-case letter inside the caseless name run cuts the case-sensitive
  // run short right where the closing delimiter would have to follow.
  lemma UpperInNameStopsClose(t: string, k: nat, u: nat)
    requires k <= |t| && k <= u < SkipName(t, k, true) && 'A' <= t[u] <= 'Z'
    ensures !LiteralAt(t, SkipSpaces(t, SkipName(t, k, false)), "*/", false)
  {
    var ncs := SkipName(t, k, false);
    assert !IsNameChar(t[u], false);
    SkipNameStopsAtUpper(t, k);
    assert SkipSpaces(t, ncs) == ncs;
    assert Fold(t[ncs], false) != "*/"[0];
  }
}
