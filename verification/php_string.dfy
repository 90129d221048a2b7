/**
 * The PHP string and array built-ins the exporters and commands rely on, written
 * out with PHP's own edge-case behaviour: `str_replace`, `substr`, `array_splice`,
 * `explode`/`implode` on one separator character, string offsets, truthiness and
 * `isset` on an options array.
 */
module PhpString {

  /** `s` occurs in `t` starting at index `i`. */
  predicate OccursAt(t: string, s: string, i: int) {
    0 <= i && i + |s| <= |t| && t[i..i + |s|] == s
  }

  /** `t` contains `s` somewhere (PHP `strpos($t, $s) !== false`). */
  predicate Contains(t: string, s: string) {
    exists i | 0 <= i <= |t| :: OccursAt(t, s, i)
  }

  /** An occurrence after the first character is an occurrence in the whole text. */
  lemma ContainsTail(t: string, s: string)
    requires |t| > 0
    ensures Contains(t[1..], s) ==> Contains(t, s)
  {
    if Contains(t[1..], s) {
      var i :| 0 <= i <= |t[1..]| && OccursAt(t[1..], s, i);
      assert 0 <= i && i + |s| <= |t| - 1 && t[1..][i..i + |s|] == s;
      assert t[i + 1..i + 1 + |s|] == t[1..][i..i + |s|];
      assert OccursAt(t, s, i + 1);
    }
  }

  /**
   * `str_replace($search, $replace, $subject)` with string arguments: every
   * non-overlapping occurrence, found left to right, is replaced, and the
   * replacement text is never scanned again. An empty search string leaves the
   * subject as it is.
   */
  function StrReplace(search: string, replace: string, subject: string): (r: string)
    ensures !Contains(subject, search) ==> r == subject
    decreases |subject|
  {
    if |search| == 0 || |subject| < |search| then subject
    else if subject[..|search|] == search then
      assert OccursAt(subject, search, 0);
      replace + StrReplace(search, replace, subject[|search|..])
    else
      ContainsTail(subject, search);
      [subject[0]] + StrReplace(search, replace, subject[1..])
  }

  /** Replacing a string by itself changes nothing. */
  lemma {:induction false} StrReplaceSelf(s: string, t: string)
    ensures StrReplace(s, s, t) == t
    decreases |t|
  {
    if |s| == 0 || |t| < |s| {
    } else if t[..|s|] == s {
      StrReplaceSelf(s, t[|s|..]);
      assert s + t[|s|..] == t;
    } else {
      StrReplaceSelf(s, t[1..]);
      assert [t[0]] + t[1..] == t;
    }
  }

  /**
   * Replacement text is not rescanned: a subject that is exactly the search
   * string becomes exactly the replacement, even when the replacement contains
   * the search string again.
   */
  lemma ReplacementNotRescanned(s: string, r: string)
    requires |s| > 0
    ensures StrReplace(s, r, s) == r
  {
    assert s[..|s|] == s;
    assert s[|s|..] == [];
    assert r + [] == r;
  }

  /**
   * Swapping one character for another that does not occur in the subject can
   * be undone by the opposite replacement.
   */
  lemma {:induction false} StrReplaceCharRoundTrip(a: char, b: char, t: string)
    requires b !in t
    ensures StrReplace([b], [a], StrReplace([a], [b], t)) == t
    decreases |t|
  {
    if |t| == 0 {
    } else {
      var once := StrReplace([a], [b], t);
      var rest := StrReplace([a], [b], t[1..]);
      assert b !in t[1..] by {
        assert forall k :: 0 <= k < |t[1..]| ==> t[1..][k] == t[k + 1];
      }
      StrReplaceCharRoundTrip(a, b, t[1..]);
      if t[0] == a {
        assert t[..1] == [a];
        assert once == [b] + rest;
        assert once[..1] == [b];
        assert once[1..] == rest;
        assert StrReplace([b], [a], once) == [a] + StrReplace([b], [a], rest);
      } else {
        assert t[..1] != [a];
        assert once == [t[0]] + rest;
        assert once[..1] == [t[0]];
        assert t[0] != b;
        assert once[1..] == rest;
        assert StrReplace([b], [a], once) == [t[0]] + StrReplace([b], [a], rest);
      }
      assert [t[0]] + t[1..] == t;
    }
  }

  /** A string whose first character never appears in `t` does not occur in `t`. */
  lemma FirstCharAbsent(t: string, s: string)
    requires |s| > 0 && s[0] !in t
    ensures !Contains(t, s)
  {
    forall i | 0 <= i <= |t|
      ensures !OccursAt(t, s, i)
    {
      if i + |s| <= |t| {
        assert t[i..i + |s|][0] == t[i];
      }
    }
  }

  /**
   * Gluing a prefix that lacks the first character of `s` onto a text without
   * `s` creates no occurrence of `s`.
   */
  lemma NotContainsConcat(p: string, q: string, s: string)
    requires |s| > 0 && s[0] !in p && !Contains(q, s)
    ensures !Contains(p + q, s)
  {
    forall i | 0 <= i <= |p + q|
      ensures !OccursAt(p + q, s, i)
    {
      if i + |s| > |p + q| {
      } else if i < |p| {
        assert (p + q)[i..i + |s|][0] == p[i];
      } else {
        assert (p + q)[i..i + |s|] == q[i - |p|..i - |p| + |s|];
        assert !OccursAt(q, s, i - |p|);
      }
    }
  }

  /**
   * A run of `str_replace` calls, each on the previous call's output, in list
   * order. Also `str_replace($searches, $replaces, $t)` with two arrays, which
   * performs its pairs the same way.
   */
  function StrReplaceEach(pairs: seq<(string, string)>, t: string): (r: string)
    ensures (forall k :: 0 <= k < |pairs| ==> !Contains(t, pairs[k].0)) ==> r == t
    decreases |pairs|
  {
    if |pairs| == 0 then t
    else
      assert forall k :: 0 <= k < |pairs[1..]| ==> pairs[1..][k] == pairs[k + 1];
      StrReplaceEach(pairs[1..], StrReplace(pairs[0].0, pairs[0].1, t))
  }

  /** Later pairs see the output of earlier ones: a run of pairs splits at any point. */
  lemma {:induction false} StrReplaceEachAppend(a: seq<(string, string)>, b: seq<(string, string)>, t: string)
    ensures StrReplaceEach(a + b, t) == StrReplaceEach(b, StrReplaceEach(a, t))
    decreases |a|
  {
    if |a| > 0 {
      assert (a + b)[1..] == a[1..] + b;
      StrReplaceEachAppend(a[1..], b, StrReplace(a[0].0, a[0].1, t));
    } else {
      assert a + b == b;
    }
  }

  /** The scalar PHP values a command option can hold. */
  datatype PhpValue = PNull | PBool(b: bool) | PInt(i: int) | PString(s: string)

  /** `! isset($options[$key]) || false === $options[$key]`: absent, `null` or exactly `false`. */
  predicate OptionOff(options: map<string, PhpValue>, key: string) {
    key !in options || options[key] == PNull || options[key] == PBool(false)
  }

  /** The two options both package commands read. */
  const UsesComposer := "uses_composer"
  const UsesServiceProviders := "uses_service_providers"

  /** PHP's conversion of a string to bool: only `""` and `"0"` are false. */
  predicate Truthy(s: string) {
    s != "" && s != "0"
  }

  /** Reading `$s[$i]`: the one-character string at `i`, or `""` past the end. */
  function CharAt(s: string, i: nat): (r: string)
    ensures |r| <= 1
  {
    if i < |s| then [s[i]] else ""
  }

  /** `substr($s, 0, $length)`: a negative length counts back from the end. */
  function SubstrPrefix(s: string, length: int): (r: string)
    ensures 0 <= length <= |s| ==> r == s[..length]
  {
    if length >= 0 then (if length <= |s| then s[..length] else s)
    else if |s| + length > 0 then s[..|s| + length]
    else ""
  }

  /** `substr($s, $offset)`: a negative offset counts back from the end. */
  function SubstrFrom(s: string, offset: int): (r: string)
    ensures 0 <= offset <= |s| ==> r == s[offset..]
  {
    if offset > |s| then ""
    else if offset >= 0 then s[offset..]
    else if |s| + offset > 0 then s[|s| + offset..]
    else s
  }

  /**
   * The list left by `array_splice($a, $offset, $length)`: a negative offset
   * counts from the end, a negative length stops that many elements before the
   * end, and both are clamped to the list.
   */
  function ArraySplice<T>(a: seq<T>, offset: int, length: int): (r: seq<T>)
    ensures 0 <= offset && 0 <= length && offset + length <= |a| ==>
              r == a[..offset] + a[offset + length..]
  {
    var o := if offset < 0 then (if |a| + offset > 0 then |a| + offset else 0)
             else if offset > |a| then |a| else offset;
    var e := if length < 0 then (if |a| + length > o then |a| + length else o)
             else if o + length > |a| then |a| else o + length;
    a[..o] + a[e..]
  }

  /** `explode($sep, $t)` for a one-character separator: never an empty list. */
  function Explode(t: string, sep: char): (r: seq<string>)
    ensures |r| >= 1
    ensures forall k :: 0 <= k < |r| ==> sep !in r[k]
    decreases |t|
  {
    if |t| == 0 then [""]
    else if t[0] == sep then [""] + Explode(t[1..], sep)
    else
      var rest := Explode(t[1..], sep);
      [[t[0]] + rest[0]] + rest[1..]
  }

  /** `implode($sep, $parts)`. */
  function Implode(parts: seq<string>, sep: char): string
    decreases |parts|
  {
    if |parts| == 0 then ""
    else if |parts| == 1 then parts[0]
    else parts[0] + [sep] + Implode(parts[1..], sep)
  }

  lemma ImplodeConsHead(c: char, parts: seq<string>, sep: char)
    requires |parts| >= 1
    ensures Implode([[c] + parts[0]] + parts[1..], sep) == [c] + Implode(parts, sep)
  {
    var ps := [[c] + parts[0]] + parts[1..];
    if |parts| == 1 {
    } else {
      assert ps[1..] == parts[1..];
    }
  }

  /** Splitting on a separator and joining back is the identity, trailing empty part included. */
  lemma {:induction false} ImplodeExplode(t: string, sep: char)
    ensures Implode(Explode(t, sep), sep) == t
    decreases |t|
  {
    if |t| == 0 {
    } else if t[0] == sep {
      ImplodeExplode(t[1..], sep);
      var rest := Explode(t[1..], sep);
      assert ([""] + rest)[1..] == rest;
      assert [t[0]] + t[1..] == t;
    } else {
      ImplodeExplode(t[1..], sep);
      ImplodeConsHead(t[0], Explode(t[1..], sep), sep);
      assert [t[0]] + t[1..] == t;
    }
  }

  lemma {:induction false} ExplodeNoSep(t: string, sep: char)
    requires sep !in t
    ensures Explode(t, sep) == [t]
    decreases |t|
  {
    if |t| > 0 {
      assert sep !in t[1..] by {
        assert forall k :: 0 <= k < |t[1..]| ==> t[1..][k] == t[k + 1];
      }
      ExplodeNoSep(t[1..], sep);
      assert [t[0]] + t[1..] == t;
    }
  }

  /** A separator between two texts separates their parts. */
  lemma {:induction false} ExplodeAppend(a: string, b: string, sep: char)
    ensures Explode(a + [sep] + b, sep) == Explode(a, sep) + Explode(b, sep)
    decreases |a|
  {
    if |a| == 0 {
      assert a + [sep] + b == [sep] + b && ([sep] + b)[1..] == b;
    } else {
      SplitHead(a, b, sep);
      ExplodeAppend(a[1..], b, sep);
      if a[0] == sep {
        assert [""] + (Explode(a[1..], sep) + Explode(b, sep)) == ([""] + Explode(a[1..], sep)) + Explode(b, sep);
      } else {
        JoinHead(a[0], Explode(a[1..], sep), Explode(b, sep));
      }
    }
  }

  // The joined text starts with the first character of `a`, followed by the rest of the join.
  lemma SplitHead(a: string, b: string, sep: char)
    requires |a| > 0
    ensures (a + [sep] + b)[0] == a[0] && (a + [sep] + b)[1..] == a[1..] + [sep] + b
  {
  }

  // Extending the first part of a list of parts commutes with appending more parts.
  lemma JoinHead(c: char, ra: seq<string>, rb: seq<string>)
    requires |ra| >= 1
    ensures [[c] + (ra + rb)[0]] + (ra + rb)[1..] == ([[c] + ra[0]] + ra[1..]) + rb
  {
    assert (ra + rb)[0] == ra[0];
    assert (ra + rb)[1..] == ra[1..] + rb;
  }

  /** Joining separator-free parts and splitting again gives the parts back. */
  lemma {:induction false} ExplodeImplode(parts: seq<string>, sep: char)
    requires |parts| >= 1
    requires forall k :: 0 <= k < |parts| ==> sep !in parts[k]
    ensures Explode(Implode(parts, sep), sep) == parts
    decreases |parts|
  {
    if |parts| == 1 {
      ExplodeNoSep(parts[0], sep);
    } else {
      ExplodeImplode(parts[1..], sep);
      ExplodeAppend(parts[0], Implode(parts[1..], sep), sep);
      ExplodeNoSep(parts[0], sep);
      assert [parts[0]] + parts[1..] == parts;
    }
  }

  /** The last `sep`-separated part of `t` (`array_pop(explode($sep, $t))`). */
  function LastSegment(t: string, sep: char): (r: string)
    ensures sep !in r
  {
    var parts := Explode(t, sep);
    parts[|parts| - 1]
  }

  /** Whatever follows the last separator is the last segment. */
  lemma LastSegmentAfterSep(a: string, b: string, sep: char)
    requires sep !in b
    ensures LastSegment(a + [sep] + b, sep) == b
  {
    ExplodeAppend(a, b, sep);
    ExplodeNoSep(b, sep);
  }

  /** `$s` begins with `$p`. */
  predicate StartsWith(s: string, p: string) {
    |p| <= |s| && s[..|p|] == p
  }
}
