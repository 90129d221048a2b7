/**
 * Laravel's `Str::is($pattern, $value)`: true when the two strings are equal,
 * or when the value matches the pattern read as an anchored regular expression
 * in which every `*` became `.*` and every other character stands for itself.
 * Without the `s` modifier, `.` does not match a newline.
 */
module Glob {

  /** The anchored match of `pattern` against `value`, `*` matching any newline-free run. */
  predicate Matches(pattern: string, value: string)
    decreases |pattern| + |value|
  {
    if |pattern| == 0 then |value| == 0
    else if pattern[0] == '*' then
      Matches(pattern[1..], value)
      || (|value| > 0 && value[0] != '\n' && Matches(pattern, value[1..]))
    else |value| > 0 && pattern[0] == value[0] && Matches(pattern[1..], value[1..])
  }

  /** `Str::is`: equality short-cut, then the pattern match. */
  predicate StrIs(pattern: string, value: string) {
    pattern == value || Matches(pattern, value)
  }

  /** A pattern without `*` matches exactly the one string equal to it. */
  lemma {:induction false} LiteralPatternMatchesOnlyItself(pattern: string, value: string)
    requires '*' !in pattern
    ensures StrIs(pattern, value) <==> pattern == value
    decreases |pattern|
  {
    if |pattern| > 0 && |value| > 0 && pattern[0] == value[0] {
      assert '*' !in pattern[1..] by {
        assert forall k :: 0 <= k < |pattern[1..]| ==> pattern[1..][k] == pattern[k + 1];
      }
      LiteralPatternMatchesOnlyItself(pattern[1..], value[1..]);
      assert pattern == [pattern[0]] + pattern[1..];
      assert value == [value[0]] + value[1..];
    }
  }

  /** A lone `*` matches every value that holds no newline. */
  lemma {:induction false} StarMatchesLine(value: string)
    requires '\n' !in value
    ensures StrIs("*", value)
    decreases |value|
  {
    if |value| > 0 {
      assert '\n' !in value[1..] by {
        assert forall k :: 0 <= k < |value[1..]| ==> value[1..][k] == value[k + 1];
      }
      StarMatchesLine(value[1..]);
      assert "*"[1..] == "";
    }
  }

  /** The star never crosses a newline: `*` alone rejects a value containing one. */
  lemma {:induction false} StarStopsAtNewline(value: string)
    requires '\n' in value
    ensures !Matches("*", value)
    decreases |value|
  {
    assert "*"[1..] == "";
    if value[0] != '\n' {
      assert '\n' in value[1..] by {
        var k :| 0 <= k < |value| && value[k] == '\n';
        assert value[1..][k - 1] == '\n';
      }
      StarStopsAtNewline(value[1..]);
    }
  }
}
