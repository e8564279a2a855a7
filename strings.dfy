/** The PHP and Laravel string builtins the renderer relies on, written out on `seq<char>`. */
module Strings {

  /** True when `p` is a prefix of `s`. */
  predicate IsPrefix(p: string, s: string) {
    |p| <= |s| && s[..|p|] == p
  }

  /** True when `p` occurs in `s` as a contiguous substring. */
  predicate Contains(s: string, p: string)
    decreases |s|
  {
    IsPrefix(p, s) || (|s| > 0 && Contains(s[1..], p))
  }

  /**
   * PHP's `str_replace` with a single search string: scans left to right,
   * replaces every leftmost non-overlapping occurrence of `search`, and never
   * rescans the text it has inserted. An empty search string leaves the
   * subject unchanged.
   */
  function ReplaceAll(s: string, search: string, replacement: string): string
    decreases |s|
  {
    if |search| == 0 || |s| < |search| then s
    else if s[..|search|] == search then replacement + ReplaceAll(s[|search|..], search, replacement)
    else [s[0]] + ReplaceAll(s[1..], search, replacement)
  }

  /** `search` is not a prefix of `s` when they differ at position `i`. */
  lemma MissAt(search: string, s: string, i: nat)
    requires i < |search| && (i < |s| ==> s[i] != search[i])
    ensures !IsPrefix(search, s)
  {
    if |search| <= |s| {
      assert s[..|search|][i] == s[i];
    }
  }

  /** Where `search` does not start the subject, the first character is copied. */
  lemma ReplaceAllMiss(s: string, search: string, replacement: string)
    requires |search| > 0 && |s| > 0 && !IsPrefix(search, s)
    ensures ReplaceAll(s, search, replacement) == [s[0]] + ReplaceAll(s[1..], search, replacement)
  {
  }

  /**
   * The scan is leftmost-first: when the first occurrence of `search` in
   * `x + search + y` starts right after `x`, the text before it is kept, that
   * occurrence is replaced, and the scan resumes after it.
   */
  lemma {:induction false} ReplaceAllFirstOccurrence(x: string, search: string, y: string, replacement: string)
    requires |search| > 0
    requires forall i :: 0 <= i < |x| ==> !IsPrefix(search, (x + search + y)[i..])
    ensures ReplaceAll(x + search + y, search, replacement) == x + replacement + ReplaceAll(y, search, replacement)
    decreases |x|
  {
    if x == [] {
      assert x + search + y == search + y;
      ReplaceAllAtStart(y, search, replacement);
    } else {
      var x', r := x[1..], ReplaceAll(y, search, replacement);
      CopyFirst(x, search, y, replacement);
      NoEarlyOccurrenceTail(x, search, y);
      ReplaceAllFirstOccurrence(x', search, y, replacement);
      ConsJoin(x, replacement, r);
    }
  }

  /** When no occurrence starts at the front of `x + search + y`, its first character is copied. */
  lemma CopyFirst(x: string, search: string, y: string, replacement: string)
    requires x != [] && |search| > 0
    requires forall i :: 0 <= i < |x| ==> !IsPrefix(search, (x + search + y)[i..])
    ensures ReplaceAll(x + search + y, search, replacement)
      == [x[0]] + ReplaceAll(x[1..] + search + y, search, replacement)
  {
    var s := x + search + y;
    assert s[0..] == s;
    assert s[1..] == x[1..] + search + y;
    ReplaceAllMiss(s, search, replacement);
  }

  /** Re-associating a leading character. */
  lemma ConsJoin(x: string, v: string, z: string)
    requires x != []
    ensures [x[0]] + (x[1..] + v + z) == x + v + z
  {
    assert x == [x[0]] + x[1..];
  }

  /** Dropping the first character of `x` keeps every earlier start free of `search`. */
  lemma NoEarlyOccurrenceTail(x: string, search: string, y: string)
    requires x != []
    requires forall i :: 0 <= i < |x| ==> !IsPrefix(search, (x + search + y)[i..])
    ensures (x + search + y)[1..] == x[1..] + search + y
    ensures forall i :: 0 <= i < |x[1..]| ==> !IsPrefix(search, (x[1..] + search + y)[i..])
  {
    var s, s' := x + search + y, x[1..] + search + y;
    assert s[1..] == s';
    forall i | 0 <= i < |x[1..]|
      ensures !IsPrefix(search, s'[i..])
    {
      assert s'[i..] == s[i + 1..];
    }
  }

  /** Text that cannot start an occurrence (it lacks the first character of `search`) is copied. */
  lemma {:induction false} ReplaceAllSkip(x: string, y: string, search: string, replacement: string)
    requires |search| > 0 && search[0] !in x
    ensures ReplaceAll(x + y, search, replacement) == x + ReplaceAll(y, search, replacement)
    decreases |x|
  {
    if x == [] {
      assert x + y == y;
    } else {
      var s := x + y;
      assert s[1..] == x[1..] + y;
      assert s[0] == x[0];
      if |s| < |search| {
        assert ReplaceAll(y, search, replacement) == y;
      } else {
        assert s[..|search|][0] == x[0];
        ReplaceAllSkip(x[1..], y, search, replacement);
        assert ReplaceAll(s, search, replacement) == [x[0]] + (x[1..] + ReplaceAll(y, search, replacement));
      }
    }
  }

  /** A subject without the first character of `search` comes back unchanged. */
  lemma ReplaceAllNoStart(s: string, search: string, replacement: string)
    requires |search| > 0 && search[0] !in s
    ensures ReplaceAll(s, search, replacement) == s
  {
    ReplaceAllSkip(s, [], search, replacement);
    assert s + [] == s;
  }

  /** An occurrence at the very start is replaced and the scan resumes after it. */
  lemma ReplaceAllAtStart(y: string, search: string, replacement: string)
    requires |search| > 0
    ensures ReplaceAll(search + y, search, replacement) == replacement + ReplaceAll(y, search, replacement)
  {
    assert (search + y)[..|search|] == search;
    assert (search + y)[|search|..] == y;
  }

  /** `s` with every character of `cs` deleted, the rest in order. */
  function WithoutChars(s: string, cs: set<char>): (r: string)
    ensures |r| <= |s|
    ensures forall i :: 0 <= i < |r| ==> r[i] !in cs
    decreases |s|
  {
    if s == [] then []
    else if s[0] in cs then WithoutChars(s[1..], cs)
    else [s[0]] + WithoutChars(s[1..], cs)
  }

  /** With no deleted character present, `WithoutChars` is the identity. */
  lemma {:induction false} WithoutCharsNone(s: string, cs: set<char>)
    requires forall i :: 0 <= i < |s| ==> s[i] !in cs
    ensures WithoutChars(s, cs) == s
    decreases |s|
  {
    if s != [] {
      WithoutCharsNone(s[1..], cs);
    }
  }

  /** Deleting one set of characters and then another is deleting both at once. */
  lemma {:induction false} WithoutCharsThen(s: string, a: set<char>, b: set<char>)
    ensures WithoutChars(WithoutChars(s, a), b) == WithoutChars(s, a + b)
    decreases |s|
  {
    if s != [] {
      WithoutCharsThen(s[1..], a, b);
      if s[0] !in a {
        assert ([s[0]] + WithoutChars(s[1..], a))[1..] == WithoutChars(s[1..], a);
      }
    }
  }

  /** `str_replace` of a one-character search by the empty string deletes that character. */
  lemma {:induction false} ReplaceCharByEmpty(s: string, c: char)
    ensures ReplaceAll(s, [c], "") == WithoutChars(s, {c})
    decreases |s|
  {
    if s != [] {
      ReplaceCharByEmpty(s[1..], c);
      if s[0] == c {
        assert s[..1] == [c];
      } else {
        assert s[..1] != [c];
      }
    }
  }

  /** PHP's `implode(glue, parts)`: the parts in order with `glue` between neighbours. */
  function Implode(glue: string, parts: seq<string>): string
    decreases |parts|
  {
    if parts == [] then ""
    else if |parts| == 1 then parts[0]
    else parts[0] + glue + Implode(glue, parts[1..])
  }

  /** ASCII lower-casing of one character, as C's `tolower` does in the "C" locale. */
  function LowerChar(c: char): (d: char)
    ensures 'A' <= c <= 'Z' ==> 'a' <= d <= 'z' && d as int == c as int - 'A' as int + 'a' as int
    ensures !('A' <= c <= 'Z') ==> d == c
  {
    if 'A' <= c <= 'Z' then (c as int - 'A' as int + 'a' as int) as char else c
  }

  /** ASCII lower-casing of a string (PHP's `strtolower`). */
  function ToLower(s: string): (r: string)
    ensures |r| == |s|
    ensures forall i :: 0 <= i < |s| ==> r[i] == LowerChar(s[i])
  {
    seq(|s|, i requires 0 <= i < |s| => LowerChar(s[i]))
  }

  /** The characters PHP's `rtrim` removes by default. */
  const RTrimChars: set<char> := {' ', '\t', '\n', '\r', '\0', '\U{B}'}

  /** PHP's `rtrim` with its default character list. */
  function RTrim(s: string): (r: string)
    ensures IsPrefix(r, s)
    ensures r == [] || r[|r| - 1] !in RTrimChars
    ensures forall i :: |r| <= i < |s| ==> s[i] in RTrimChars
    decreases |s|
  {
    if s == [] || s[|s| - 1] !in RTrimChars then s
    else RTrim(s[..|s| - 1])
  }

  /**
   * Laravel's `Str::limit(value, limit, end)`: a value of at most `limit`
   * characters is returned as it is; a longer one is cut to its first `limit`
   * characters, right-trimmed, and `end` is appended.
   */
  function Limit(value: string, limit: nat, end: string): (r: string)
    ensures |value| <= limit ==> r == value
    ensures |value| > limit ==> |end| <= |r| <= limit + |end| && IsPrefix(r[..|r| - |end|], value) && r[|r| - |end|..] == end
  {
    if |value| <= limit then value
    else RTrim(value[..limit]) + end
  }
}
