/** Option type used for the source's `None` values. */
module Wrappers {
  datatype Option<+T> = None | Some(value: T)
}

/**
 * String helpers shared by both chunkers: Python's `str.strip()`, the
 * `is_blank` test and the `"sep".join(...)` used to glue chunk data.
 */
module TextUtil {
  import opened Wrappers

  /** The characters Python's `str.isspace()` accepts, which `str.strip()` removes. */
  predicate IsWs(c: char)
  {
    ('\t' <= c <= '\r') || ('\U{1c}' <= c <= '\U{1f}') || c == ' ' || c == '\U{85}' ||
    c == '\U{a0}' || c == '\U{1680}' || ('\U{2000}' <= c <= '\U{200a}') ||
    c == '\U{2028}' || c == '\U{2029}' || c == '\U{202f}' || c == '\U{205f}' || c == '\U{3000}'
  }

  predicate AllWs(s: string)
  {
    forall k :: 0 <= k < |s| ==> IsWs(s[k])
  }

  /** Neither end of `s` is whitespace (trivially true of the empty string). */
  predicate IsTrimmed(s: string)
  {
    s != [] ==> !IsWs(s[0]) && !IsWs(s[|s| - 1])
  }

  /** The first index at or after `i` that is not whitespace (or `|s|`). */
  function SkipWs(s: string, i: nat): (k: nat)
    requires i <= |s|
    ensures i <= k <= |s|
    ensures forall m :: i <= m < k ==> IsWs(s[m])
    ensures k < |s| ==> !IsWs(s[k])
    decreases |s| - i
  {
    if i < |s| && IsWs(s[i]) then SkipWs(s, i + 1) else i
  }

  /** The end of `s[lo..j]` once trailing whitespace is dropped. */
  function BackWs(s: string, lo: nat, j: nat): (k: nat)
    requires lo <= j <= |s|
    ensures lo <= k <= j
    ensures forall m :: k <= m < j ==> IsWs(s[m])
    ensures k > lo ==> !IsWs(s[k - 1])
  {
    if j > lo && IsWs(s[j - 1]) then BackWs(s, lo, j - 1) else j
  }

  /** Python's `s.strip()`: the slice of `s` left after removing whitespace at both ends. */
  function Strip(s: string): (r: string)
    ensures IsTrimmed(r)
    ensures exists i, j ::
              0 <= i <= j <= |s| && r == s[i..j] &&
              (forall m :: 0 <= m < i ==> IsWs(s[m])) && (forall m :: j <= m < |s| ==> IsWs(s[m]))
    ensures r == [] <==> AllWs(s)
  {
    var i := SkipWs(s, 0);
    var j := BackWs(s, i, |s|);
    assert i < j ==> s[i..j][0] == s[i] && s[i..j][j - i - 1] == s[j - 1];
    s[i..j]
  }

  /** Python's `is_blank`: `None`, or a string whose strip is empty. */
  function IsBlank(s: Option<string>): (b: bool)
    ensures b <==> s.None? || AllWs(s.value)
  {
    s.None? || Strip(s.value) == []
  }

  /** Stripping a stripped string changes nothing. */
  lemma StripIdempotent(s: string)
    ensures Strip(Strip(s)) == Strip(s)
  {
    var r := Strip(s);
    assert SkipWs(r, 0) == 0;
    assert BackWs(r, 0, |r|) == |r|;
  }

  /** A string with no whitespace at either end is its own strip, and blank only when empty. */
  lemma StripTrimmed(s: string)
    requires IsTrimmed(s)
    ensures Strip(s) == s
    ensures IsBlank(Some(s)) <==> s == []
  {
    assert SkipWs(s, 0) == 0;
    assert BackWs(s, 0, |s|) == |s|;
  }

  /** `sep.join(parts)`: the parts in order with `sep` between neighbours; `""` for no parts. */
  function JoinWith(parts: seq<string>, sep: string): string
  {
    if parts == [] then ""
    else if |parts| == 1 then parts[0]
    else parts[0] + sep + JoinWith(parts[1..], sep)
  }

  /** Joining a concatenation joins the two halves with one more separator. */
  lemma {:induction false} JoinAppend(a: seq<string>, b: seq<string>, sep: string)
    ensures JoinWith(a + b, sep) ==
            if a == [] then JoinWith(b, sep)
            else if b == [] then JoinWith(a, sep)
            else JoinWith(a, sep) + sep + JoinWith(b, sep)
  {
    if a == [] {
      assert a + b == b;
    } else if b == [] {
      assert a + b == a;
    } else if |a| == 1 {
      assert (a + b)[1..] == b;
    } else {
      assert (a + b)[1..] == a[1..] + b;
      JoinAppend(a[1..], b, sep);
    }
  }

  /** Python's `s.split(c)` for a single separator character. */
  function SplitOn(s: string, c: char): (r: seq<string>)
    ensures |r| >= 1
    decreases |s|
  {
    if c !in s then [s]
    else
      var i := IndexOf(s, c);
      [s[..i]] + SplitOn(s[i + 1..], c)
  }

  function IndexOf(s: string, c: char): (i: nat)
    requires c in s
    ensures i < |s| && s[i] == c && c !in s[..i]
  {
    if s[0] == c then 0 else IndexOf(s[1..], c) + 1
  }

  lemma {:induction false} IndexOfIs(s: string, c: char, k: nat)
    requires k < |s| && s[k] == c && c !in s[..k]
    ensures IndexOf(s, c) == k
  {
    if k > 0 {
      assert s[0] == s[..k][0];
      assert s[1..][..k - 1] == s[..k][1..];
      IndexOfIs(s[1..], c, k - 1);
    }
  }

  /**
   * Splitting on `c` undoes joining with `c`, provided no part holds `c`
   * (with no parts, the join is "" and splits into one empty part).
   */
  lemma {:induction false} SplitJoin(parts: seq<string>, c: char)
    requires parts != []
    requires forall k :: 0 <= k < |parts| ==> c !in parts[k]
    ensures SplitOn(JoinWith(parts, [c]), c) == parts
  {
    if |parts| > 1 {
      var s := JoinWith(parts, [c]);
      var p, rest := parts[0], JoinWith(parts[1..], [c]);
      assert s == p + [c] + rest;
      assert s[..|p|] == p && s[|p|] == c && s[|p| + 1..] == rest;
      IndexOfIs(s, c, |p|);
      assert SplitOn(s, c) == [p] + SplitOn(rest, c);
      SplitJoin(parts[1..], c);
      assert parts == [p] + parts[1..];
    }
  }
}
