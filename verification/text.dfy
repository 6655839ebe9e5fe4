/**
 * The pieces of Kotlin's `String` API the application relies on:
 * `trim()` (which strips every character for which `Char.isWhitespace()`
 * holds) and `length` (which counts UTF-16 code units, not characters).
 */
module Text {

  /**
   * Kotlin's `Char.isWhitespace()` on the JVM: `Character.isWhitespace`
   * (the ASCII controls TAB..CR and FS..US, and the Unicode space separators
   * except the no-break ones) or `Character.isSpaceChar` (every space,
   * line or paragraph separator, the no-break ones included).
   */
  predicate IsWhitespace(c: char) {
    var n := c as int;
    || 0x09 <= n <= 0x0D
    || 0x1C <= n <= 0x20
    || n == 0xA0
    || n == 0x1680
    || 0x2000 <= n <= 0x200A
    || n == 0x2028 || n == 0x2029
    || n == 0x202F || n == 0x205F
    || n == 0x3000
  }

  predicate AllWhitespace(s: string) {
    forall i :: 0 <= i < |s| ==> IsWhitespace(s[i])
  }

  /** A string that does not start or end with whitespace. */
  predicate Tight(s: string) {
    s == [] || (!IsWhitespace(s[0]) && !IsWhitespace(s[|s| - 1]))
  }

  /** Drops the leading whitespace: the result is the rest of `s`. */
  function TrimStart(s: string): (r: string)
    ensures |r| <= |s| && r == s[|s| - |r|..]
    ensures forall i :: 0 <= i < |s| - |r| ==> IsWhitespace(s[i])
    ensures r == [] || !IsWhitespace(r[0])
  {
    if |s| > 0 && IsWhitespace(s[0]) then
      var r := TrimStart(s[1..]);
      assert forall i :: 1 <= i < |s| - |r| ==> s[i] == s[1..][i - 1];
      r
    else s
  }

  /** Drops the trailing whitespace: the result is a prefix of `s`. */
  function TrimEnd(s: string): (r: string)
    ensures |r| <= |s| && r == s[..|r|]
    ensures forall i :: |r| <= i < |s| ==> IsWhitespace(s[i])
    ensures r == [] || !IsWhitespace(r[|r| - 1])
  {
    if |s| > 0 && IsWhitespace(s[|s| - 1]) then
      var r := TrimEnd(s[..|s| - 1]);
      assert forall i :: |r| <= i < |s| - 1 ==> s[i] == s[..|s| - 1][i];
      r
    else s
  }

  /**
   * Kotlin's `String.trim()`: the slice of `s` between a whitespace-only
   * prefix and a whitespace-only suffix that neither starts nor ends with
   * whitespace (`TrimSlice` names the slice, `TrimUnique` shows there is
   * only one such slice).
   */
  function Trim(s: string): (r: string)
    ensures Tight(r)
    ensures |r| <= |s|
  {
    TrimEnd(TrimStart(s))
  }

  /** The bounds of the slice `Trim` keeps, with whitespace on both sides of it. */
  lemma TrimBounds(s: string) returns (lo: nat, hi: nat)
    ensures lo <= hi <= |s| && Trim(s) == s[lo..hi]
    ensures AllWhitespace(s[..lo]) && AllWhitespace(s[hi..])
  {
    var t := TrimStart(s);
    var r := TrimEnd(t);
    lo := |s| - |t|;
    hi := lo + |r|;
    assert t == s[lo..];
    assert r == s[lo..hi];
    WhitespacePrefix(s, lo);
    assert forall i :: hi <= i < |s| ==> s[i] == t[i - lo];
    WhitespaceSuffix(s, hi);
  }

  lemma WhitespacePrefix(s: string, lo: nat)
    requires lo <= |s| && forall i :: 0 <= i < lo ==> IsWhitespace(s[i])
    ensures AllWhitespace(s[..lo])
  {
    assert forall i :: 0 <= i < lo ==> s[..lo][i] == s[i];
  }

  lemma WhitespaceSuffix(s: string, hi: nat)
    requires hi <= |s| && forall i :: hi <= i < |s| ==> IsWhitespace(s[i])
    ensures AllWhitespace(s[hi..])
  {
    assert forall i :: 0 <= i < |s| - hi ==> s[hi..][i] == s[hi + i];
  }

  /** The same bounds, stated character by character. */
  lemma TrimSlice(s: string) returns (lo: nat, hi: nat)
    ensures lo <= hi <= |s| && Trim(s) == s[lo..hi]
    ensures forall t :: 0 <= t < hi - lo ==> Trim(s)[t] == s[lo + t]
    ensures AllWhitespace(s[..lo]) && AllWhitespace(s[hi..])
    ensures forall t :: 0 <= t < lo ==> IsWhitespace(s[t])
    ensures forall t :: hi <= t < |s| ==> IsWhitespace(s[t])
  {
    lo, hi := TrimBounds(s);
    forall i | 0 <= i < lo ensures IsWhitespace(s[i]) { assert s[i] == s[..lo][i]; }
    forall i | hi <= i < |s| ensures IsWhitespace(s[i]) { assert s[i] == s[hi..][i - hi]; }
  }

  /** Length of a string as Kotlin counts it: supplementary characters take two UTF-16 units. */
  function Utf16Length(s: string): (n: nat)
    ensures |s| <= n <= 2 * |s|
    ensures (forall i :: 0 <= i < |s| ==> s[i] as int < 0x1_0000) ==> n == |s|
  {
    if s == [] then 0
    else (if s[0] as int < 0x1_0000 then 1 else 2) + Utf16Length(s[1..])
  }

  /** A string of supplementary characters only takes two units per character. */
  lemma {:induction false} Utf16Supplementary(s: string)
    requires forall i :: 0 <= i < |s| ==> s[i] as int >= 0x1_0000
    ensures Utf16Length(s) == 2 * |s|
  {
    if s != [] {
      assert forall i :: 0 <= i < |s| - 1 ==> s[1..][i] == s[i + 1];
      Utf16Supplementary(s[1..]);
    }
  }

  lemma {:induction false} TrimStartSkips(a: string, t: string)
    requires AllWhitespace(a)
    requires t == [] || !IsWhitespace(t[0])
    ensures TrimStart(a + t) == t
    decreases |a|
  {
    if a == [] {
      assert a + t == t;
    } else {
      assert (a + t)[1..] == a[1..] + t;
      TrimStartSkips(a[1..], t);
    }
  }

  lemma {:induction false} TrimEndSkips(t: string, b: string)
    requires AllWhitespace(b)
    requires t == [] || !IsWhitespace(t[|t| - 1])
    ensures TrimEnd(t + b) == t
    decreases |b|
  {
    if b == [] {
      assert t + b == t;
    } else {
      assert (t + b)[..|t + b| - 1] == t + b[..|b| - 1];
      TrimEndSkips(t, b[..|b| - 1]);
    }
  }

  /**
   * Trimming is determined by the tight core alone: whatever whitespace
   * surrounds a tight string, `Trim` returns exactly that string.
   */
  lemma TrimUnique(a: string, m: string, b: string)
    requires AllWhitespace(a) && AllWhitespace(b) && Tight(m)
    ensures Trim(a + m + b) == m
  {
    if m == [] {
      assert a + m + b == (a + b) + [];
      AllWhitespaceAppend(a, b);
      TrimStartSkips(a + b, []);
    } else {
      assert a + m + b == a + (m + b);
      TrimStartSkips(a, m + b);
      TrimEndSkips(m, b);
    }
  }

  lemma AllWhitespaceAppend(x: string, y: string)
    requires AllWhitespace(x) && AllWhitespace(y)
    ensures AllWhitespace(x + y)
  {
    forall i | 0 <= i < |x + y| ensures IsWhitespace((x + y)[i]) {
      if i < |x| { assert (x + y)[i] == x[i]; } else { assert (x + y)[i] == y[i - |x|]; }
    }
  }

  lemma Regroup(a: string, p: string, m: string, q: string, b: string)
    ensures a + (p + m + q) + b == (a + p) + m + (q + b)
  {
  }

  lemma SliceSplit(s: string, lo: nat, hi: nat)
    requires lo <= hi <= |s|
    ensures s == s[..lo] + s[lo..hi] + s[hi..]
  {
    assert s[..hi] == s[..lo] + s[lo..hi];
  }

  /** `s` split around its trimmed text. */
  lemma TrimSplit(s: string) returns (pre: string, post: string)
    ensures s == pre + Trim(s) + post
    ensures AllWhitespace(pre) && AllWhitespace(post)
  {
    var lo, hi := TrimBounds(s);
    SliceSplit(s, lo, hi);
    pre, post := s[..lo], s[hi..];
  }

  /** Leading and trailing whitespace never changes what `trim()` returns. */
  lemma TrimIgnoresPadding(a: string, s: string, b: string)
    requires AllWhitespace(a) && AllWhitespace(b)
    ensures Trim(a + s + b) == Trim(s)
  {
    var pre, post := TrimSplit(s);
    var m := Trim(s);
    AllWhitespaceAppend(a, pre);
    AllWhitespaceAppend(post, b);
    calc {
      a + s + b;
    ==
      a + (pre + m + post) + b;
    == { Regroup(a, pre, m, post, b); }
      (a + pre) + m + (post + b);
    }
    TrimUnique(a + pre, m, post + b);
  }

  /** Trailing whitespace never changes what `trim()` returns. */
  lemma TrimIgnoresTrailing(s: string, b: string)
    requires AllWhitespace(b)
    ensures Trim(s + b) == Trim(s)
  {
    assert [] + s + b == s + b;
    TrimIgnoresPadding([], s, b);
  }

  /** `trim()` is idempotent. */
  lemma TrimIdempotent(s: string)
    ensures Trim(Trim(s)) == Trim(s)
  {
    var r := Trim(s);
    assert r == [] + r + [];
    TrimUnique([], r, []);
  }

  /** `s.trim().isEmpty()` holds exactly for the strings made of whitespace only. */
  lemma TrimEmptyIffBlank(s: string)
    ensures Trim(s) == [] <==> AllWhitespace(s)
  {
    var r := Trim(s);
    var lo, hi := TrimSlice(s);
    if r == [] {
      assert AllWhitespace(s);
    }
  }

  /**
   * A character sits strictly inside the trimmed text exactly when some
   * non-whitespace character precedes it and some follows it in `s`.
   */
  predicate Interior(s: string, j: int)
    requires 0 <= j < |s|
  {
    (exists i :: 0 <= i < j && !IsWhitespace(s[i])) &&
    (exists k :: j < k < |s| && !IsWhitespace(s[k]))
  }

  /** An occurrence of `c` inside the trimmed text is an interior occurrence in `s`. */
  lemma TrimmedIsInterior(s: string, c: char)
    requires IsWhitespace(c) && c in Trim(s)
    ensures exists j :: 0 <= j < |s| && s[j] == c && Interior(s, j)
  {
    var r := Trim(s);
    var lo, hi := TrimSlice(s);
    var t :| 0 <= t < |r| && r[t] == c;
    assert r[0] == s[lo] && r[|r| - 1] == s[lo + (|r| - 1)];
    assert 0 < t < |r| - 1;
    assert s[lo + t] == c;
    assert Interior(s, lo + t);
  }

  /** An interior occurrence of `c` in `s` survives trimming. */
  lemma InteriorIsTrimmed(s: string, c: char, j: int)
    requires 0 <= j < |s| && s[j] == c && Interior(s, j)
    ensures c in Trim(s)
  {
    var r := Trim(s);
    var lo, hi := TrimSlice(s);
    var i :| 0 <= i < j && !IsWhitespace(s[i]);
    var k :| j < k < |s| && !IsWhitespace(s[k]);
    assert r[j - lo] == c;
  }

  /**
   * `s.trim().contains(c)` for a whitespace character `c` (such as the
   * space) means an interior occurrence of `c` in `s`: leading and trailing
   * ones never count.
   */
  lemma TrimContainsWhitespace(s: string, c: char)
    requires IsWhitespace(c)
    ensures c in Trim(s) <==> exists j :: 0 <= j < |s| && s[j] == c && Interior(s, j)
  {
    if c in Trim(s) {
      TrimmedIsInterior(s, c);
    }
    if j :| 0 <= j < |s| && s[j] == c && Interior(s, j) {
      InteriorIsTrimmed(s, c, j);
    }
  }
}
