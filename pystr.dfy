/** The Python `str` built-ins that the extraction code relies on: `isspace`
    (which is also what the `re` module's `\s` matches in a `str` pattern),
    `strip()`, `find(sub, start)`, slicing `s[lo:hi]`, and letter comparison
    under `re.IGNORECASE`, restricted to ASCII letters. */
module PyStr {

  /** Python's `str.isspace()` for one character: the characters whose
      bidirectional class is WS, B or S, or whose category is Zs. */
  predicate IsSpace(c: char) {
    ('\t' <= c <= '\r') || ('\U{1c}' <= c <= '\U{1f}') || c == ' '
    || c == '\U{85}' || c == '\U{a0}' || c == '\U{1680}'
    || ('\U{2000}' <= c <= '\U{200a}') || c == '\U{2028}' || c == '\U{2029}'
    || c == '\U{202f}' || c == '\U{205f}' || c == '\U{3000}'
  }

  predicate AllSpace(s: string) {
    forall j :: 0 <= j < |s| ==> IsSpace(s[j])
  }

  /** Neither end of `s` is whitespace: what `strip()` leaves. */
  predicate Trimmed(s: string) {
    s == [] || (!IsSpace(s[0]) && !IsSpace(s[|s| - 1]))
  }

  /** `r` is what remains of `s` once whitespace is cut from both ends:
      `r` sits at some offset `a` of `s`, everything before and after it is
      whitespace, and `r` itself neither begins nor ends with whitespace. */
  ghost predicate IsStripOf(s: string, r: string) {
    exists a: nat :: StrippedAt(s, r, a)
  }

  ghost predicate StrippedAt(s: string, r: string, a: nat) {
    a + |r| <= |s|
    && (forall j :: 0 <= j < |r| ==> s[a + j] == r[j])
    && (forall j :: 0 <= j < a ==> IsSpace(s[j]))
    && (forall j :: a + |r| <= j < |s| ==> IsSpace(s[j]))
    && Trimmed(r)
  }

  /** Python's `s.strip()` with no argument: whitespace is cut from the
      front, then from the back, until neither end is whitespace. */
  function Strip(s: string): (r: string)
    ensures |r| <= |s|
    decreases |s|
  {
    if |s| > 0 && IsSpace(s[0]) then Strip(s[1..])
    else if |s| > 0 && IsSpace(s[|s| - 1]) then Strip(s[..|s| - 1])
    else s
  }

  /** `Strip(s)` is a strip of `s`, found at some offset. */
  lemma {:induction false} StripSpec(s: string)
    ensures IsStripOf(s, Strip(s))
    ensures Trimmed(Strip(s))
    decreases |s|
  {
    var r := Strip(s);
    if |s| > 0 && IsSpace(s[0]) {
      StripSpec(s[1..]);
      var a: nat :| StrippedAt(s[1..], r, a);
      StrippedFront(s, r, a);
    } else if |s| > 0 && IsSpace(s[|s| - 1]) {
      StripSpec(s[..|s| - 1]);
      var a: nat :| StrippedAt(s[..|s| - 1], r, a);
      StrippedBack(s, r, a);
    } else {
      assert StrippedAt(s, r, 0);
    }
  }

  /** A strip of `s[1..]` is one of `s` when `s[0]` is whitespace. */
  lemma StrippedFront(s: string, r: string, a: nat)
    requires |s| > 0 && IsSpace(s[0]) && StrippedAt(s[1..], r, a)
    ensures StrippedAt(s, r, a + 1)
  {
    var t := s[1..];
    assert forall j :: 0 <= j < |t| ==> t[j] == s[j + 1];
  }

  /** A strip of `s[..|s| - 1]` is one of `s` when its last character is
      whitespace. */
  lemma StrippedBack(s: string, r: string, a: nat)
    requires |s| > 0 && IsSpace(s[|s| - 1]) && StrippedAt(s[..|s| - 1], r, a)
    ensures StrippedAt(s, r, a)
  {
    var t := s[..|s| - 1];
    assert forall j :: 0 <= j < |t| ==> t[j] == s[j];
  }

  /** `strip()` is characterised by IsStripOf: there is exactly one string that
      `s` strips to, and it is `Strip(s)`. */
  lemma {:induction false} StripUnique(s: string, r: string)
    requires IsStripOf(s, r)
    ensures r == Strip(s)
  {
    StripSpec(s);
    var a: nat :| StrippedAt(s, r, a);
    var r0 := Strip(s);
    var a0: nat :| StrippedAt(s, r0, a0);
    assert r != [] ==> s[a] == r[0] && s[a + |r| - 1] == r[|r| - 1];
    assert r0 != [] ==> s[a0] == r0[0] && s[a0 + |r0| - 1] == r0[|r0| - 1];
    if r == [] {
      NoCoreAllSpace(s, a);
    } else if r0 == [] {
      NoCoreAllSpace(s, a0);
    } else {
      assert a == a0;
      assert a + |r| == a0 + |r0|;
    }
  }

  /** A strip with nothing left marks a string that is all whitespace. */
  lemma NoCoreAllSpace(s: string, a: nat)
    requires StrippedAt(s, [], a)
    ensures AllSpace(s)
  {
  }

  /** A string with no whitespace at either end strips to itself. */
  lemma StripTrimmed(s: string)
    requires Trimmed(s)
    ensures Strip(s) == s
  {
    assert StrippedAt(s, s, 0);
    StripUnique(s, s);
  }

  /** Stripping twice is stripping once. */
  lemma StripIdempotent(s: string)
    ensures Strip(Strip(s)) == Strip(s)
  {
    StripSpec(s);
    StripTrimmed(Strip(s));
  }

  /** `Strip(s)` is the slice of `s` that starts at offset `a`. */
  lemma StripOffset(s: string) returns (a: nat)
    ensures a + |Strip(s)| <= |s| && Strip(s) == s[a..a + |Strip(s)|]
  {
    var r := Strip(s);
    StripSpec(s);
    a :| StrippedAt(s, r, a);
    assert forall j :: 0 <= j < |r| ==> s[a..a + |r|][j] == r[j];
  }

  /** Every character of `Strip(s)` is a character of `s`. */
  lemma StripChars(s: string)
    ensures forall c :: c in Strip(s) ==> c in s
  {
    var r := Strip(s);
    StripSpec(s);
    var a: nat :| StrippedAt(s, r, a);
    forall c | c in r ensures c in s {
      var j :| 0 <= j < |r| && r[j] == c;
      assert s[a + j] == c;
    }
  }

  /// Finding substrings

  /** `sub` occurs in `s` starting at index `i`. */
  predicate OccursAt(s: string, sub: string, i: int) {
    0 <= i && i + |sub| <= |s| && s[i..i + |sub|] == sub
  }

  /** `i` is the first occurrence of `sub` in `s` at or after `from`. */
  ghost predicate FirstOccurrence(s: string, sub: string, from: int, i: int) {
    from <= i && OccursAt(s, sub, i)
    && forall j :: from <= j < i ==> !OccursAt(s, sub, j)
  }

  /** `sub` does not occur in `s` at or after `from`. */
  ghost predicate AbsentFrom(s: string, sub: string, from: int) {
    forall j :: from <= j ==> !OccursAt(s, sub, j)
  }

  /** The search behind `str.find` once its start has been normalised: the
      least index `i >= k` at which `sub` occurs, or -1. */
  function FindFrom(s: string, sub: string, k: nat): (r: int)
    ensures r == -1 ==> AbsentFrom(s, sub, k)
    ensures r != -1 ==> FirstOccurrence(s, sub, k, r)
    decreases |s| - k
  {
    if k + |sub| > |s| then -1
    else if s[k..k + |sub|] == sub then k
    else FindFrom(s, sub, k + 1)
  }

  /** Python's `s.find(sub, start)`: a negative start counts from the end of
      `s` and is clipped at 0; a start past the end finds nothing, not even
      the empty string. */
  function Find(s: string, sub: string, start: int): (r: int)
    ensures -1 <= r
    ensures r == -1 ==> AbsentFrom(s, sub, FindStart(s, start))
    ensures r != -1 ==> FirstOccurrence(s, sub, FindStart(s, start), r)
  {
    FindFrom(s, sub, FindStart(s, start))
  }

  /** `find` from a non-negative start returns the first occurrence there. */
  lemma FindFirst(s: string, sub: string, from: nat, i: nat)
    requires FirstOccurrence(s, sub, from, i)
    ensures Find(s, sub, from) == i
  {
    var r := Find(s, sub, from);
    assert r != -1;
    assert !(r < i) && !(i < r);
  }

  /** `find` from a non-negative start returns -1 when nothing occurs there. */
  lemma FindNone(s: string, sub: string, from: nat)
    requires AbsentFrom(s, sub, from)
    ensures Find(s, sub, from) == -1
  {
  }

  /** Moving the start of a search over indices where `sub` does not occur
      does not change what `find` returns. */
  lemma FindSkips(s: string, sub: string, from: nat, to: nat)
    requires from <= to
    requires forall i :: from <= i < to ==> !OccursAt(s, sub, i)
    ensures Find(s, sub, from) == Find(s, sub, to)
  {
    var r := Find(s, sub, to);
    if r == -1 {
      FindNone(s, sub, from);
    } else {
      FindFirst(s, sub, from, r);
    }
  }

  /** A character of `sub` that `s` lacks rules `sub` out everywhere. */
  lemma OccursNowhere(s: string, sub: string, c: char)
    requires c in sub && c !in s
    ensures AbsentFrom(s, sub, 0)
  {
    var k :| 0 <= k < |sub| && sub[k] == c;
    forall i | 0 <= i ensures !OccursAt(s, sub, i) {
      if i + |sub| <= |s| {
        assert s[i..i + |sub|][k] == s[i + k];
      }
    }
  }

  /** Where `find` starts looking for a given `start` argument. */
  function FindStart(s: string, start: int): (k: nat)
    ensures 0 <= start ==> k == start
    ensures start < 0 ==> k <= |s|
  {
    if 0 <= start then start else if start + |s| < 0 then 0 else start + |s|
  }

  /** A slice bound as Python reads it: negative counts from the end, and
      the result is clipped to `0..n`. */
  function SliceBound(n: nat, i: int): (b: nat)
    ensures b <= n
    ensures 0 <= i <= n ==> b == i
  {
    if i < 0 then (if i + n < 0 then 0 else i + n) else if i > n then n else i
  }

  /** Python's `s[lo:hi]`: empty whenever the normalised `hi` is not past
      the normalised `lo`. */
  function Slice(s: string, lo: int, hi: int): (r: string)
    ensures 0 <= lo <= hi <= |s| ==> r == s[lo..hi]
    ensures 0 <= hi <= lo ==> r == []
  {
    var a, b := SliceBound(|s|, lo), SliceBound(|s|, hi);
    if a < b then s[a..b] else []
  }

  /** Every character of a slice is a character of the string. */
  lemma SliceChars(s: string, lo: int, hi: int)
    ensures forall c :: c in Slice(s, lo, hi) ==> c in s
  {
    var r := Slice(s, lo, hi);
    var a := SliceBound(|s|, lo);
    forall c | c in r ensures c in s {
      var j :| 0 <= j < |r| && r[j] == c;
      assert s[a + j] == c;
    }
  }

  /// Letters under re.IGNORECASE (ASCII only)

  function AsciiLower(c: char): (l: char)
    ensures 'A' <= c <= 'Z' ==> 'a' <= l <= 'z'
    ensures !('A' <= c <= 'Z') ==> l == c
  {
    if 'A' <= c <= 'Z' then (c as int + 32) as char else c
  }

  /** The literal `lit` matches `s` at index `i` when letters are compared
      without regard to ASCII case. */
  predicate LiteralAt(s: string, lit: string, i: nat) {
    i + |lit| <= |s| && forall j :: 0 <= j < |lit| ==> AsciiLower(s[i + j]) == AsciiLower(lit[j])
  }

  /** A letter of `lit` that `s` lacks in either case rules `lit` out
      everywhere. */
  lemma LiteralNowhere(s: string, lit: string, c: char)
    requires c in lit && forall j :: 0 <= j < |s| ==> AsciiLower(s[j]) != AsciiLower(c)
    ensures forall i: nat :: !LiteralAt(s, lit, i)
  {
    var k :| 0 <= k < |lit| && lit[k] == c;
    forall i: nat ensures !LiteralAt(s, lit, i) {
      if i + |lit| <= |s| {
        assert AsciiLower(s[i + k]) != AsciiLower(lit[k]);
      }
    }
  }
}
