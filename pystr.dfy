/** The three Python string built-ins the extractor relies on: `str.lower`,
    `str.strip` (no argument) and the substring test `k in s`. */
module PyStr {

  /** The characters for which Python's `str.isspace` holds; these are what
      `str.strip()` removes from both ends: tab, line feed, vertical tab,
      form feed, carriage return, the four information separators U+001C to
      U+001F, space, U+0085, U+00A0, U+1680, U+2000 to U+200A, U+2028,
      U+2029, U+202F, U+205F and U+3000. */
  predicate IsWhitespace(c: char) {
    var n := c as int;
    (9 <= n <= 13) || (28 <= n <= 32) || n == 0x85 || n == 0xA0 || n == 0x1680
    || (0x2000 <= n <= 0x200A) || n == 0x2028 || n == 0x2029 || n == 0x202F
    || n == 0x205F || n == 0x3000
  }

  /** Lower-casing of one character, restricted to ASCII letters. */
  function LowerChar(c: char): (d: char)
    ensures 'A' <= c <= 'Z' ==> 'a' <= d <= 'z' && d as int - 'a' as int == c as int - 'A' as int
    ensures !('A' <= c <= 'Z') ==> d == c
    ensures IsWhitespace(d) <==> IsWhitespace(c)
  {
    if 'A' <= c <= 'Z' then (c as int - 'A' as int + 'a' as int) as char else c
  }

  /** `s.lower()`: every character lower-cased, length unchanged. */
  function Lower(s: string): (r: string)
    ensures |r| == |s|
    ensures forall i :: 0 <= i < |s| ==> r[i] == LowerChar(s[i])
  {
    if s == [] then [] else [LowerChar(s[0])] + Lower(s[1..])
  }

  /** Lower-casing commutes with taking a slice. */
  lemma LowerSlice(s: string, a: nat, b: nat)
    requires a <= b <= |s|
    ensures Lower(s[a..b]) == Lower(s)[a..b]
  {
  }

  /** `k` occurs in `s` starting at position `i`. */
  ghost predicate OccursAt(s: string, k: string, i: int) {
    0 <= i && i + |k| <= |s| && s[i..i + |k|] == k
  }

  /** `k in s`: Python's substring test, scanning from the left. */
  function Contains(s: string, k: string): bool
    decreases |s|
  {
    if |k| > |s| then false
    else if s[..|k|] == k then true
    else Contains(s[1..], k)
  }

  lemma OccursShift(s: string, k: string, i: nat)
    requires s != []
    ensures OccursAt(s[1..], k, i) <==> OccursAt(s, k, i + 1)
  {
    if i + |k| <= |s| - 1 {
      assert s[1..][i..i + |k|] == s[i + 1..i + 1 + |k|];
    }
  }

  /** The scan finds `k` exactly when `k` occurs somewhere in `s`. */
  lemma {:induction false} ContainsIff(s: string, k: string)
    ensures Contains(s, k) <==> exists i :: OccursAt(s, k, i)
    decreases |s|
  {
    if |k| > |s| {
    } else if s[..|k|] == k {
      assert OccursAt(s, k, 0);
    } else {
      ContainsIff(s[1..], k);
      if i :| OccursAt(s[1..], k, i) {
        OccursShift(s, k, i);
      }
      if i :| OccursAt(s, k, i) {
        assert i != 0;
        OccursShift(s, k, i - 1);
      }
    }
  }

  /** `s.lstrip()`. */
  function TrimStart(s: string): string {
    if s != [] && IsWhitespace(s[0]) then TrimStart(s[1..]) else s
  }

  /** `s.rstrip()`. */
  function TrimEnd(s: string): string {
    if s != [] && IsWhitespace(s[|s| - 1]) then TrimEnd(s[..|s| - 1]) else s
  }

  /** `s.strip()`: `s` with leading and trailing whitespace removed. */
  function Strip(s: string): string {
    TrimEnd(TrimStart(s))
  }

  /** `TrimStart` drops exactly the longest all-whitespace prefix. */
  lemma {:induction false} TrimStartSlice(s: string) returns (a: nat)
    ensures a <= |s| && TrimStart(s) == s[a..]
    ensures forall i :: 0 <= i < a ==> IsWhitespace(s[i])
    ensures a < |s| ==> !IsWhitespace(s[a])
    decreases |s|
  {
    if s != [] && IsWhitespace(s[0]) {
      var a' := TrimStartSlice(s[1..]);
      a := a' + 1;
      assert s[1..][a'..] == s[a..];
    } else {
      a := 0;
    }
  }

  /** `TrimEnd` drops exactly the longest all-whitespace suffix. */
  lemma {:induction false} TrimEndSlice(s: string) returns (b: nat)
    ensures b <= |s| && TrimEnd(s) == s[..b]
    ensures forall i :: b <= i < |s| ==> IsWhitespace(s[i])
    ensures b > 0 ==> !IsWhitespace(s[b - 1])
    decreases |s|
  {
    if s != [] && IsWhitespace(s[|s| - 1]) {
      b := TrimEndSlice(s[..|s| - 1]);
      assert s[..|s| - 1][..b] == s[..b];
    } else {
      b := |s|;
    }
  }

  /** What `Strip` keeps is one slice of its input; everything it drops is
      whitespace, and the slice neither starts nor ends with whitespace. */
  lemma StripSlice(s: string) returns (a: nat, b: nat)
    ensures a <= b <= |s|
    ensures Strip(s) == s[a..b]
    ensures forall i :: 0 <= i < a ==> IsWhitespace(s[i])
    ensures forall i :: b <= i < |s| ==> IsWhitespace(s[i])
    ensures a < b ==> !IsWhitespace(s[a]) && !IsWhitespace(s[b - 1])
  {
    a := TrimStartSlice(s);
    var t := s[a..];
    var c := TrimEndSlice(t);
    b := a + c;
    assert t[..c] == s[a..b];
    assert forall i :: b <= i < |s| ==> s[i] == t[i - a];
    if a < b {
      assert s[b - 1] == t[c - 1];
    }
  }

  /** The result of `Strip` has no whitespace at either end, and it is
      empty only when the input is all whitespace. */
  lemma StripEdges(s: string)
    ensures Strip(s) != [] ==> !IsWhitespace(Strip(s)[0]) && !IsWhitespace(Strip(s)[|Strip(s)| - 1])
    ensures Strip(s) == [] <==> forall i :: 0 <= i < |s| ==> IsWhitespace(s[i])
  {
    var a, b := StripSlice(s);
    if a < b {
      assert !IsWhitespace(s[a]);
    }
  }

  /** Stripping a string with no edge whitespace changes nothing, so
      `Strip` is idempotent. */
  lemma StripTrimmed(s: string)
    requires s != [] ==> !IsWhitespace(s[0]) && !IsWhitespace(s[|s| - 1])
    ensures Strip(s) == s
  {
    var a, b := StripSlice(s);
  }

  lemma StripIdempotent(s: string)
    ensures Strip(Strip(s)) == Strip(s)
  {
    StripEdges(s);
    StripTrimmed(Strip(s));
  }

  lemma OccursEnds(s: string, k: string, i: int)
    requires k != [] && OccursAt(s, k, i)
    ensures s[i] == k[0] && s[i + |k| - 1] == k[|k| - 1]
  {
    assert s[i..i + |k|][0] == k[0];
    assert s[i..i + |k|][|k| - 1] == k[|k| - 1];
  }

  /** An occurrence of a word with no edge whitespace lies inside any slice
      outside which there is only whitespace. */
  lemma OccursInTrimmedSlice(t: string, k: string, i: int, a: nat, b: nat)
    requires k != [] && !IsWhitespace(k[0]) && !IsWhitespace(k[|k| - 1])
    requires OccursAt(t, k, i)
    requires a <= b <= |t|
    requires forall p :: 0 <= p < a ==> IsWhitespace(t[p])
    requires forall p :: b <= p < |t| ==> IsWhitespace(t[p])
    ensures OccursAt(t[a..b], k, i - a)
  {
    OccursEnds(t, k, i);
    assert a <= i && i + |k| <= b;
    var u := t[a..b];
    forall q | 0 <= q < |k| ensures u[i - a + q] == k[q] {
      assert t[i..i + |k|][q] == k[q];
    }
    assert u[i - a..i - a + |k|] == k;
  }

  /** A word whose first and last characters are not whitespace, found in
      the lower-cased text, is still found after stripping that text. */
  lemma StripKeepsWord(s: string, k: string)
    requires k != [] && !IsWhitespace(k[0]) && !IsWhitespace(k[|k| - 1])
    requires Contains(Lower(s), k)
    ensures Contains(Lower(Strip(s)), k)
  {
    var ls := Lower(s);
    ContainsIff(ls, k);
    var i :| OccursAt(ls, k, i);
    var a, b := StripSlice(s);
    OccursInTrimmedSlice(ls, k, i, a, b);
    LowerSlice(s, a, b);
    ContainsIff(Lower(Strip(s)), k);
  }

  /** An occurrence inside a slice is an occurrence in the whole string,
      shifted by the slice's start. */
  lemma OccursInWhole(t: string, k: string, i: int, a: nat, b: nat)
    requires a <= b <= |t|
    requires OccursAt(t[a..b], k, i)
    ensures OccursAt(t, k, a + i)
  {
    var u := t[a..b];
    forall q | 0 <= q < |k| ensures t[a + i + q] == k[q] {
      assert u[i..i + |k|][q] == k[q];
    }
    assert t[a + i..a + i + |k|] == k;
  }

  /** The converse of `StripKeepsWord`, for any word: a word found in the
      lower-cased stripped text is found in the lower-cased text itself. */
  lemma WordOfStripped(s: string, k: string)
    requires Contains(Lower(Strip(s)), k)
    ensures Contains(Lower(s), k)
  {
    var a, b := StripSlice(s);
    ContainsIff(Lower(Strip(s)), k);
    var i :| OccursAt(Lower(Strip(s)), k, i);
    LowerSlice(s, a, b);
    OccursInWhole(Lower(s), k, i, a, b);
    ContainsIff(Lower(s), k);
  }
}
