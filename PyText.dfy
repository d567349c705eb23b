/**
 Python's `str.strip()` with no argument: remove the leading and trailing
 characters for which `str.isspace()` holds.
 */
module PyText {

  /** The code points for which Python's `str.isspace()` is true. */
  predicate IsSpace(c: char): (b: bool)
    ensures ('A' <= c <= 'Z' || 'a' <= c <= 'z' || '0' <= c <= '9' || c == '.') ==> !b
    ensures (c == ' ' || c == '\t' || c == '\n' || c == '\r') ==> b
  {
    || ('\U{9}' <= c <= '\U{D}')
    || ('\U{1C}' <= c <= '\U{20}')
    || c == '\U{85}' || c == '\U{A0}' || c == '\U{1680}'
    || ('\U{2000}' <= c <= '\U{200A}')
    || c == '\U{2028}' || c == '\U{2029}' || c == '\U{202F}' || c == '\U{205F}'
    || c == '\U{3000}'
  }

  predicate AllSpace(s: string) {
    forall i :: 0 <= i < |s| ==> IsSpace(s[i])
  }

  /** Number of whitespace characters at the front of `s`. */
  function LeadingSpaces(s: string): (n: nat)
    ensures n <= |s|
    ensures AllSpace(s[..n])
    ensures n < |s| ==> !IsSpace(s[n])
  {
    if |s| > 0 && IsSpace(s[0]) then 1 + LeadingSpaces(s[1..]) else 0
  }

  /** Number of whitespace characters at the back of `s`. */
  function TrailingSpaces(s: string): (n: nat)
    ensures n <= |s|
    ensures AllSpace(s[|s| - n..])
    ensures n < |s| ==> !IsSpace(s[|s| - 1 - n])
  {
    if |s| > 0 && IsSpace(s[|s| - 1]) then 1 + TrailingSpaces(s[..|s| - 1]) else 0
  }

  /** `s.strip()`: the part of `s` between its leading and its trailing whitespace. */
  function Strip(s: string): (r: string)
    ensures LeadingSpaces(s) + |r| <= |s|
    ensures r == s[LeadingSpaces(s)..LeadingSpaces(s) + |r|]
    ensures AllSpace(s[..LeadingSpaces(s)]) && AllSpace(s[LeadingSpaces(s) + |r|..])
    ensures r == [] || (!IsSpace(r[0]) && !IsSpace(r[|r| - 1]))
  {
    var rest := s[LeadingSpaces(s)..];
    rest[..|rest| - TrailingSpaces(rest)]
  }

  lemma AllSpaceConcat(a: string, b: string)
    requires AllSpace(a) && AllSpace(b)
    ensures AllSpace(a + b)
  {
    forall i | 0 <= i < |a + b| ensures IsSpace((a + b)[i]) {
      if i < |a| { assert (a + b)[i] == a[i]; } else { assert (a + b)[i] == b[i - |a|]; }
    }
  }

  /** Stripping yields nothing exactly when the text is all whitespace. */
  lemma StripEmptyIffAllSpace(s: string)
    ensures Strip(s) == [] <==> AllSpace(s)
  {
    var n := LeadingSpaces(s);
    var r := Strip(s);
    if r == [] {
      assert s == s[..n] + s[n..];
      AllSpaceConcat(s[..n], s[n..]);
    } else {
      assert s[n] == r[0];
    }
  }

  lemma Regroup<T>(p: seq<T>, pre: seq<T>, r: seq<T>, suf: seq<T>, q: seq<T>)
    ensures p + (pre + r + suf) + q == (p + pre) + r + (suf + q)
  {
  }

  /**
   Strip is determined by its contract: whatever non-blank text `r` is padded
   with whitespace on both sides, stripping gives back `r`.
   */
  lemma StripUnique(p: string, r: string, q: string)
    requires AllSpace(p) && AllSpace(q)
    requires r == [] || (!IsSpace(r[0]) && !IsSpace(r[|r| - 1]))
    ensures Strip(p + r + q) == r
  {
    var s := p + r + q;
    var n := LeadingSpaces(s);
    var t := Strip(s);
    if r == [] {
      assert AllSpace(s) by {
        forall i | 0 <= i < |s| ensures IsSpace(s[i]) {
          if i < |p| { assert s[i] == p[i]; } else { assert s[i] == q[i - |p|]; }
        }
      }
      StripEmptyIffAllSpace(s);
    } else {
      assert s[|p|] == r[0];
      assert n == |p|;
      assert s[|p| + |r| - 1] == r[|r| - 1];
      assert |t| == |r|;
      assert t == s[|p|..|p| + |r|] == r;
    }
  }

  lemma StripIdempotent(s: string)
    ensures Strip(Strip(s)) == Strip(s)
  {
    StripUnique([], Strip(s), []);
    assert [] + Strip(s) + [] == Strip(s);
  }

  /** Padding a text with more whitespace does not change what it strips to. */
  lemma StripIgnoresPadding(p: string, s: string, q: string)
    requires AllSpace(p) && AllSpace(q)
    ensures Strip(p + s + q) == Strip(s)
  {
    var n := LeadingSpaces(s);
    var r := Strip(s);
    var pre, suf := s[..n], s[n + |r|..];
    assert s == pre + r + suf;
    Regroup(p, pre, r, suf, q);
    AllSpaceConcat(p, pre);
    AllSpaceConcat(suf, q);
    StripUnique(p + pre, r, suf + q);
  }

  /** A text that starts with a non-blank character strips to something starting with it. */
  lemma StripKeepsFirstVisible(c: char, rest: string)
    requires !IsSpace(c)
    ensures Strip([c] + rest) != [] && Strip([c] + rest)[0] == c
  {
    var s := [c] + rest;
    assert s[0] == c;
    StripEmptyIffAllSpace(s);
    assert !AllSpace(s) by { assert s[0] == c; }
  }
}
