/**
 Python's `str.strip`, `str.rstrip` and `str.lstrip` without arguments, over
 strings of Unicode code points.
 */
module StrStrip {

  /** The code points for which Python's `str.isspace` holds: these are the
      characters the argument-less strip functions remove. */
  predicate IsWhitespace(c: char) {
    var n := c as int;
    || n == 0x20
    || 0x09 <= n <= 0x0D
    || 0x1C <= n <= 0x1F
    || n == 0x85
    || n == 0xA0
    || n == 0x1680
    || 0x2000 <= n <= 0x200A
    || n == 0x2028
    || n == 0x2029
    || n == 0x202F
    || n == 0x205F
    || n == 0x3000
  }

  predicate AllWhitespace(s: string) {
    forall i :: 0 <= i < |s| ==> IsWhitespace(s[i])
  }

  /** Neither the first nor the last character is whitespace. */
  predicate IsTrimmed(s: string) {
    |s| == 0 || (!IsWhitespace(s[0]) && !IsWhitespace(s[|s| - 1]))
  }

  /** `r` occurs in `s` at offset `k` and every character of `s` outside that
      occurrence is whitespace. */
  predicate Surrounds(s: string, k: int, r: string) {
    && 0 <= k && k + |r| <= |s|
    && s[k..k + |r|] == r
    && (forall i :: 0 <= i < k ==> IsWhitespace(s[i]))
    && (forall i :: k + |r| <= i < |s| ==> IsWhitespace(s[i]))
  }

  /** `s.rstrip()`: the longest prefix of `s` that does not end in whitespace. */
  function RStrip(s: string): (r: string)
    ensures |r| <= |s| && r == s[..|r|]
    ensures forall i :: |r| <= i < |s| ==> IsWhitespace(s[i])
    ensures |r| == 0 || !IsWhitespace(r[|r| - 1])
    decreases |s|
  {
    if |s| > 0 && IsWhitespace(s[|s| - 1]) then
      var r := RStrip(s[..|s| - 1]);
      assert r == s[..|r|];
      r
    else
      s
  }

  /** `s.lstrip()`: the longest suffix of `s` that does not start with whitespace. */
  function LStrip(s: string): (r: string)
    ensures |r| <= |s| && r == s[|s| - |r|..]
    ensures forall i :: 0 <= i < |s| - |r| ==> IsWhitespace(s[i])
    ensures |r| == 0 || !IsWhitespace(r[0])
    decreases |s|
  {
    if |s| > 0 && IsWhitespace(s[0]) then
      var r := LStrip(s[1..]);
      assert forall i :: 1 <= i < |s| - |r| ==> s[i] == s[1..][i - 1];
      r
    else
      s
  }

  /** `s.strip()`: `s` with whitespace removed from both ends. The result is
      trimmed, and it sits in `s` where the right strip ends, with only
      whitespace around it. */
  function Strip(s: string): (r: string)
    ensures IsTrimmed(r)
    ensures Surrounds(s, |RStrip(s)| - |r|, r)
  {
    var t := RStrip(s);
    var r := LStrip(t);
    SurroundsBothStrips(s, t, r);
    r
  }

  /** The stripped string is an infix of `s` with only whitespace around it. */
  lemma StripSurrounds(s: string)
    ensures exists k :: Surrounds(s, k, Strip(s))
  {
    var r := Strip(s);
    assert Surrounds(s, |RStrip(s)| - |r|, r);
  }

  /** A trimmed-on-the-left suffix `r` of a trimmed-on-the-right prefix `t`
      of `s`, each cut off only whitespace, sits inside `s` with only
      whitespace around it and is trimmed on both sides. */
  lemma SurroundsBothStrips(s: string, t: string, r: string)
    requires |t| <= |s| && t == s[..|t|]
    requires forall i :: |t| <= i < |s| ==> IsWhitespace(s[i])
    requires |t| == 0 || !IsWhitespace(t[|t| - 1])
    requires |r| <= |t| && r == t[|t| - |r|..]
    requires forall i :: 0 <= i < |t| - |r| ==> IsWhitespace(t[i])
    requires |r| == 0 || !IsWhitespace(r[0])
    ensures IsTrimmed(r) && Surrounds(s, |t| - |r|, r)
  {
    var k := |t| - |r|;
    assert s[k..k + |r|] == r by {
      forall j | 0 <= j < |r| ensures s[k..k + |r|][j] == r[j] {
        assert r[j] == t[k + j];
      }
    }
    forall i | 0 <= i < k ensures IsWhitespace(s[i]) {
      assert s[i] == t[i];
    }
    if |r| > 0 {
      assert r[|r| - 1] == t[|t| - 1];
    }
  }

  /** `[x.strip() for x in lines]`. */
  function StripEach(lines: seq<string>): (r: seq<string>)
    ensures |r| == |lines|
    ensures forall i :: 0 <= i < |lines| ==> r[i] == Strip(lines[i])
  {
    seq(|lines|, i requires 0 <= i < |lines| => Strip(lines[i]))
  }

  /** When `s[first]` and `s[last]` are the outermost non-whitespace
      characters of `s`, strip returns exactly the span between them. */
  lemma StripSpan(s: string, first: int, last: int)
    requires 0 <= first <= last < |s|
    requires !IsWhitespace(s[first]) && !IsWhitespace(s[last])
    requires forall i :: 0 <= i < first ==> IsWhitespace(s[i])
    requires forall i :: last < i < |s| ==> IsWhitespace(s[i])
    ensures Strip(s) == s[first..last + 1]
  {
    var r := Strip(s);
    var k := |RStrip(s)| - |r|;
    assert Surrounds(s, k, r);
    SurroundedSpan(s, k, r, first, last);
  }

  /** A trimmed `r` with only whitespace around it in `s` begins at the first
      and ends at the last non-whitespace character of `s`. */
  lemma SurroundedSpan(s: string, k: int, r: string, first: int, last: int)
    requires Surrounds(s, k, r) && IsTrimmed(r)
    requires 0 <= first <= last < |s|
    requires !IsWhitespace(s[first]) && !IsWhitespace(s[last])
    requires forall i :: 0 <= i < first ==> IsWhitespace(s[i])
    requires forall i :: last < i < |s| ==> IsWhitespace(s[i])
    ensures k == first && k + |r| == last + 1 && r == s[first..last + 1]
  {
    assert k <= first < k + |r|;
    assert s[k] == r[0] && s[k + |r| - 1] == r[|r| - 1];
  }

  /** Whatever surrounds a trimmed, non-empty core with whitespace, strip
      returns exactly that core: the contract of `Strip` determines it. */
  lemma StripUnique(a: string, m: string, b: string)
    requires AllWhitespace(a) && AllWhitespace(b)
    requires IsTrimmed(m) && |m| > 0
    ensures Strip(a + m + b) == m
  {
    var s := a + m + b;
    var first, last := |a|, |a| + |m| - 1;
    assert s[first] == m[0] && s[last] == m[|m| - 1];
    forall i | 0 <= i < first ensures IsWhitespace(s[i]) {
      assert s[i] == a[i];
    }
    forall i | last < i < |s| ensures IsWhitespace(s[i]) {
      assert s[i] == b[i - last - 1];
    }
    StripSpan(s, first, last);
    assert s[first..last + 1] == m;
  }

  /** Stripping a string that is already trimmed changes nothing. */
  lemma StripTrimmed(s: string)
    requires IsTrimmed(s)
    ensures Strip(s) == s
  {
    if |s| > 0 {
      assert "" + s + "" == s;
      StripUnique("", s, "");
    } else {
      var r := Strip(s);
      assert |r| <= |s|;
    }
  }

  /** `x.strip().strip() == x.strip()`. */
  lemma StripIdempotent(s: string)
    ensures Strip(Strip(s)) == Strip(s)
  {
    StripTrimmed(Strip(s));
  }

  /** Strip yields the empty string exactly for all-whitespace input. */
  lemma StripEmptyIff(s: string)
    ensures Strip(s) == "" <==> AllWhitespace(s)
  {
    var r := Strip(s);
    var k := |RStrip(s)| - |r|;
    assert Surrounds(s, k, r);
    if r != "" {
      assert s[k] == r[0];
    }
  }

  lemma StripBlank(s: string)
    requires AllWhitespace(s)
    ensures Strip(s) == ""
  {
    StripEmptyIff(s);
  }
}
