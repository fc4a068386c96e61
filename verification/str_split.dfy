/**
 Python's `str.split(sep)` with an explicit, non-empty separator, and its
 inverse `sep.join(parts)`.
 */
module StrSplit {

  /** `sep` occurs in `s` starting at index `i`. */
  predicate MatchesAt(s: string, sep: string, i: int) {
    0 <= i && i + |sep| <= |s| && s[i..i + |sep|] == sep
  }

  ghost predicate Occurs(s: string, sep: string) {
    exists i :: MatchesAt(s, sep, i)
  }

  /** `p` can be followed by `sep` without the scan for `sep` stopping inside
      `p`: no occurrence of `sep` in `p + sep` starts before `|p|`. */
  ghost predicate Separable(p: string, sep: string) {
    forall i :: 0 <= i < |p| ==> !MatchesAt(p + sep, sep, i)
  }

  /** `s.split(sep)`: scanning left to right, cut `s` at each occurrence of
      `sep` that does not overlap an earlier cut. There is always at least
      one part, the first part is a prefix of `s`, and no part contains `sep`. */
  function Split(s: string, sep: string): (parts: seq<string>)
    requires |sep| > 0
    ensures |parts| >= 1
    ensures |parts[0]| <= |s| && parts[0] == s[..|parts[0]|]
    ensures forall j :: 0 <= j < |parts| ==> !Occurs(parts[j], sep)
    decreases |s|
  {
    if |s| < |sep| then
      assert !Occurs(s, sep);
      [s]
    else if s[..|sep|] == sep then
      [""] + Split(s[|sep|..], sep)
    else
      var rest := Split(s[1..], sep);
      NoOccurrenceCons(s, rest[0], sep);
      [[s[0]] + rest[0]] + rest[1..]
  }

  /** Gluing back the first character of `s` onto a sep-free prefix of
      `s[1..]` keeps it sep-free when `s` does not start with `sep`. */
  lemma NoOccurrenceCons(s: string, r0: string, sep: string)
    requires |s| >= |sep| > 0 && s[..|sep|] != sep
    requires |r0| <= |s| - 1 && r0 == s[1..][..|r0|]
    requires !Occurs(r0, sep)
    ensures !Occurs([s[0]] + r0, sep)
  {
    var p := [s[0]] + r0;
    assert p == s[..|p|];
    forall i | 0 <= i ensures !MatchesAt(p, sep, i) {
      if i + |sep| > |p| {
      } else if i == 0 {
        assert p[..|sep|] == s[..|sep|];
      } else {
        assert p[i..i + |sep|] == r0[i - 1..i - 1 + |sep|];
        assert !MatchesAt(r0, sep, i - 1);
      }
    }
  }

  /** `sep.join(parts)`. */
  function Join(parts: seq<string>, sep: string): string
    requires |parts| >= 1
  {
    if |parts| == 1 then parts[0] else parts[0] + sep + Join(parts[1..], sep)
  }

  lemma JoinConsFirst(c: string, r0: string, rest: seq<string>, sep: string)
    ensures Join([c + r0] + rest, sep) == c + Join([r0] + rest, sep)
  {
    assert ([c + r0] + rest)[1..] == rest;
    assert ([r0] + rest)[1..] == rest;
  }

  /** Joining the parts of a split with the same separator restores the input. */
  lemma {:induction false} JoinSplit(s: string, sep: string)
    requires |sep| > 0
    ensures Join(Split(s, sep), sep) == s
    decreases |s|
  {
    if |s| < |sep| {
    } else if s[..|sep|] == sep {
      JoinSplit(s[|sep|..], sep);
      var rest := Split(s[|sep|..], sep);
      assert ([""] + rest)[1..] == rest;
      assert s == sep + s[|sep|..];
    } else {
      JoinSplit(s[1..], sep);
      var rest := Split(s[1..], sep);
      JoinConsFirst([s[0]], rest[0], rest[1..], sep);
      assert [rest[0]] + rest[1..] == rest;
      assert s == [s[0]] + s[1..];
    }
  }

  /** A string with no occurrence of `sep` splits into itself alone. */
  lemma {:induction false} SplitNoOccurrence(p: string, sep: string)
    requires |sep| > 0
    requires forall i :: 0 <= i < |p| ==> !MatchesAt(p, sep, i)
    ensures Split(p, sep) == [p]
    decreases |p|
  {
    if |p| >= |sep| {
      assert !MatchesAt(p, sep, 0);
      forall i | 0 <= i < |p[1..]| ensures !MatchesAt(p[1..], sep, i) {
        assert !MatchesAt(p, sep, i + 1);
        if i + |sep| <= |p[1..]| {
          assert p[1..][i..i + |sep|] == p[i + 1..i + 1 + |sep|];
        }
      }
      SplitNoOccurrence(p[1..], sep);
      assert [p[0]] + p[1..] == p;
    }
  }

  /** The scan stops at the separator written right after a separable part. */
  lemma {:induction false} SplitAfterPart(p: string, sep: string, t: string)
    requires |sep| > 0
    requires Separable(p, sep)
    ensures Split(p + sep + t, sep) == [p] + Split(t, sep)
    decreases |p|
  {
    var s := p + sep + t;
    if |p| == 0 {
      assert s[..|sep|] == sep;
      assert s[|sep|..] == t;
    } else {
      assert s[..|sep|] != sep by {
        assert !MatchesAt(p + sep, sep, 0);
        assert (p + sep)[..|sep|] == s[..|sep|];
      }
      var q := p[1..];
      forall i | 0 <= i < |q| ensures !MatchesAt(q + sep, sep, i) {
        assert !MatchesAt(p + sep, sep, i + 1);
        if i + |sep| <= |q + sep| {
          assert (q + sep)[i..i + |sep|] == (p + sep)[i + 1..i + 1 + |sep|];
        }
      }
      SplitAfterPart(q, sep, t);
      assert s[1..] == q + sep + t;
      assert [s[0]] + q == p;
    }
  }

  /** Splitting the join of separable parts recovers the parts. */
  lemma {:induction false} SplitJoin(parts: seq<string>, sep: string)
    requires |sep| > 0 && |parts| >= 1
    requires forall j :: 0 <= j < |parts| ==> Separable(parts[j], sep)
    ensures Split(Join(parts, sep), sep) == parts
    decreases |parts|
  {
    var p := parts[0];
    if |parts| == 1 {
      forall i | 0 <= i < |p| ensures !MatchesAt(p, sep, i) {
        assert !MatchesAt(p + sep, sep, i);
        if i + |sep| <= |p| {
          assert (p + sep)[i..i + |sep|] == p[i..i + |sep|];
        }
      }
      SplitNoOccurrence(p, sep);
    } else {
      SplitJoin(parts[1..], sep);
      SplitAfterPart(p, sep, Join(parts[1..], sep));
      assert [p] + parts[1..] == parts;
    }
  }

  /** Every part but the last is cut at the first separator that follows
      it: no occurrence of `sep` starts inside the part. With `JoinSplit`
      and the sep-free parts this fixes the result of the scan. */
  lemma {:induction false} SplitCutsLeftmost(s: string, sep: string)
    requires |sep| > 0
    ensures forall j :: 0 <= j < |Split(s, sep)| - 1 ==> Separable(Split(s, sep)[j], sep)
    decreases |s|
  {
    var parts := Split(s, sep);
    if |s| < |sep| {
    } else if s[..|sep|] == sep {
      var rest := Split(s[|sep|..], sep);
      SplitCutsLeftmost(s[|sep|..], sep);
      assert parts == [""] + rest;
      forall j | 0 <= j < |parts| - 1 ensures Separable(parts[j], sep) {
        if j > 0 {
          assert parts[j] == rest[j - 1];
        }
      }
    } else {
      var rest := Split(s[1..], sep);
      SplitCutsLeftmost(s[1..], sep);
      assert parts == [[s[0]] + rest[0]] + rest[1..];
      if |rest| > 1 {
        assert Separable(parts[0], sep) by {
          var tail := Join(rest[1..], sep);
          assert s[1..] == rest[0] + sep + tail by {
            JoinSplit(s[1..], sep);
          }
          assert s == [s[0]] + rest[0] + sep + tail by {
            assert s == [s[0]] + s[1..];
          }
          SeparableCons(s, rest[0], tail, sep);
        }
      }
      forall j | 0 <= j < |parts| - 1 ensures Separable(parts[j], sep) {
        if j > 0 {
          assert parts[j] == rest[j];
        }
      }
    }
  }

  /** A separable part stays separable with the first character of `s` in
      front of it, when `s` does not start with `sep`. */
  lemma SeparableCons(s: string, r0: string, tail: string, sep: string)
    requires |sep| > 0 && |s| >= |sep| && s[..|sep|] != sep
    requires s == [s[0]] + r0 + sep + tail
    requires Separable(r0, sep)
    ensures Separable([s[0]] + r0, sep)
  {
    var p := [s[0]] + r0;
    forall i | 0 <= i < |p| ensures !MatchesAt(p + sep, sep, i) {
      if i == 0 {
        assert (p + sep)[..|sep|] == s[..|sep|];
      } else {
        assert !MatchesAt(r0 + sep, sep, i - 1);
        assert (p + sep)[i..i + |sep|] == (r0 + sep)[i - 1..i - 1 + |sep|];
      }
    }
  }
}
