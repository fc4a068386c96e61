/**
 Python's default ordering of `str` values (code point by code point, a
 proper prefix first) and `list.sort()` over it, specified as "the sorted
 permutation", which is unique for this order.
 */
module OrdinalSort {

  /** `a <= b` on Python strings. */
  predicate Leq(a: string, b: string)
    decreases |a|
  {
    |a| == 0 || (|b| > 0 && (a[0] < b[0] || (a[0] == b[0] && Leq(a[1..], b[1..]))))
  }

  /** Python's comparison as it is documented: `a` is a prefix of `b`, or the
      first code point where they differ is smaller in `a`. */
  ghost predicate LexicographicLeq(a: string, b: string) {
    || (|a| <= |b| && a == b[..|a|])
    || (exists k :: 0 <= k < |a| && k < |b| && a[..k] == b[..k] && a[k] < b[k])
  }

  /** The recursive comparison is the documented one. */
  lemma {:induction false} LeqIsLexicographic(a: string, b: string)
    ensures Leq(a, b) <==> LexicographicLeq(a, b)
    decreases |a|
  {
    if |a| > 0 && |b| > 0 {
      LeqIsLexicographic(a[1..], b[1..]);
      if a[0] == b[0] {
        if LexicographicLeq(a[1..], b[1..]) {
          if |a[1..]| <= |b[1..]| && a[1..] == b[1..][..|a[1..]|] {
            assert a == [a[0]] + a[1..] && b[..|a|] == [b[0]] + b[1..][..|a[1..]|];
          } else {
            var k :| 0 <= k < |a[1..]| && k < |b[1..]| && a[1..][..k] == b[1..][..k] && a[1..][k] < b[1..][k];
            assert a[..k + 1] == [a[0]] + a[1..][..k] && b[..k + 1] == [b[0]] + b[1..][..k];
            assert a[k + 1] < b[k + 1];
          }
        }
        if LexicographicLeq(a, b) {
          if |a| <= |b| && a == b[..|a|] {
            assert a[1..] == b[1..][..|a[1..]|];
          } else {
            var k :| 0 <= k < |a| && k < |b| && a[..k] == b[..k] && a[k] < b[k];
            assert k > 0;
            assert a[1..][..k - 1] == a[..k][1..] && b[1..][..k - 1] == b[..k][1..];
            assert a[1..][k - 1] < b[1..][k - 1];
          }
        }
      } else if a[0] < b[0] {
        assert a[..0] == b[..0];
      } else {
        if exists k :: 0 <= k < |a| && k < |b| && a[..k] == b[..k] && a[k] < b[k] {
          var k :| 0 <= k < |a| && k < |b| && a[..k] == b[..k] && a[k] < b[k];
          if k > 0 {
            assert a[..k][0] == b[..k][0];
          }
        }
      }
    } else if |a| > 0 {
      assert !(|a| <= |b|);
    }
  }

  lemma {:induction false} LeqReflexive(a: string)
    ensures Leq(a, a)
    decreases |a|
  {
    if |a| > 0 {
      LeqReflexive(a[1..]);
    }
  }

  lemma {:induction false} LeqAntisymmetric(a: string, b: string)
    requires Leq(a, b) && Leq(b, a)
    ensures a == b
    decreases |a|
  {
    if |a| > 0 {
      LeqAntisymmetric(a[1..], b[1..]);
      assert a == [a[0]] + a[1..] && b == [b[0]] + b[1..];
    }
  }

  lemma {:induction false} LeqTransitive(a: string, b: string, c: string)
    requires Leq(a, b) && Leq(b, c)
    ensures Leq(a, c)
    decreases |a|
  {
    if |a| > 0 && a[0] == b[0] && b[0] == c[0] {
      LeqTransitive(a[1..], b[1..], c[1..]);
    }
  }

  lemma {:induction false} LeqTotal(a: string, b: string)
    ensures Leq(a, b) || Leq(b, a)
    decreases |a|
  {
    if |a| > 0 && |b| > 0 && a[0] == b[0] {
      LeqTotal(a[1..], b[1..]);
    }
  }

  /** Ascending in Python's string order. */
  predicate Sorted(s: seq<string>) {
    forall i, j :: 0 <= i < j < |s| ==> Leq(s[i], s[j])
  }

  /** Insert `x` into sorted `s` before the first element it does not exceed. */
  function Insert(x: string, s: seq<string>): (r: seq<string>)
    requires Sorted(s)
    ensures Sorted(r)
    ensures multiset(r) == multiset(s) + multiset{x}
  {
    if |s| == 0 then
      [x]
    else if Leq(x, s[0]) then
      BelowHead(x, s);
      ConsSorted(x, s);
      [x] + s
    else
      SortedTail(s);
      var t := Insert(x, s[1..]);
      AboveHead(x, s, t);
      ConsSorted(s[0], t);
      assert s == [s[0]] + s[1..];
      [s[0]] + t
  }

  /** An element no greater than anything in a sorted sequence may be put
      in front of it. */
  lemma ConsSorted(h: string, t: seq<string>)
    requires Sorted(t)
    requires forall y :: y in multiset(t) ==> Leq(h, y)
    ensures Sorted([h] + t)
  {
    var r := [h] + t;
    forall i, j | 0 <= i < j < |r| ensures Leq(r[i], r[j]) {
      assert r[j] == t[j - 1] && t[j - 1] in multiset(t);
      if i > 0 {
        assert r[i] == t[i - 1];
      }
    }
  }

  /** What does not exceed the head of a sorted sequence exceeds nothing in it. */
  lemma BelowHead(x: string, s: seq<string>)
    requires Sorted(s) && |s| > 0 && Leq(x, s[0])
    ensures forall y :: y in multiset(s) ==> Leq(x, y)
  {
    forall y | y in multiset(s) ensures Leq(x, y) {
      SortedHeadIsLeast(s, y);
      LeqTransitive(x, s[0], y);
    }
  }

  /** When `x` exceeds the head, the head is no greater than `x` nor than
      anything in the tail. */
  lemma AboveHead(x: string, s: seq<string>, t: seq<string>)
    requires Sorted(s) && |s| > 0 && !Leq(x, s[0])
    requires multiset(t) == multiset(s[1..]) + multiset{x}
    ensures forall y :: y in multiset(t) ==> Leq(s[0], y)
  {
    forall y | y in multiset(t) ensures Leq(s[0], y) {
      if y == x {
        LeqTotal(x, s[0]);
      } else {
        assert y in multiset(s[1..]);
        assert s == [s[0]] + s[1..];
        SortedHeadIsLeast(s, y);
      }
    }
  }

  /** `sorted(s)`: the elements of `s` in ascending order. */
  function Sort(s: seq<string>): (r: seq<string>)
    ensures Sorted(r)
    ensures multiset(r) == multiset(s)
  {
    if |s| == 0 then [] else
      assert s == [s[0]] + s[1..];
      Insert(s[0], Sort(s[1..]))
  }

  /** A sorted sequence starts with its least element. */
  lemma SortedHeadIsLeast(s: seq<string>, y: string)
    requires Sorted(s) && y in multiset(s)
    ensures Leq(s[0], y)
  {
    var j :| 0 <= j < |s| && s[j] == y;
    if j == 0 { LeqReflexive(y); }
  }

  lemma SortedTail(s: seq<string>)
    requires Sorted(s) && |s| > 0
    ensures Sorted(s[1..])
    ensures multiset(s[1..]) == multiset(s) - multiset{s[0]}
  {
    assert s == [s[0]] + s[1..];
  }

  /** There is only one sorted arrangement of a multiset of strings, so any
      sorting algorithm (Python's stable Timsort included) agrees with `Sort`. */
  lemma {:induction false} SortedUnique(a: seq<string>, b: seq<string>)
    requires Sorted(a) && Sorted(b)
    requires multiset(a) == multiset(b)
    ensures a == b
    decreases |a|
  {
    if |a| > 0 {
      assert |b| > 0 by {
        assert a[0] in multiset(a);
      }
      assert a[0] == b[0] by {
        assert a[0] in multiset(b) && b[0] in multiset(a) by {
          assert a[0] in multiset(a) && b[0] in multiset(b);
        }
        SortedHeadIsLeast(b, a[0]);
        SortedHeadIsLeast(a, b[0]);
        LeqAntisymmetric(a[0], b[0]);
      }
      SortedTail(a);
      SortedTail(b);
      SortedUnique(a[1..], b[1..]);
      assert a == [a[0]] + a[1..] && b == [b[0]] + b[1..];
    }
  }

  /** Sorting depends only on which elements there are, not on their order. */
  lemma SortPermutationInvariant(p: seq<string>, q: seq<string>)
    requires multiset(p) == multiset(q)
    ensures Sort(p) == Sort(q)
  {
    SortedUnique(Sort(p), Sort(q));
  }

  /** Sorting sorted input changes nothing. */
  lemma SortSorted(s: seq<string>)
    requires Sorted(s)
    ensures Sort(s) == s
  {
    SortedUnique(Sort(s), s);
  }
}
