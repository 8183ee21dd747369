/**
 * Order-preserving selection, the shape of every `Array.prototype.filter`
 * in the dashboard, and the subsequence relation it establishes.
 */
module Sequences {

  /** `a` is obtained from `b` by deleting elements, keeping the order of the rest. */
  predicate IsSubsequence<T(==)>(a: seq<T>, b: seq<T>)
    decreases |b|
  {
    a == [] || (b != [] && ((a[0] == b[0] && IsSubsequence(a[1..], b[1..])) || IsSubsequence(a, b[1..])))
  }

  lemma {:induction false} SubsequenceReflexive<T>(a: seq<T>)
    ensures IsSubsequence(a, a)
  {
    if a != [] {
      SubsequenceReflexive(a[1..]);
    }
  }

  lemma {:induction false} SubsequenceTransitive<T>(a: seq<T>, b: seq<T>, c: seq<T>)
    requires IsSubsequence(a, b) && IsSubsequence(b, c)
    ensures IsSubsequence(a, c)
    decreases |c|
  {
    if a != [] {
      if b[0] == c[0] && IsSubsequence(b[1..], c[1..]) {
        if a[0] == b[0] && IsSubsequence(a[1..], b[1..]) {
          SubsequenceTransitive(a[1..], b[1..], c[1..]);
        } else {
          SubsequenceTransitive(a, b[1..], c[1..]);
        }
      } else {
        SubsequenceTransitive(a, b, c[1..]);
      }
    }
  }

  /** A subsequence as long as the whole is the whole. */
  lemma {:induction false} SubsequenceOfSameLength<T>(a: seq<T>, b: seq<T>)
    requires IsSubsequence(a, b) && |a| == |b|
    ensures a == b
    decreases |b|
  {
    if a != [] {
      if a[0] == b[0] && IsSubsequence(a[1..], b[1..]) {
        SubsequenceOfSameLength(a[1..], b[1..]);
        assert a == [a[0]] + a[1..] && b == [b[0]] + b[1..];
      } else {
        SubsequenceShorter(a, b[1..]);
      }
    }
  }

  lemma {:induction false} SubsequenceShorter<T>(a: seq<T>, b: seq<T>)
    requires IsSubsequence(a, b)
    ensures |a| <= |b|
    decreases |b|
  {
    if a != [] {
      if a[0] == b[0] && IsSubsequence(a[1..], b[1..]) {
        SubsequenceShorter(a[1..], b[1..]);
      } else {
        SubsequenceShorter(a, b[1..]);
      }
    }
  }

  /** Every element of a subsequence is an element of the whole. */
  lemma {:induction false} SubsequenceMembers<T>(a: seq<T>, b: seq<T>, x: T)
    requires IsSubsequence(a, b) && x in a
    ensures x in b
    decreases |b|
  {
    if a[0] == b[0] && IsSubsequence(a[1..], b[1..]) {
      if x != a[0] {
        SubsequenceMembers(a[1..], b[1..], x);
      }
    } else {
      SubsequenceMembers(a, b[1..], x);
    }
  }

  /** `filter(p)`: the elements of `s` that satisfy `p`, in their original order. */
  function Keep<T(==,!new)>(s: seq<T>, p: T -> bool): (r: seq<T>)
    ensures |r| <= |s|
    ensures IsSubsequence(r, s)
    ensures forall x :: multiset(r)[x] == if p(x) then multiset(s)[x] else 0
    ensures forall x :: x in r <==> x in s && p(x)
  {
    if s == [] then []
    else
      assert s == [s[0]] + s[1..];
      var rest := Keep(s[1..], p);
      if p(s[0]) then
        assert ([s[0]] + rest)[1..] == rest;
        [s[0]] + rest
      else
        rest
  }

  lemma ConcatAssociative<T>(a: seq<T>, b: seq<T>, c: seq<T>)
    ensures a + (b + c) == (a + b) + c
  {
  }

  /** Filtering a list extended by one element extends the filtered list by that element when it passes. */
  lemma {:induction false} KeepSnoc<T(!new)>(s: seq<T>, x: T, p: T -> bool)
    ensures Keep(s + [x], p) == Keep(s, p) + (if p(x) then [x] else [])
  {
    if s == [] {
      assert [] + [x] == [x];
      assert [x][1..] == [];
    } else {
      var t, rest := s + [x], s[1..];
      var tail := if p(x) then [x] else [];
      assert t[0] == s[0] && t[1..] == rest + [x];
      assert Keep(rest + [x], p) == Keep(rest, p) + tail by {
        KeepSnoc(rest, x, p);
      }
      if p(s[0]) {
        assert Keep(t, p) == [s[0]] + (Keep(rest, p) + tail);
        assert Keep(s, p) == [s[0]] + Keep(rest, p);
        ConcatAssociative([s[0]], Keep(rest, p), tail);
      } else {
        assert Keep(t, p) == Keep(rest, p) + tail;
        assert Keep(s, p) == Keep(rest, p);
      }
    }
  }

  /** When every element satisfies `p`, `filter(p)` returns its input. */
  lemma {:induction false} KeepEverything<T(!new)>(s: seq<T>, p: T -> bool)
    requires forall x :: x in s ==> p(x)
    ensures Keep(s, p) == s
  {
    if s != [] {
      KeepEverything(s[1..], p);
      assert [s[0]] + s[1..] == s;
    }
  }
}
