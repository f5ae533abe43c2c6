/**
 * Python's ordering of `str` values (code point by code point, a proper
 * prefix first), `sorted(set(xs))`, and order-preserving selection.
 */
module Ordering {

  /** `a < b` on Python strings. */
  predicate Less(a: string, b: string)
  {
    if |a| == 0 then |b| > 0
    else |b| > 0 && (a[0] < b[0] || (a[0] == b[0] && Less(a[1..], b[1..])))
  }

  lemma {:induction false} LessIrreflexive(a: string)
    ensures !Less(a, a)
  {
    if |a| > 0 {
      LessIrreflexive(a[1..]);
    }
  }

  lemma {:induction false} LessTransitive(a: string, b: string, c: string)
    requires Less(a, b) && Less(b, c)
    ensures Less(a, c)
  {
    if |a| > 0 && a[0] == b[0] && b[0] == c[0] {
      LessTransitive(a[1..], b[1..], c[1..]);
    }
  }

  lemma {:induction false} LessTotal(a: string, b: string)
    requires a != b
    ensures Less(a, b) || Less(b, a)
  {
    if |a| > 0 && |b| > 0 && a[0] == b[0] {
      assert a == [a[0]] + a[1..] && b == [b[0]] + b[1..];
      LessTotal(a[1..], b[1..]);
    }
  }

  lemma LessAsymmetric(a: string, b: string)
    requires Less(a, b)
    ensures !Less(b, a)
  {
    if Less(b, a) {
      LessTransitive(a, b, a);
      LessIrreflexive(a);
    }
  }

  /** Strictly increasing, hence also free of duplicates. */
  predicate StrictlySorted(s: seq<string>)
  {
    forall i, j :: 0 <= i < j < |s| ==> Less(s[i], s[j])
  }

  /** Adds `x` to a strictly sorted list, unless it is already there. */
  function Insert(x: string, s: seq<string>): (r: seq<string>)
    requires StrictlySorted(s)
    ensures StrictlySorted(r)
    ensures forall v :: v in r <==> v == x || v in s
  {
    if s == [] then [x]
    else if x == s[0] then s
    else if Less(x, s[0]) then
      assert forall j :: 0 < j < |s| ==> Less(x, s[j]) by {
        forall j | 0 < j < |s| ensures Less(x, s[j]) {
          LessTransitive(x, s[0], s[j]);
        }
      }
      [x] + s
    else
      LessTotal(x, s[0]);
      var t := Insert(x, s[1..]);
      assert forall v :: v in t ==> Less(s[0], v);
      [s[0]] + t
  }

  /** `sorted(set(xs))`. */
  function SortedSet(xs: seq<string>): (r: seq<string>)
    ensures StrictlySorted(r)
    ensures forall v :: v in r <==> v in xs
  {
    if xs == [] then []
    else Insert(xs[0], SortedSet(xs[1..]))
  }

  lemma NonEmptyHasElement(s: seq<string>)
    ensures s != [] <==> exists v :: v in s
  {
    if s != [] {
      assert s[0] in s;
    }
  }

  lemma HeadIsLeast(s: seq<string>, v: string)
    requires StrictlySorted(s) && v in s
    ensures s[0] == v || Less(s[0], v)
  {
  }

  /** Strictly sorted lists holding the same elements are equal, so
      `SortedSet` is determined by the set of its input's elements. */
  lemma {:induction false} SortedUnique(a: seq<string>, b: seq<string>)
    requires StrictlySorted(a) && StrictlySorted(b)
    requires forall v :: v in a <==> v in b
    ensures a == b
  {
    NonEmptyHasElement(a);
    NonEmptyHasElement(b);
    if a != [] && b != [] {
      var x, y := a[0], b[0];
      assert x in b && y in a;
      HeadIsLeast(b, x);
      HeadIsLeast(a, y);
      if x != y {
        LessAsymmetric(y, x);
      }
      forall v ensures v in a[1..] <==> v in b[1..] {
        if v in a[1..] {
          var i :| 1 <= i < |a| && a[i] == v;
          assert Less(a[0], v);
          assert v != b[0] by { LessIrreflexive(v); }
          assert v in b;
          var k :| 0 <= k < |b| && b[k] == v;
          assert b[1..][k - 1] == v;
        }
        if v in b[1..] {
          var i :| 1 <= i < |b| && b[i] == v;
          assert Less(b[0], v);
          assert v != a[0] by { LessIrreflexive(v); }
          assert v in a;
          var k :| 0 <= k < |a| && a[k] == v;
          assert a[1..][k - 1] == v;
        }
      }
      SortedUnique(a[1..], b[1..]);
      assert a == [a[0]] + a[1..] && b == [b[0]] + b[1..];
    }
  }

  /** An element of a strictly sorted list that sits after the first `n`
      is greater than each of them. */
  lemma SortedPrefixBelow(s: seq<string>, n: nat, v: string)
    requires StrictlySorted(s) && n <= |s|
    requires v in s && v !in s[..n]
    ensures forall e :: e in s[..n] ==> Less(e, v)
  {
  }

  /** `a` is `b` with some elements removed, the rest in their order. */
  predicate IsSubsequence<T(==)>(a: seq<T>, b: seq<T>)
  {
    if a == [] then true
    else if b == [] then false
    else if a[0] == b[0] then IsSubsequence(a[1..], b[1..])
    else IsSubsequence(a, b[1..])
  }

  /** `[f(x) for x in s]` */
  function Map<A, B>(s: seq<A>, f: A -> B): (r: seq<B>)
    ensures |r| == |s|
    ensures forall i :: 0 <= i < |s| ==> r[i] == f(s[i])
  {
    seq(|s|, i requires 0 <= i < |s| => f(s[i]))
  }

  /** Mapping both sides keeps a subsequence a subsequence. */
  lemma {:induction false} MapSubsequence<A, B>(a: seq<A>, b: seq<A>, f: A -> B)
    requires IsSubsequence(a, b)
    ensures IsSubsequence(Map(a, f), Map(b, f))
  {
    if a != [] && b != [] {
      assert Map(b, f)[1..] == Map(b[1..], f);
      if a[0] == b[0] {
        assert Map(a, f)[1..] == Map(a[1..], f);
        MapSubsequence(a[1..], b[1..], f);
      } else {
        MapSubsequence(a, b[1..], f);
        SubsequenceDropHead(Map(a, f), Map(b, f));
      }
    }
  }

  /** The elements of `b` that satisfy `keep`, in order. */
  function Filter<T(!new)>(b: seq<T>, keep: T -> bool): (r: seq<T>)
    ensures |r| <= |b|
    ensures forall v :: v in r <==> v in b && keep(v)
  {
    if b == [] then []
    else if keep(b[0]) then [b[0]] + Filter(b[1..], keep)
    else Filter(b[1..], keep)
  }

  /** Filtering one more element at the end. */
  lemma {:induction false} FilterAppend<T(!new)>(a: seq<T>, x: T, keep: T -> bool)
    ensures Filter(a + [x], keep) == Filter(a, keep) + (if keep(x) then [x] else [])
  {
    if a == [] {
      assert a + [x] == [x];
    } else {
      assert (a + [x])[0] == a[0];
      assert (a + [x])[1..] == a[1..] + [x];
      FilterAppend(a[1..], x, keep);
    }
  }

  /** Filtering keeps the order of what it keeps. */
  lemma {:induction false} FilterIsSubsequence<T(!new)>(b: seq<T>, keep: T -> bool)
    ensures IsSubsequence(Filter(b, keep), b)
  {
    if b != [] {
      FilterIsSubsequence(b[1..], keep);
    }
  }

  /** Dropping the first element of a subsequence leaves a subsequence. */
  lemma {:induction false} SubsequenceTail<T>(a: seq<T>, x: seq<T>)
    requires a != [] && IsSubsequence(a, x)
    ensures IsSubsequence(a[1..], x)
    decreases |x|, 1
  {
    if a[0] == x[0] {
      SubsequenceDropHead(a[1..], x);
    } else {
      SubsequenceTail(a, x[1..]);
      SubsequenceDropHead(a[1..], x);
    }
  }

  /** A subsequence of the tail is also a subsequence of the whole. */
  lemma {:induction false} SubsequenceDropHead<T>(a: seq<T>, b: seq<T>)
    requires b != [] && IsSubsequence(a, b[1..])
    ensures IsSubsequence(a, b)
    decreases |b|, 0
  {
    if a != [] && a[0] == b[0] {
      SubsequenceTail(a, b[1..]);
    }
  }

  lemma {:induction false} SubsequenceTransitive<T>(a: seq<T>, b: seq<T>, c: seq<T>)
    requires IsSubsequence(a, b) && IsSubsequence(b, c)
    ensures IsSubsequence(a, c)
    decreases |c|
  {
    if a != [] {
      if b[0] == c[0] {
        if a[0] == b[0] {
          SubsequenceTransitive(a[1..], b[1..], c[1..]);
        } else {
          SubsequenceTransitive(a, b[1..], c[1..]);
        }
      } else {
        SubsequenceTransitive(a, b, c[1..]);
        SubsequenceDropHead(a, c);
      }
    }
  }
}
