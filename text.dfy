/**
 * The string operations the project relies on: Python's `str.strip()` and
 * `str.lower()`, restricted to the ASCII range.
 */
module Text {

  /** A character Python's `str.isspace()` accepts, in the ASCII range:
      tab, line feed, vertical tab, form feed, carriage return (9..13),
      the four separators 0x1C..0x1F, and space (32). */
  predicate IsSpace(c: char) {
    9 <= c as int <= 13 || 28 <= c as int <= 32
  }

  predicate AllSpace(s: string) {
    forall k :: 0 <= k < |s| ==> IsSpace(s[k])
  }

  /** Number of leading whitespace characters. */
  function Leading(s: string): (n: nat)
    ensures n <= |s|
    ensures AllSpace(s[..n])
    ensures n < |s| ==> !IsSpace(s[n])
  {
    if |s| > 0 && IsSpace(s[0]) then
      var m := Leading(s[1..]);
      assert s[..1 + m] == [s[0]] + s[1..][..m];
      1 + m
    else 0
  }

  /** Number of trailing whitespace characters. */
  function Trailing(s: string): (n: nat)
    ensures n <= |s|
    ensures AllSpace(s[|s| - n..])
    ensures n < |s| ==> !IsSpace(s[|s| - n - 1])
  {
    if |s| > 0 && IsSpace(s[|s| - 1]) then
      var init := s[..|s| - 1];
      var m := Trailing(init);
      forall k | |s| - (1 + m) <= k < |s| ensures IsSpace(s[k]) {
        if k < |s| - 1 {
          assert s[k] == init[k] == init[|init| - m..][k - (|init| - m)];
        }
      }
      1 + m
    else 0
  }

  /** Python's `s.strip()`: the result is the slice of `s` left once the
      whitespace on both ends is cut, and neither of its ends is whitespace. */
  function Strip(s: string): (r: string)
    ensures Leading(s) + |r| <= |s|
    ensures r == s[Leading(s)..Leading(s) + |r|]
    ensures AllSpace(s[..Leading(s)]) && AllSpace(s[Leading(s) + |r|..])
    ensures r == [] || (!IsSpace(r[0]) && !IsSpace(r[|r| - 1]))
  {
    var i := Leading(s);
    var rest := s[i..];
    var j := Trailing(rest);
    assert rest[|rest| - j..] == s[i + (|rest| - j)..];
    s[i..|s| - j]
  }

  /** Whitespace on both sides of a text whose ends are not whitespace is
      exactly what `Strip` removes. */
  lemma {:induction false} StripPadded(pre: string, t: string, post: string)
    requires AllSpace(pre) && AllSpace(post)
    requires t == [] || (!IsSpace(t[0]) && !IsSpace(t[|t| - 1]))
    ensures Strip(pre + t + post) == t
  {
    var s := pre + t + post;
    if t == [] {
      AllSpaceAppend(pre, post);
      assert s == (pre + post) + [];
      LeadingOfPadded(pre + post, []);
      return;
    }
    LeadingOfPadded(pre, t + post);
    assert s == pre + (t + post);
    var rest := s[|pre|..];
    assert rest == t + post;
    TrailingOfPadded(t, post);
  }

  lemma {:induction false} LeadingOfPadded(pre: string, u: string)
    requires AllSpace(pre)
    requires u == [] || !IsSpace(u[0])
    ensures Leading(pre + u) == |pre|
  {
    if pre != [] {
      assert (pre + u)[1..] == pre[1..] + u;
      LeadingOfPadded(pre[1..], u);
    } else {
      assert pre + u == u;
    }
  }

  lemma {:induction false} TrailingOfPadded(t: string, post: string)
    requires AllSpace(post)
    requires t == [] || !IsSpace(t[|t| - 1])
    ensures Trailing(t + post) == |post|
  {
    if post != [] {
      var n := |post|;
      assert (t + post)[..|t + post| - 1] == t + post[..n - 1];
      TrailingOfPadded(t, post[..n - 1]);
    } else {
      assert t + post == t;
    }
  }

  predicate IsUpper(c: char) {
    'A' <= c <= 'Z'
  }

  function LowerChar(c: char): (d: char)
    ensures IsUpper(c) ==> d as int == c as int + 32
    ensures !IsUpper(c) ==> d == c
    ensures !IsUpper(d)
    ensures IsSpace(d) <==> IsSpace(c)
  {
    if IsUpper(c) then (c as int + 32) as char else c
  }

  /** Python's `s.lower()` on ASCII letters; other characters are kept. */
  function Lower(s: string): (r: string)
    ensures |r| == |s|
    ensures forall i :: 0 <= i < |s| ==>
              (IsUpper(s[i]) ==> r[i] as int == s[i] as int + 32) && (!IsUpper(s[i]) ==> r[i] == s[i])
    ensures forall i :: 0 <= i < |r| ==> !IsUpper(r[i]) && IsSpace(r[i]) == IsSpace(s[i])
  {
    seq(|s|, i requires 0 <= i < |s| => LowerChar(s[i]))
  }

  lemma LowerAppend(a: string, b: string)
    ensures Lower(a + b) == Lower(a) + Lower(b)
  {
  }

  lemma LowerKeepsSpace(a: string)
    requires AllSpace(a)
    ensures AllSpace(Lower(a))
  {
  }

  lemma AllSpaceAppend(a: string, b: string)
    requires AllSpace(a) && AllSpace(b)
    ensures AllSpace(a + b)
  {
  }

  /** A string is its leading whitespace, its stripped middle and its
      trailing whitespace. */
  lemma StripSplits(s: string)
    ensures var i, r := Leading(s), Strip(s);
            s == s[..i] + r + s[i + |r|..] && AllSpace(s[..i]) && AllSpace(s[i + |r|..])
  {
    var i, r := Leading(s), Strip(s);
    SplitThree(s, i, i + |r|);
  }

  lemma SplitThree(s: string, i: nat, j: nat)
    requires i <= j <= |s|
    ensures s == s[..i] + s[i..j] + s[j..]
  {
  }

  /** Lowering commutes with stripping, so the order of `.strip().lower()`
      does not matter. */
  lemma {:induction false} LowerStripCommute(s: string)
    ensures Lower(Strip(s)) == Strip(Lower(s))
  {
    var i, r := Leading(s), Strip(s);
    var pre, post := s[..i], s[i + |r|..];
    StripSplits(s);
    LowerAppend(pre + r, post);
    LowerAppend(pre, r);
    LowerKeepsSpace(pre);
    LowerKeepsSpace(post);
    var lp, lr, lq := Lower(pre), Lower(r), Lower(post);
    assert Lower(s) == lp + lr + lq;
    if r == [] {
      AllSpaceAppend(lp, lq);
      assert lp + lr + lq == (lp + lq) + [] + [];
      StripPadded(lp + lq, [], []);
    } else {
      StripPadded(lp, lr, lq);
    }
  }
}
