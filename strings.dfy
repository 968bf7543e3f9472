/** String searching as JavaScript's `String.prototype.includes` and the regex class `\d` do it. */
module Strings {

  /** `s.includes(sub)`: some suffix of `s` starts with `sub`. */
  predicate Contains(s: string, sub: string)
    decreases |s|
  {
    sub <= s || (|s| > 0 && Contains(s[1..], sub))
  }

  /** `s` reads as `pre`, then `sub`, then `post`. */
  ghost predicate IsInfixSplit(s: string, pre: string, sub: string, post: string) {
    s == pre + sub + post
  }

  /** Reference definition: `sub` occurs somewhere in `s`. */
  ghost predicate Occurs(s: string, sub: string) {
    exists pre, post :: IsInfixSplit(s, pre, sub, post)
  }

  /** Whatever surrounds `sub`, the search finds it. */
  lemma {:induction false} ContainsInfix(pre: string, sub: string, post: string)
    ensures Contains(pre + sub + post, sub)
    decreases |pre|
  {
    var s := pre + sub + post;
    if pre == [] {
      assert s == sub + post;
    } else {
      assert s[1..] == pre[1..] + sub + post;
      ContainsInfix(pre[1..], sub, post);
    }
  }

  /** A successful search has found a real occurrence. */
  lemma {:induction false} ContainsSplits(s: string, sub: string)
    requires Contains(s, sub)
    ensures Occurs(s, sub)
    decreases |s|
  {
    if sub <= s {
      assert s == [] + sub + s[|sub|..];
      assert IsInfixSplit(s, [], sub, s[|sub|..]);
    } else {
      ContainsSplits(s[1..], sub);
      var pre, post :| IsInfixSplit(s[1..], pre, sub, post);
      assert s == [s[0]] + s[1..];
      assert IsInfixSplit(s, [s[0]] + pre, sub, post);
    }
  }

  /** The search and the reference definition agree on every input. */
  lemma ContainsIff(s: string, sub: string)
    ensures Contains(s, sub) <==> Occurs(s, sub)
  {
    if Occurs(s, sub) {
      var pre, post :| IsInfixSplit(s, pre, sub, post);
      ContainsInfix(pre, sub, post);
    }
    if Contains(s, sub) {
      ContainsSplits(s, sub);
    }
  }

  /** The regex class `\d`: an ASCII decimal digit. */
  predicate IsDigit(c: char) {
    '0' <= c <= '9'
  }

  predicate AllDigits(s: string) {
    forall i :: 0 <= i < |s| ==> IsDigit(s[i])
  }

  /** What `\d+` matches on its own: one or more digits. */
  predicate IsNumber(s: string) {
    |s| > 0 && AllDigits(s)
  }

  /** The length of the longest run of digits at the start of `s`. */
  function DigitRun(s: string): (n: nat)
    ensures n <= |s|
    ensures AllDigits(s[..n])
    ensures n < |s| ==> !IsDigit(s[n])
  {
    if |s| > 0 && IsDigit(s[0]) then 1 + DigitRun(s[1..]) else 0
  }

  /** A run of digits in front of `t` lengthens the leading run by exactly its length. */
  lemma {:induction false} DigitRunAfterDigits(a: string, t: string)
    requires AllDigits(a)
    ensures DigitRun(a + t) == |a| + DigitRun(t)
    decreases |a|
  {
    if a == [] {
      assert a + t == t;
    } else {
      assert (a + t)[1..] == a[1..] + t;
      DigitRunAfterDigits(a[1..], t);
    }
  }
}
