/** Sums over sequences of numbers. */
module Sums {

  function Sum(s: seq<int>): int {
    if s == [] then 0 else Sum(s[..|s| - 1]) + s[|s| - 1]
  }

  lemma {:induction false} SumUpdate(s: seq<int>, i: nat, v: int)
    requires i < |s|
    ensures Sum(s[i := v]) == Sum(s) - s[i] + v
  {
    var n := |s| - 1;
    if i < n {
      SumUpdate(s[..n], i, v);
      assert s[i := v][..n] == s[..n][i := v];
    } else {
      assert s[i := v][..n] == s[..n];
    }
  }

  lemma {:induction false} SumMonotone(s: seq<int>, t: seq<int>)
    requires |s| == |t| && forall i :: 0 <= i < |s| ==> s[i] <= t[i]
    ensures Sum(s) <= Sum(t)
  {
    if s != [] {
      SumMonotone(s[..|s| - 1], t[..|s| - 1]);
    }
  }

  lemma {:induction false} SumConstant(s: seq<int>, c: int)
    requires forall i :: 0 <= i < |s| ==> s[i] == c
    ensures Sum(s) == |s| * c
  {
    if s != [] {
      var n := |s| - 1;
      SumConstant(s[..n], c);
      assert |s| * c == n * c + c;
    }
  }

  /** A sum that exceeds another exceeds it somewhere. */
  lemma {:induction false} LargerTerm(s: seq<int>, t: seq<int>) returns (i: nat)
    requires |s| == |t| && Sum(s) < Sum(t)
    ensures i < |s| && s[i] < t[i]
  {
    var n := |s| - 1;
    if s[n] < t[n] {
      i := n;
    } else {
      i := LargerTerm(s[..n], t[..n]);
    }
  }
}
