/** Sequences and sets of page numbers, shared by the replacement algorithms. */
module Pages {

  function PageSet(s: seq<int>): set<int> {
    set p | p in s
  }

  predicate Distinct(s: seq<int>) {
    forall i, j :: 0 <= i < j < |s| ==> s[i] != s[j]
  }

  function Take<T>(s: seq<T>, k: nat): seq<T> {
    if |s| <= k then s else s[..k]
  }

  /** s without the first occurrence of p. */
  function Without(s: seq<int>, p: int): seq<int> {
    if s == [] then []
    else if s[0] == p then s[1..]
    else [s[0]] + Without(s[1..], p)
  }

  /** Number of faults in a trace (true marks a fault). */
  function Count(trace: seq<bool>): nat {
    if trace == [] then 0
    else Count(trace[..|trace| - 1]) + (if trace[|trace| - 1] then 1 else 0)
  }

  lemma {:induction false} DistinctCard(s: seq<int>)
    requires Distinct(s)
    ensures |PageSet(s)| == |s|
  {
    if s != [] {
      DistinctCard(s[1..]);
      assert PageSet(s) == {s[0]} + PageSet(s[1..]);
    }
  }

  lemma {:induction false} CardAtMostLength(s: seq<int>)
    ensures |PageSet(s)| <= |s|
  {
    if s != [] {
      CardAtMostLength(s[1..]);
      assert PageSet(s) == {s[0]} + PageSet(s[1..]);
    }
  }

  lemma SubsetCard<T>(a: set<T>, b: set<T>)
    requires a <= b
    ensures |a| <= |b|
  {
    assert b == a + (b - a);
  }

  lemma {:induction false} WithoutAt(s: seq<int>, p: int, j: nat)
    requires j < |s| && s[j] == p && p !in s[..j]
    ensures Without(s, p) == s[..j] + s[j + 1..]
  {
    if j > 0 {
      assert s[1..][..j - 1] == s[..j][1..];
      WithoutAt(s[1..], p, j - 1);
      assert s == [s[0]] + s[1..];
    }
  }

  lemma {:induction false} WithoutAbsent(s: seq<int>, p: int)
    requires p !in s
    ensures Without(s, p) == s
  {
    if s != [] {
      WithoutAbsent(s[1..], p);
    }
  }

  lemma {:induction false} FirstIndex(s: seq<int>, p: int) returns (j: nat)
    requires p in s
    ensures j < |s| && s[j] == p && p !in s[..j]
  {
    if s[0] == p {
      j := 0;
    } else {
      j := FirstIndex(s[1..], p);
      assert s[..j + 1] == [s[0]] + s[1..][..j];
      j := j + 1;
    }
  }

  lemma {:induction false} WithoutDistinct(s: seq<int>, p: int)
    requires Distinct(s)
    ensures Distinct(Without(s, p)) && p !in Without(s, p)
    ensures PageSet(Without(s, p)) == PageSet(s) - {p}
  {
    if p in s {
      var j := FirstIndex(s, p);
      WithoutAt(s, p, j);
      assert s == s[..j] + [p] + s[j + 1..];
    } else {
      WithoutAbsent(s, p);
    }
  }

  lemma PageSetSnoc(s: seq<int>, p: int)
    ensures PageSet(s + [p]) == PageSet(s) + {p}
  {
  }

  /** Putting one more page in adds one exactly when it was not there. */
  lemma AddPage(pages: set<int>, x: int)
    ensures |pages + {x}| == |pages| + if x in pages then 0 else 1
  {
    if x in pages {
      assert pages + {x} == pages;
    }
  }

  lemma PageSetAppend(s: seq<int>, t: seq<int>)
    ensures PageSet(s + t) == PageSet(s) + PageSet(t)
  {
  }

  lemma CountSnoc(trace: seq<bool>, b: bool)
    ensures Count(trace + [b]) == Count(trace) + (if b then 1 else 0)
  {
    assert (trace + [b])[..|trace|] == trace;
  }

  lemma {:induction false} CountAppend(a: seq<bool>, b: seq<bool>)
    ensures Count(a + b) == Count(a) + Count(b)
  {
    if b == [] {
      assert a + b == a;
    } else {
      var n := |b| - 1;
      CountAppend(a, b[..n]);
      assert a + b == (a + b[..n]) + [b[n]];
      CountSnoc(a + b[..n], b[n]);
    }
  }

  lemma CountSplit(trace: seq<bool>, a: nat, b: nat)
    requires a <= b <= |trace|
    ensures Count(trace[..b]) == Count(trace[..a]) + Count(trace[a..b])
  {
    assert trace[..b] == trace[..a] + trace[a..b];
    CountAppend(trace[..a], trace[a..b]);
  }
}
