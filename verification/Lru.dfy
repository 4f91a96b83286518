/** Least-recently-used replacement on page numbers: the bounded recency list,
    its relation to the unbounded LRU stack, inclusion and reuse distance. */
module Lru {
  import opened Pages

  /** One access with k frames. The list holds the resident pages, most recently
      used first; on a fault with all frames taken the last page is the victim. */
  function Touch(s: seq<int>, p: int, k: nat): seq<int>
    requires k >= 1
  {
    if p in s then [p] + Without(s, p)
    else if |s| < k then [p] + s
    else [p] + s[..k - 1]
  }

  /** Resident pages after the references refs, most recently used first. */
  function Residents(refs: seq<int>, k: nat): seq<int>
    requires k >= 1
  {
    if refs == [] then []
    else Touch(Residents(refs[..|refs| - 1], k), refs[|refs| - 1], k)
  }

  /** Which references fault with k frames. */
  function Trace(refs: seq<int>, k: nat): (t: seq<bool>)
    requires k >= 1
    ensures |t| == |refs|
  {
    if refs == [] then []
    else
      var n := |refs| - 1;
      Trace(refs[..n], k) + [refs[n] !in Residents(refs[..n], k)]
  }

  /** Every page ever referenced, most recently used first. */
  function Stack(refs: seq<int>): seq<int> {
    if refs == [] then []
    else
      var n := |refs| - 1;
      [refs[n]] + Without(Stack(refs[..n]), refs[n])
  }

  /** Index of the last reference to p. */
  function LastUse(refs: seq<int>, p: int): (i: nat)
    requires p in refs
    ensures i < |refs| && refs[i] == p && p !in refs[i + 1..]
  {
    var n := |refs| - 1;
    if refs[n] == p then n
    else
      assert refs == refs[..n] + [refs[n]];
      var i := LastUse(refs[..n], p);
      assert refs[i + 1..] == refs[..n][i + 1..] + [refs[n]];
      i
  }

  lemma {:induction false} StackDistinct(refs: seq<int>)
    ensures Distinct(Stack(refs))
    ensures PageSet(Stack(refs)) == PageSet(refs)
  {
    if refs != [] {
      var n := |refs| - 1;
      StackDistinct(refs[..n]);
      WithoutDistinct(Stack(refs[..n]), refs[n]);
      assert refs == refs[..n] + [refs[n]];
      PageSetSnoc(refs[..n], refs[n]);
      assert PageSet(Stack(refs)) == {refs[n]} + PageSet(Without(Stack(refs[..n]), refs[n]));
    }
  }

  /** A hit at depth j < k of the full stack is a hit at the same depth after the cut. */
  lemma HitTake(s: seq<int>, p: int, j: nat, k: nat)
    requires j < k && j < |s| && s[j] == p && p !in s[..j]
    ensures p in Take(s, k)
    ensures [p] + Without(Take(s, k), p) == Take([p] + Without(s, p), k)
  {
    var r := Take(s, k);
    assert r[..j] == s[..j];
    WithoutAt(s, p, j);
    WithoutAt(r, p, j);
    var t := [p] + (s[..j] + s[j + 1..]);
    assert t == [p] + s[..j] + s[j + 1..];
    if k < |s| {
      assert r[j + 1..] == s[j + 1..k];
      assert t[..k] == [p] + (s[..j] + s[j + 1..k]);
    }
  }

  /** A page below depth k, or in no stack at all, pushes the page at depth k - 1 out. */
  lemma MissTake(s: seq<int>, p: int, k: nat)
    requires k >= 1 && p !in Take(s, k)
    ensures Touch(Take(s, k), p, k) == Take([p] + Without(s, p), k)
  {
    if p in s {
      var j := FirstIndex(s, p);
      WithoutAt(s, p, j);
      assert s[..k][..k - 1] == s[..k - 1];
      assert ([p] + (s[..j] + s[j + 1..]))[..k] == [p] + s[..k - 1];
    } else {
      WithoutAbsent(s, p);
      if k <= |s| {
        assert Take(s, k)[..k - 1] == s[..k - 1];
        assert Take([p] + s, k) == [p] + s[..k - 1];
      }
    }
  }

  /** One access commutes with cutting the stack to k pages. */
  lemma TouchTake(s: seq<int>, p: int, k: nat)
    requires k >= 1 && Distinct(s)
    ensures Touch(Take(s, k), p, k) == Take([p] + Without(s, p), k)
  {
    if p in Take(s, k) {
      var j := FirstIndex(Take(s, k), p);
      assert s[..j] == Take(s, k)[..j];
      HitTake(s, p, j, k);
    } else {
      MissTake(s, p, k);
    }
  }

  /** The stack property: with k frames, LRU keeps exactly the k most recently
      used distinct pages. */
  lemma {:induction false} StackProperty(refs: seq<int>, k: nat)
    requires k >= 1
    ensures Residents(refs, k) == Take(Stack(refs), k)
  {
    if refs != [] {
      var n := |refs| - 1;
      StackProperty(refs[..n], k);
      StackDistinct(refs[..n]);
      TouchTake(Stack(refs[..n]), refs[n], k);
    }
  }

  /** How many pages are resident. */
  lemma ResidentCount(refs: seq<int>, k: nat)
    requires k >= 1
    ensures Distinct(Residents(refs, k))
    ensures |Residents(refs, k)| == if |PageSet(refs)| <= k then |PageSet(refs)| else k
  {
    StackProperty(refs, k);
    StackDistinct(refs);
    DistinctCard(Stack(refs));
  }

  /** Inclusion: more frames never evict a page that fewer frames would keep. */
  lemma Inclusion(refs: seq<int>, k: nat, k': nat)
    requires 1 <= k <= k'
    ensures PageSet(Residents(refs, k)) <= PageSet(Residents(refs, k'))
    ensures Residents(refs, k) <= Residents(refs, k')
  {
    StackProperty(refs, k);
    StackProperty(refs, k');
  }

  /** LRU has no Belady anomaly: every reference that faults with more frames
      also faults with fewer, so adding frames never adds faults. */
  lemma {:induction false} NoBeladyAnomaly(refs: seq<int>, k: nat, k': nat)
    requires 1 <= k <= k'
    ensures forall i :: 0 <= i < |refs| && Trace(refs, k')[i] ==> Trace(refs, k)[i]
    ensures Count(Trace(refs, k')) <= Count(Trace(refs, k))
  {
    if refs != [] {
      var n := |refs| - 1;
      NoBeladyAnomaly(refs[..n], k, k');
      Inclusion(refs[..n], k, k');
      var r, r' := Residents(refs[..n], k), Residents(refs[..n], k');
      assert refs[n] in PageSet(r) ==> refs[n] in PageSet(r');
      CountSnoc(Trace(refs[..n], k), refs[n] !in r);
      CountSnoc(Trace(refs[..n], k'), refs[n] !in r');
    }
  }

  /** Rotating x from the middle of a list to its front keeps the pages of every
      longer prefix. */
  lemma RotatedPrefix(a: seq<int>, x: int, b: seq<int>, m: nat)
    requires m <= |b|
    ensures PageSet(([x] + (a + b))[..1 + |a| + m]) == PageSet((a + [x] + b)[..1 + |a| + m])
  {
    assert ([x] + (a + b))[..1 + |a| + m] == [x] + (a + b[..m]);
    assert (a + [x] + b)[..1 + |a| + m] == a + ([x] + b[..m]);
    PageSetAppend([x], a + b[..m]);
    PageSetAppend(a, b[..m]);
    PageSetAppend(a, [x] + b[..m]);
    PageSetAppend([x], b[..m]);
  }

  /** The page at position i >= 1 after moving x to the front stood at position e
      before, and the pages above it are the old ones and x. */
  lemma PositionAfterMove(s: seq<int>, x: int, i: nat) returns (e: nat)
    requires 1 <= i < |[x] + Without(s, x)|
    ensures e < |s| && s[e] == ([x] + Without(s, x))[i]
    ensures PageSet(([x] + Without(s, x))[..i]) == PageSet(s[..e]) + {x}
  {
    if x in s {
      var j := FirstIndex(s, x);
      WithoutAt(s, x, j);
      e := if i <= j then i - 1 else i;
      PositionInRest(s, x, j, i);
    } else {
      WithoutAbsent(s, x);
      e := i - 1;
      assert ([x] + s)[..i] == [x] + s[..e];
      PageSetAppend([x], s[..e]);
    }
  }

  lemma PositionInRest(s: seq<int>, x: int, j: nat, i: nat)
    requires j < |s| && s[j] == x && 1 <= i < |s|
    ensures var moved, e := [x] + (s[..j] + s[j + 1..]), if i <= j then i - 1 else i;
            |moved| == |s| && s[e] == moved[i] && PageSet(moved[..i]) == PageSet(s[..e]) + {x}
  {
    var a, b := s[..j], s[j + 1..];
    assert s == a + [x] + b;
    if i <= j {
      assert ([x] + (a + b))[..i] == [x] + s[..i - 1];
      PageSetAppend([x], s[..i - 1]);
    } else {
      RotatedPrefix(a, x, b, i - 1 - j);
      assert s[..i][j] == x;
    }
  }

  /** A reference to another page joins the pages used since p. */
  lemma LastUseSnoc(refs: seq<int>, x: int, p: int)
    requires p in refs && p != x
    ensures LastUse(refs + [x], p) == LastUse(refs, p)
    ensures PageSet((refs + [x])[LastUse(refs, p) + 1..]) == PageSet(refs[LastUse(refs, p) + 1..]) + {x}
  {
    assert (refs + [x])[..|refs|] == refs;
    var j := LastUse(refs, p);
    assert (refs + [x])[j + 1..] == refs[j + 1..] + [x];
    PageSetSnoc(refs[j + 1..], x);
  }

  lemma BelowHead(refs: seq<int>, d: nat)
    requires 0 < d < |Stack(refs)|
    ensures Stack(refs)[d] != refs[|refs| - 1]
  {
    StackDistinct(refs);
    assert Stack(refs)[0] != Stack(refs)[d];
  }

  /** The pages above the page last used at time j are those used after j. */
  lemma {:induction false} AboveInStack(refs: seq<int>, d: nat)
    requires d < |Stack(refs)|
    ensures Stack(refs)[d] in refs
    ensures PageSet(Stack(refs)[..d]) == PageSet(refs[LastUse(refs, Stack(refs)[d]) + 1..])
  {
    hide Stack, Without, LastUse, PageSet;
    var n := |refs| - 1;
    StackLast(refs);
    var x, p, front := refs[n], Stack(refs)[d], refs[..n];
    assert refs == front + [x];
    if d == 0 {
      JustUsed(refs);
    } else {
      BelowHead(refs, d);
      var e := PositionAfterMove(Stack(front), x, d);
      AboveInStack(front, e);
      LastUseSnoc(front, x, p);
    }
  }

  lemma StackLast(refs: seq<int>)
    requires |Stack(refs)| > 0
    ensures refs != []
    ensures Stack(refs) == [refs[|refs| - 1]] + Without(Stack(refs[..|refs| - 1]), refs[|refs| - 1])
  {
  }

  lemma JustUsed(refs: seq<int>)
    requires refs != [] && |Stack(refs)| > 0
    ensures var x := refs[|refs| - 1];
            PageSet(Stack(refs)[..0]) == PageSet(refs[LastUse(refs, x) + 1..])
  {
    assert Stack(refs)[..0] == [];
  }

  /** The stack lists pages by strictly decreasing time of last use. */
  lemma StackByLastUse(refs: seq<int>, a: nat, b: nat)
    requires a < b < |Stack(refs)|
    ensures Stack(refs)[a] in refs && Stack(refs)[b] in refs
    ensures LastUse(refs, Stack(refs)[a]) > LastUse(refs, Stack(refs)[b])
  {
    AboveInStack(refs, a);
    AboveInStack(refs, b);
    var p, j := Stack(refs)[a], LastUse(refs, Stack(refs)[b]);
    assert p in PageSet(Stack(refs)[..b]);
    assert p in refs[j + 1..];
  }

  /** Reuse distance: an access is a hit exactly when its page was used before and
      fewer than k distinct pages were used since. */
  lemma HitIffReuseDistance(refs: seq<int>, p: int, k: nat)
    requires k >= 1
    ensures p in Residents(refs, k) <==> p in refs && |PageSet(refs[LastUse(refs, p) + 1..])| < k
  {
    StackProperty(refs, k);
    StackDistinct(refs);
    if p in refs {
      assert p in PageSet(Stack(refs));
      var d := FirstIndex(Stack(refs), p);
      AboveInStack(refs, d);
      DistinctCard(Stack(refs)[..d]);
    } else {
      assert p !in PageSet(Stack(refs));
    }
  }

  /** Moving x to the front changes the set of the first m pages by at most x. */
  lemma FrontAfterMove(s: seq<int>, x: int, m: nat)
    requires Distinct(s) && m <= |s|
    ensures var t := [x] + Without(s, x);
            if x in s[..m] then m <= |t| && PageSet(t[..m]) == PageSet(s[..m])
            else m < |t| && PageSet(t[..m + 1]) == PageSet(s[..m]) + {x}
  {
    hide PageSet;
    if x in s {
      var j := FirstIndex(s, x);
      WithoutAt(s, x, j);
      if j < m {
        assert s[..m][j] == x;
        RotatedPrefix(s[..j], x, s[j + 1..], m - 1 - j);
        assert s == s[..j] + [x] + s[j + 1..];
      } else {
        assert x !in s[..m];
        assert ([x] + (s[..j] + s[j + 1..]))[..m + 1] == [x] + s[..m];
        PageSetAppend([x], s[..m]);
        JustOne(x);
      }
    } else {
      WithoutAbsent(s, x);
      assert ([x] + s)[..m + 1] == [x] + s[..m];
      PageSetAppend([x], s[..m]);
      JustOne(x);
    }
  }

  lemma JustOne(x: int)
    ensures PageSet([x]) == {x}
  {
  }

  /** The first pages of the stack are the pages of any window ending now. */
  lemma {:induction false} WindowOnTop(refs: seq<int>, a: nat)
    requires a <= |refs|
    ensures |PageSet(refs[a..])| <= |Stack(refs)|
    ensures PageSet(Stack(refs)[..|PageSet(refs[a..])|]) == PageSet(refs[a..])
  {
    var n := |refs| - 1;
    if a <= n {
      var x, s, window := refs[n], Stack(refs[..n]), refs[..n][a..];
      WindowOnTop(refs[..n], a);
      StackDistinct(refs[..n]);
      assert refs[a..] == window + [x];
      PageSetSnoc(window, x);
      var m := |PageSet(window)|;
      FrontAfterMove(s, x, m);
      assert x in s[..m] <==> x in PageSet(s[..m]);
      if x in window {
        assert PageSet(refs[a..]) == PageSet(window);
      }
    }
  }

  lemma {:induction false} TraceAt(refs: seq<int>, k: nat, n: nat)
    requires k >= 1 && n < |refs|
    ensures Trace(refs, k)[n] <==> refs[n] !in Residents(refs[..n], k)
  {
    var m := |refs| - 1;
    if n < m {
      TraceAt(refs[..m], k, n);
      assert refs[..m][..n] == refs[..n];
    }
  }

  /** Every page of a window ending now with at most k distinct pages is resident. */
  lemma WindowResident(refs: seq<int>, k: nat, a: nat, p: int)
    requires k >= 1 && a <= |refs| && |PageSet(refs[a..])| <= k
    requires p in refs[a..]
    ensures p in Residents(refs, k)
  {
    WindowOnTop(refs, a);
    StackProperty(refs, k);
    assert p in PageSet(Stack(refs)[..|PageSet(refs[a..])|]);
  }

  /** Reference n repeats a page used since reference a. */
  predicate Repeats(refs: seq<int>, a: nat, n: nat)
    requires a <= n < |refs|
  {
    refs[n] in refs[a..n]
  }

  /** No page of the window faults twice. */
  ghost predicate NoneTwice(refs: seq<int>, t: seq<bool>, a: nat, b: nat)
    requires |t| == |refs| && a <= b <= |refs|
  {
    forall n {:trigger Repeats(refs, a, n)} :: a <= n < b && Repeats(refs, a, n) ==> !t[n]
  }

  /** If no page of the window faults twice, faults are bounded by distinct pages. */
  lemma {:induction false} OncePerPage(refs: seq<int>, t: seq<bool>, a: nat, b: nat)
    requires |t| == |refs| && a <= b <= |refs| && NoneTwice(refs, t, a, b)
    ensures Count(t[a..b]) <= |PageSet(refs[a..b])|
  {
    hide Count, PageSet, NoneTwice, Repeats;
    if a == b {
      EmptyWindow(t[a..b]);
    } else {
      var n := b - 1;
      NoneTwiceFront(refs, t, a, n);
      OncePerPage(refs, t, a, n);
      InWindow(refs, a, n);
      AddPage(PageSet(refs[a..n]), refs[n]);
      assert t[a..b] == t[a..n] + [t[n]];
      CountSnoc(t[a..n], t[n]);
    }
  }

  lemma EmptyWindow(t: seq<bool>)
    requires t == []
    ensures Count(t) == 0
  {
  }

  lemma NoneTwiceFront(refs: seq<int>, t: seq<bool>, a: nat, n: nat)
    requires |t| == |refs| && a <= n < |refs| && NoneTwice(refs, t, a, n + 1)
    ensures NoneTwice(refs, t, a, n) && (Repeats(refs, a, n) ==> !t[n])
  {
    hide Repeats;
  }

  lemma InWindow(refs: seq<int>, a: nat, n: nat)
    requires a <= n < |refs|
    ensures Repeats(refs, a, n) <==> refs[n] in PageSet(refs[a..n])
    ensures PageSet(refs[a..n + 1]) == PageSet(refs[a..n]) + {refs[n]}
  {
    assert refs[a..n + 1] == refs[a..n] + [refs[n]];
    PageSetSnoc(refs[a..n], refs[n]);
  }

  /** A window with at most k distinct pages faults at most once on each of them. */
  lemma WindowFaults(refs: seq<int>, k: nat, a: nat, b: nat)
    requires k >= 1 && a <= b <= |refs|
    requires |PageSet(refs[a..b])| <= k
    ensures Count(Trace(refs, k)[a..b]) <= |PageSet(refs[a..b])|
  {
    var t := Trace(refs, k);
    forall n | a <= n < b && Repeats(refs, a, n)
      ensures !t[n]
    {
      assert refs[a..b] == refs[a..n] + refs[n..b];
      PageSetAppend(refs[a..n], refs[n..b]);
      SubsetCard(PageSet(refs[a..n]), PageSet(refs[a..b]));
      assert refs[..n][a..] == refs[a..n];
      WindowResident(refs[..n], k, a, refs[n]);
      TraceAt(refs, k, n);
    }
    assert NoneTwice(refs, t, a, b);
    OncePerPage(refs, t, a, b);
  }
}
