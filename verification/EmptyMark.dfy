/** What the simulator makes of references to the page number that marks an empty frame. */
module EmptyMark {
  import opened Pages
  import Fifo
  import Lru

  const EMPTY := -1

  /** A reference that finds its page number in an empty frame. */
  ghost predicate Skipped(pages: seq<int>, x: int, k: nat) {
    x == EMPTY && |PageSet(pages)| < k
  }

  /** The references that reach the replacement algorithm. */
  ghost function Effective(pages: seq<int>, k: nat): seq<int> {
    if pages == [] then []
    else
      var front, x := Effective(pages[..|pages| - 1], k), pages[|pages| - 1];
      if Skipped(front, x, k) then front else front + [x]
  }

  /** Which references fault in the simulator's FIFO and LRU loops. */
  ghost function FifoFaults(pages: seq<int>, k: nat): (t: seq<bool>)
    requires k >= 1
    ensures |t| == |pages|
  {
    if pages == [] then []
    else
      var n := |pages| - 1;
      var before := Effective(pages[..n], k);
      FifoFaults(pages[..n], k) + [!Skipped(before, pages[n], k) && pages[n] !in Fifo.Queue(before, k)]
  }

  ghost function LruFaults(pages: seq<int>, k: nat): (t: seq<bool>)
    requires k >= 1
    ensures |t| == |pages|
  {
    if pages == [] then []
    else
      var n := |pages| - 1;
      var before := Effective(pages[..n], k);
      LruFaults(pages[..n], k) + [!Skipped(before, pages[n], k) && pages[n] !in Lru.Residents(before, k)]
  }

  lemma {:induction false} EffectiveSnoc(front: seq<int>, x: int, k: nat)
    requires k >= 1
    ensures var before := Effective(front, k);
            && Effective(front + [x], k) == (if Skipped(before, x, k) then before else before + [x])
            && FifoFaults(front + [x], k)
                 == FifoFaults(front, k) + [!Skipped(before, x, k) && x !in Fifo.Queue(before, k)]
            && LruFaults(front + [x], k)
                 == LruFaults(front, k) + [!Skipped(before, x, k) && x !in Lru.Residents(before, k)]
  {
    hide Skipped;
    assert (front + [x])[..|front|] == front;
  }

  /** While fewer than k pages have come through, the mark has not. */
  lemma {:induction false} MarkWaits(pages: seq<int>, k: nat)
    requires |PageSet(Effective(pages, k))| < k
    ensures EMPTY !in Effective(pages, k)
  {
    if pages != [] {
      hide PageSet;
      var front, x := Effective(pages[..|pages| - 1], k), pages[|pages| - 1];
      PageSetSnoc(front, x);
      SubsetCard(PageSet(front), PageSet(front) + {x});
      MarkWaits(pages[..|pages| - 1], k);
    }
  }

  /** Every reference to the mark comes after at least k distinct pages. */
  ghost predicate MarkAfterFull(pages: seq<int>, k: nat) {
    forall i :: 0 <= i < |pages| ==> MarkFits(pages, k, i)
  }

  ghost predicate MarkFits(pages: seq<int>, k: nat, i: nat)
    requires i < |pages|
  {
    pages[i] == EMPTY ==> |PageSet(pages[..i])| >= k
  }

  lemma MarkAfterFullSnoc(front: seq<int>, x: int, k: nat)
    ensures MarkAfterFull(front + [x], k) <==>
              MarkAfterFull(front, k) && (x == EMPTY ==> |PageSet(front)| >= k)
  {
    hide PageSet;
    var pages := front + [x];
    assert pages[..|front|] == front;
    forall i | 0 <= i < |front| ensures MarkFits(pages, k, i) <==> MarkFits(front, k, i) {
      assert pages[..i] == front[..i];
    }
    assert MarkFits(pages, k, |front|) <==> (x == EMPTY ==> |PageSet(front)| >= k);
    if MarkAfterFull(pages, k) {
      forall i | 0 <= i < |front| ensures MarkFits(front, k, i) {
        assert MarkFits(pages, k, i);
      }
    }
  }

  /** Then all references reach the algorithm. */
  lemma {:induction false} AllEffective(pages: seq<int>, k: nat)
    requires k >= 1 && MarkAfterFull(pages, k)
    ensures Effective(pages, k) == pages
  {
    if pages != [] {
      hide MarkAfterFull, PageSet;
      var front, x := pages[..|pages| - 1], pages[|pages| - 1];
      assert pages == front + [x];
      MarkAfterFullSnoc(front, x, k);
      AllEffective(front, k);
    }
  }

  lemma {:induction false} FifoTraceSnoc(front: seq<int>, x: int, k: nat)
    requires k >= 1
    ensures Fifo.Trace(front + [x], k) == Fifo.Trace(front, k) + [x !in Fifo.Queue(front, k)]
  {
    assert (front + [x])[..|front|] == front;
  }

  lemma {:induction false} LruTraceSnoc(front: seq<int>, x: int, k: nat)
    requires k >= 1
    ensures Lru.Trace(front + [x], k) == Lru.Trace(front, k) + [x !in Lru.Residents(front, k)]
  {
    assert (front + [x])[..|front|] == front;
  }

  lemma SameSnoc(s: seq<bool>, t: seq<bool>, a: bool, b: bool)
    requires |s| == |t|
    ensures s + [a] == t + [b] <==> s == t && a == b
  {
    var n := |s|;
    assert (s + [a])[..n] == s && (t + [b])[..n] == t && (s + [a])[n] == a && (t + [b])[n] == b;
  }

  /** Only pages that were used are resident. */
  lemma ResidentUsed(refs: seq<int>, k: nat, p: int)
    requires k >= 1 && p !in refs
    ensures p !in Fifo.Queue(refs, k) && p !in Lru.Residents(refs, k)
  {
    hide Fifo.Queue, Lru.Residents, Lru.Stack;
    Fifo.NotFull(refs, k);
    assert p !in PageSet(refs);
    Lru.StackProperty(refs, k);
    Lru.StackDistinct(refs);
    NotInStack(refs, p);
  }

  /** The FIFO loop faults as FIFO on the page numbers does, exactly when the mark comes only
      after k distinct pages. */
  lemma {:induction false} FifoExactly(pages: seq<int>, k: nat)
    requires k >= 1
    ensures FifoFaults(pages, k) == Fifo.Trace(pages, k) <==> MarkAfterFull(pages, k)
  {
    hide Effective, FifoFaults, MarkAfterFull, PageSet, Fifo.Queue, Fifo.Trace;
    if pages == [] {
      NoMarks(k);
    } else {
      var front, x := pages[..|pages| - 1], pages[|pages| - 1];
      assert pages == front + [x];
      FifoExactly(front, k);
      MarkAfterFullSnoc(front, x, k);
      EffectiveSnoc(front, x, k);
      FifoTraceSnoc(front, x, k);
      var before := Effective(front, k);
      SameSnoc(FifoFaults(front, k), Fifo.Trace(front, k),
               !Skipped(before, x, k) && x !in Fifo.Queue(before, k), x !in Fifo.Queue(front, k));
      if MarkAfterFull(front, k) {
        AllEffective(front, k);
        if Skipped(front, x, k) {
          MarkWaits(front, k);
          ResidentUsed(front, k, x);
        }
      }
    }
  }

  lemma NoMarks(k: nat)
    requires k >= 1
    ensures MarkAfterFull([], k) && FifoFaults([], k) == [] == Fifo.Trace([], k)
    ensures LruFaults([], k) == [] == Lru.Trace([], k)
  {
  }

  /** The same for LRU. */
  lemma {:induction false} LruExactly(pages: seq<int>, k: nat)
    requires k >= 1
    ensures LruFaults(pages, k) == Lru.Trace(pages, k) <==> MarkAfterFull(pages, k)
  {
    hide Effective, LruFaults, MarkAfterFull, PageSet, Lru.Residents, Lru.Trace;
    if pages == [] {
      NoMarks(k);
    } else {
      var front, x := pages[..|pages| - 1], pages[|pages| - 1];
      assert pages == front + [x];
      LruExactly(front, k);
      MarkAfterFullSnoc(front, x, k);
      EffectiveSnoc(front, x, k);
      LruTraceSnoc(front, x, k);
      var before := Effective(front, k);
      SameSnoc(LruFaults(front, k), Lru.Trace(front, k),
               !Skipped(before, x, k) && x !in Lru.Residents(before, k), x !in Lru.Residents(front, k));
      if MarkAfterFull(front, k) {
        AllEffective(front, k);
        if Skipped(front, x, k) {
          MarkWaits(front, k);
          ResidentUsed(front, k, x);
        }
      }
    }
  }

  // ----- Recency among all references -----

  ghost predicate UsedLater(pages: seq<int>, x: int, y: int) {
    x in pages && y in pages && Lru.LastUse(pages, x) > Lru.LastUse(pages, y)
  }

  /** The list is ordered by last use in the references, latest first. */
  ghost predicate ByRecency(pages: seq<int>, s: seq<int>) {
    && (forall a :: 0 <= a < |s| ==> s[a] in pages)
    && forall a, b :: 0 <= a < b < |s| ==> UsedLater(pages, s[a], s[b])
  }

  lemma UsedNow(pages: seq<int>, x: int)
    ensures x in pages + [x] && Lru.LastUse(pages + [x], x) == |pages|
  {
  }

  lemma UsedLaterKept(pages: seq<int>, x: int, y: int, z: int)
    requires UsedLater(pages, y, z) && x != y && x != z
    ensures UsedLater(pages + [x], y, z)
  {
    hide Lru.LastUse;
    Lru.LastUseSnoc(pages, x, y);
    Lru.LastUseSnoc(pages, x, z);
  }

  lemma ByRecencySkip(pages: seq<int>, s: seq<int>, x: int)
    requires ByRecency(pages, s) && x !in s
    ensures ByRecency(pages + [x], s)
  {
    hide UsedLater;
    forall a, b | 0 <= a < b < |s| ensures UsedLater(pages + [x], s[a], s[b]) {
      UsedLaterKept(pages, x, s[a], s[b]);
    }
  }

  lemma ByRecencyWithout(pages: seq<int>, s: seq<int>, x: int)
    requires ByRecency(pages, s)
    ensures ByRecency(pages, Without(s, x))
  {
    hide UsedLater;
    if x in s {
      var j := FirstIndex(s, x);
      WithoutAt(s, x, j);
      var t := s[..j] + s[j + 1..];
      assert forall a :: 0 <= a < |t| ==> t[a] == s[if a < j then a else a + 1];
    } else {
      WithoutAbsent(s, x);
    }
  }

  lemma ByRecencyFront(pages: seq<int>, s: seq<int>, x: int)
    requires ByRecency(pages + [x], s) && x !in s
    ensures ByRecency(pages + [x], [x] + s)
  {
    var t := [x] + s;
    UsedNow(pages, x);
    forall a, b | 0 <= a < b < |t| ensures UsedLater(pages + [x], t[a], t[b]) {
      if a == 0 {
        assert t[b] == s[b - 1];
      } else {
        assert UsedLater(pages + [x], s[a - 1], s[b - 1]);
      }
    }
  }

  /** LRU's list of the references that reach it is ordered by last use among all references. */
  lemma {:induction false} RecencyKept(pages: seq<int>, k: nat)
    requires k >= 1
    ensures ByRecency(pages, Lru.Stack(Effective(pages, k)))
  {
    if pages != [] {
      hide Effective, Lru.Stack, ByRecency, PageSet, Without;
      var front, x := pages[..|pages| - 1], pages[|pages| - 1];
      assert pages == front + [x];
      RecencyKept(front, k);
      EffectiveSnoc(front, x, k);
      var eff := Effective(front, k);
      Lru.StackDistinct(eff);
      if Skipped(eff, x, k) {
        MarkWaits(front, k);
        NotInStack(eff, x);
        ByRecencySkip(front, Lru.Stack(eff), x);
      } else {
        StackSnoc(eff, x);
        WithoutDistinct(Lru.Stack(eff), x);
        ByRecencyWithout(front, Lru.Stack(eff), x);
        ByRecencySkip(front, Without(Lru.Stack(eff), x), x);
        ByRecencyFront(front, Without(Lru.Stack(eff), x), x);
      }
    }
  }

  lemma NotInStack(refs: seq<int>, x: int)
    requires x !in refs && PageSet(Lru.Stack(refs)) == PageSet(refs)
    ensures x !in Lru.Stack(refs)
  {
    hide Lru.Stack;
    assert x !in PageSet(Lru.Stack(refs));
  }

  lemma StackSnoc(refs: seq<int>, x: int)
    ensures Lru.Stack(refs + [x]) == [x] + Without(Lru.Stack(refs), x)
  {
    assert (refs + [x])[..|refs|] == refs;
  }

  /** One reference to the mark, into one empty frame: no fault, although its page was never
      loaded. */
  lemma FalseHit()
    ensures FifoFaults([EMPTY], 1) == [false] && Fifo.Trace([EMPTY], 1) == [true]
    ensures LruFaults([EMPTY], 1) == [false] && Lru.Trace([EMPTY], 1) == [true]
  {
    EffectiveSnoc([], EMPTY, 1);
    FifoTraceSnoc([], EMPTY, 1);
    LruTraceSnoc([], EMPTY, 1);
    assert [] + [EMPTY] == [EMPTY] && PageSet([]) == {};
  }
}
