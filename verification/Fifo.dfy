/** First-in first-out replacement on page numbers: the load queue and its bounds. */
module Fifo {
  import opened Pages

  /** One access with k frames. The queue holds the resident pages, oldest load first. */
  function Load(q: seq<int>, p: int, k: nat): seq<int>
    requires k >= 1
  {
    if p in q then q
    else if |q| < k then q + [p]
    else q[1..] + [p]
  }

  /** Resident pages after the references refs, in load order. */
  function Queue(refs: seq<int>, k: nat): seq<int>
    requires k >= 1
  {
    if refs == [] then []
    else Load(Queue(refs[..|refs| - 1], k), refs[|refs| - 1], k)
  }

  /** Which references fault with k frames. */
  function Trace(refs: seq<int>, k: nat): (t: seq<bool>)
    requires k >= 1
    ensures |t| == |refs|
  {
    if refs == [] then []
    else
      var n := |refs| - 1;
      Trace(refs[..n], k) + [refs[n] !in Queue(refs[..n], k)]
  }

  /** The references a trace marks as faults: the pages loaded, in load order. */
  function Loaded(refs: seq<int>, trace: seq<bool>): seq<int>
    requires |refs| == |trace|
  {
    if refs == [] then []
    else
      var n := |refs| - 1;
      Loaded(refs[..n], trace[..n]) + (if trace[n] then [refs[n]] else [])
  }

  lemma {:induction false} QueueDistinct(refs: seq<int>, k: nat)
    requires k >= 1
    ensures Distinct(Queue(refs, k)) && |Queue(refs, k)| <= k
  {
    if refs != [] {
      QueueDistinct(refs[..|refs| - 1], k);
    }
  }

  /** The queue is short of k pages exactly as long as fewer than k pages were used. */
  lemma {:induction false} NotFull(refs: seq<int>, k: nat)
    requires k >= 1
    ensures |Queue(refs, k)| < k <==> |PageSet(refs)| < k
    ensures PageSet(Queue(refs, k)) <= PageSet(refs)
    ensures |Queue(refs, k)| < k ==> PageSet(Queue(refs, k)) == PageSet(refs)
  {
    if refs != [] {
      hide PageSet, Queue;
      var front, x := refs[..|refs| - 1], refs[|refs| - 1];
      NotFull(front, k);
      QueueLast(refs, k);
      QueueDistinct(front, k);
      QueueDistinct(refs, k);
      PageSetSnoc(front, x);
      assert refs == front + [x];
      LoadedPages(Queue(front, k), x, k);
      DistinctCard(Queue(refs, k));
      SubsetCard(PageSet(Queue(refs, k)), PageSet(refs));
      SubsetCard(PageSet(front), PageSet(refs));
    }
  }

  lemma QueueLast(refs: seq<int>, k: nat)
    requires k >= 1 && refs != []
    ensures Queue(refs, k) == Load(Queue(refs[..|refs| - 1], k), refs[|refs| - 1], k)
  {
  }

  lemma LoadedPages(q: seq<int>, x: int, k: nat)
    requires k >= 1
    ensures PageSet(Load(q, x, k)) <= PageSet(q) + {x}
    ensures |q| < k ==> PageSet(Load(q, x, k)) == PageSet(q) + {x}
    ensures |q| == k ==> |Load(q, x, k)| == k
  {
    if x !in q {
      PageSetSnoc(q, x);
    }
  }

  /** The resident pages are exactly the last min(k, faults) pages loaded. */
  lemma {:induction false} QueueIsLastLoads(refs: seq<int>, k: nat)
    requires k >= 1
    ensures var loads := Loaded(refs, Trace(refs, k));
            && |loads| == Count(Trace(refs, k))
            && |Queue(refs, k)| == (if |loads| <= k then |loads| else k)
            && Queue(refs, k) == loads[|loads| - |Queue(refs, k)|..]
  {
    if refs != [] {
      var n := |refs| - 1;
      QueueIsLastLoads(refs[..n], k);
      var t := Trace(refs[..n], k);
      var fault := refs[n] !in Queue(refs[..n], k);
      assert (t + [fault])[..n] == t;
      CountSnoc(t, fault);
    }
  }

  lemma {:induction false} TraceAt(refs: seq<int>, k: nat, n: nat)
    requires k >= 1 && n < |refs|
    ensures Trace(refs, k)[n] <==> refs[n] !in Queue(refs[..n], k)
  {
    var m := |refs| - 1;
    if n < m {
      TraceAt(refs[..m], k, n);
      assert refs[..m][..n] == refs[..n];
    }
  }

  /** The f youngest pages of q. */
  function Youngest(q: seq<int>, f: nat): seq<int>
    requires f <= |q|
  {
    q[|q| - f..]
  }

  /** One access, seen by the f youngest pages, all from the window. */
  lemma YoungestAfterLoad(q: seq<int>, p: int, k: nat, f: nat, window: set<int>)
    requires k >= 1 && Distinct(q) && f <= |q| <= k
    requires PageSet(Youngest(q, f)) <= window && |window + {p}| <= k
    ensures var f' := if p in q then f else f + 1;
            && f' <= |Load(q, p, k)|
            && PageSet(Youngest(Load(q, p, k), f')) <= window + {p}
  {
    if p !in q {
      if |q| < k {
        assert Youngest(q + [p], f + 1) == Youngest(q, f) + [p];
      } else {
        if f == k {
          assert Youngest(q, f) == q;
          DistinctCard(q);
          assert p !in PageSet(q);
          SubsetCard(PageSet(q) + {p}, window + {p});
          assert false;
        }
        assert Youngest(q[1..] + [p], f + 1) == Youngest(q, f) + [p];
      }
    }
  }

  /** The faults of the window a..b loaded the youngest resident pages. */
  ghost predicate FaultsAreYoungest(refs: seq<int>, k: nat, a: nat, b: nat)
    requires k >= 1 && a <= b <= |refs|
  {
    var q, f := Queue(refs[..b], k), Count(Trace(refs, k)[a..b]);
    f <= |q| && PageSet(Youngest(q, f)) <= PageSet(refs[a..b])
  }

  lemma QueueSnoc(refs: seq<int>, k: nat, n: nat)
    requires k >= 1 && n < |refs|
    ensures Queue(refs[..n + 1], k) == Load(Queue(refs[..n], k), refs[n], k)
  {
    assert refs[..n + 1][..n] == refs[..n];
  }

  lemma TraceWindowSnoc(refs: seq<int>, k: nat, a: nat, n: nat)
    requires k >= 1 && a <= n < |refs|
    ensures var t := Trace(refs, k);
            Count(t[a..n + 1]) == Count(t[a..n]) + (if refs[n] in Queue(refs[..n], k) then 0 else 1)
  {
    var t := Trace(refs, k);
    assert t[a..n + 1] == t[a..n] + [t[n]];
    CountSnoc(t[a..n], t[n]);
    TraceAt(refs, k, n);
  }

  lemma {:induction false} YoungestInWindow(refs: seq<int>, k: nat, a: nat, b: nat)
    requires k >= 1 && a <= b <= |refs|
    requires |PageSet(refs[a..b])| <= k
    ensures FaultsAreYoungest(refs, k, a, b)
  {
    if a < b {
      var n := b - 1;
      var x, window, q := refs[n], PageSet(refs[a..n]), Queue(refs[..n], k);
      assert PageSet(refs[a..b]) == window + {x} by {
        assert refs[a..b] == refs[a..n] + [x];
        PageSetSnoc(refs[a..n], x);
      }
      SubsetCard(window, window + {x});
      YoungestInWindow(refs, k, a, n);
      QueueDistinct(refs[..n], k);
      QueueSnoc(refs, k, n);
      TraceWindowSnoc(refs, k, a, n);
      YoungestAfterLoad(q, x, k, Count(Trace(refs, k)[a..n]), window);
    }
  }

  /** A window with at most k distinct pages faults at most once on each of them. */
  lemma WindowFaults(refs: seq<int>, k: nat, a: nat, b: nat)
    requires k >= 1 && a <= b <= |refs|
    requires |PageSet(refs[a..b])| <= k
    ensures Count(Trace(refs, k)[a..b]) <= |PageSet(refs[a..b])|
  {
    YoungestInWindow(refs, k, a, b);
    QueueDistinct(refs[..b], k);
    var young := Youngest(Queue(refs[..b], k), Count(Trace(refs, k)[a..b]));
    DistinctCard(young);
    SubsetCard(PageSet(young), PageSet(refs[a..b]));
  }
}
