/** LRU and FIFO against any replacement schedule whatever, on the same references. */
module Competitive {
  import opened Pages
  import Lru
  import Fifo

  /** caches[i] is what some schedule on h frames holds before reference i. It starts
      empty, brings in only the page referenced, and may evict what it likes. */
  ghost predicate Schedule(refs: seq<int>, caches: seq<set<int>>, h: nat) {
    && |caches| == |refs| + 1
    && caches[0] == {}
    && forall i :: 0 <= i < |refs| ==> ServesAt(refs, caches, i, h)
  }

  ghost predicate ServesAt(refs: seq<int>, caches: seq<set<int>>, i: nat, h: nat)
    requires i < |refs| && |caches| == |refs| + 1
  {
    Serves(refs[i], caches[i], caches[i + 1], h)
  }

  ghost predicate Serves(p: int, before: set<int>, after: set<int>, h: nat) {
    p in after && after <= before + {p} && |after| <= h
  }

  /** Faults of a schedule on the first n references. */
  ghost function Cost(refs: seq<int>, caches: seq<set<int>>, n: nat): nat
    requires n <= |refs| < |caches|
  {
    if n == 0 then 0
    else Cost(refs, caches, n - 1) + (if refs[n - 1] in caches[n - 1] then 0 else 1)
  }

  /** A trace is conservative when a window with at most k distinct pages has at most
      one fault for each of them. */
  ghost predicate Conservative(refs: seq<int>, trace: seq<bool>, k: nat) {
    && |trace| == |refs|
    && forall a, b :: 0 <= a <= b <= |refs| ==> WindowBound(refs, trace, k, a, b)
  }

  ghost predicate WindowBound(refs: seq<int>, trace: seq<bool>, k: nat, a: nat, b: nat)
    requires a <= b <= |refs| == |trace|
  {
    |PageSet(refs[a..b])| <= k ==> Count(trace[a..b]) <= |PageSet(refs[a..b])|
  }

  /** Cutting the references greedily into phases of at most k distinct pages:
      complete phases so far, where the current one starts, and its pages. */
  datatype Phase = Phase(complete: nat, start: nat, pages: set<int>)

  ghost function PhaseAt(refs: seq<int>, k: nat, n: nat): Phase
    requires n <= |refs|
  {
    if n == 0 then Phase(0, 0, {}) else NextPhase(PhaseAt(refs, k, n - 1), refs[n - 1], k, n - 1)
  }

  ghost function NextPhase(ph: Phase, p: int, k: nat, n: nat): Phase {
    if |ph.pages + {p}| <= k then ph.(pages := ph.pages + {p}) else Phase(ph.complete + 1, n, {p})
  }

  lemma {:induction false} PhaseBounds(refs: seq<int>, k: nat, n: nat)
    requires k >= 1 && n <= |refs|
    ensures var ph := PhaseAt(refs, k, n);
            |ph.pages| <= k && ph.start <= n && (ph.complete > 0 ==> ph.start < n)
  {
    if n > 0 {
      PhaseBounds(refs, k, n - 1);
    }
  }

  lemma PhaseStep(refs: seq<int>, k: nat, n: nat)
    requires 0 < n <= |refs|
    ensures PhaseAt(refs, k, n) == NextPhase(PhaseAt(refs, k, n - 1), refs[n - 1], k, n - 1)
  {
    hide NextPhase;
  }

  lemma {:induction false} PhasePages(refs: seq<int>, k: nat, n: nat)
    requires k >= 1 && n <= |refs|
    ensures PhaseAt(refs, k, n).start <= n
    ensures PhaseAt(refs, k, n).pages == PageSet(refs[PhaseAt(refs, k, n).start..n])
  {
    hide PageSet, NextPhase;
    if n == 0 {
      NoPages(refs[0..0]);
    } else {
      PhasePages(refs, k, n - 1);
      PhaseStep(refs, k, n);
      hide PhaseAt;
      PagesStep(refs, PhaseAt(refs, k, n - 1), k, n - 1);
    }
  }

  lemma NoPages(s: seq<int>)
    requires s == []
    ensures PageSet(s) == {}
  {
  }

  /** One reference added to a phase, or beginning the next. */
  lemma PagesStep(refs: seq<int>, ph: Phase, k: nat, n: nat)
    requires n < |refs| && ph.start <= n && ph.pages == PageSet(refs[ph.start..n])
    ensures var next := NextPhase(ph, refs[n], k, n);
            next.start <= n + 1 && next.pages == PageSet(refs[next.start..n + 1])
  {
    var p, m := refs[n], n + 1;
    PageSetSnoc(refs[ph.start..n], p);
    assert refs[ph.start..m] == refs[ph.start..n] + [p];
    OnePage(p);
    assert refs[n..m] == [p];
    hide PageSet;
  }

  lemma OnePage(p: int)
    ensures PageSet([p]) == {p}
  {
  }

  /** Faults of a conservative algorithm: k for each phase before the current one, and
      one for each page of the current one. */
  lemma {:induction false} PhaseUpper(refs: seq<int>, trace: seq<bool>, k: nat, n: nat)
    requires k >= 1 && n <= |refs| && Conservative(refs, trace, k)
    ensures var ph := PhaseAt(refs, k, n);
            && ph.start <= n
            && Count(trace[..ph.start]) <= ph.complete * k
            && Count(trace[..n]) <= ph.complete * k + |ph.pages|
  {
    hide PhaseAt, NextPhase, PageSet, Count;
    if n == 0 {
      NoFaultsYet(refs, trace, k);
    } else {
      PhaseUpper(refs, trace, k, n - 1);
      PhaseStep(refs, k, n);
      PhaseBounds(refs, k, n - 1);
      StartStep(trace, PhaseAt(refs, k, n - 1), refs[n - 1], k, n - 1);
    }
    var start := PhaseAt(refs, k, n).start;
    PhaseBounds(refs, k, n);
    PhasePages(refs, k, n);
    CountSplit(trace, start, n);
    assert WindowBound(refs, trace, k, start, n);
  }

  lemma NoFaultsYet(refs: seq<int>, trace: seq<bool>, k: nat)
    ensures PhaseAt(refs, k, 0) == Phase(0, 0, {}) && Count(trace[..0]) == 0
  {
  }

  /** Faults before the phase that one more reference leaves current. */
  lemma StartStep(trace: seq<bool>, ph: Phase, p: int, k: nat, n: nat)
    requires n < |trace| && ph.start <= n && |ph.pages| <= k
    requires Count(trace[..ph.start]) <= ph.complete * k
    requires Count(trace[..n]) <= ph.complete * k + |ph.pages|
    ensures var next := NextPhase(ph, p, k, n);
            next.start <= n + 1 && Count(trace[..next.start]) <= next.complete * k
  {
    hide Count;
    assert (ph.complete + 1) * k == ph.complete * k + k;
  }

  /** Least cost of the complete phases: k faults in all for the first phase and the
      reference after it, then k - h + 1 for each further phase. */
  ghost function PhaseCost(complete: nat, k: nat, h: nat): nat
    requires h <= k
  {
    if complete == 0 then 0
    else PhaseCost(complete - 1, k, h) + (if complete == 1 then k + 1 else k - h + 1)
  }

  lemma {:induction false} PhaseCostClosed(m: nat, k: nat, h: nat)
    requires h <= k && m > 0
    ensures PhaseCost(m, k, h) == m * (k - h + 1) + h
  {
    if m > 1 {
      PhaseCostClosed(m - 1, k, h);
      assert m * (k - h + 1) == (m - 1) * (k - h + 1) + (k - h + 1);
    }
  }

  /** What the schedule held just after the current phase began. */
  ghost function Kept(refs: seq<int>, caches: seq<set<int>>, k: nat, n: nat): set<int>
    requires k >= 1 && n <= |refs| < |caches|
  {
    PhaseBounds(refs, k, n);
    var ph := PhaseAt(refs, k, n);
    if ph.complete == 0 then {} else caches[ph.start + 1]
  }

  lemma DifferenceCard(a: set<int>, b: set<int>)
    ensures |a - b| >= |a| - |b|
  {
    assert a == (a - b) + (a * b);
    SubsetCard(a * b, b);
  }

  /** One reference inside a phase: a page new to both sets is a fault. */
  lemma NewPageFaults(d: set<int>, kept: set<int>, p: int, cache: set<int>)
    requires cache <= kept + d
    ensures |(d + {p}) - kept| <= |d - kept| + (if p in cache then 0 else 1)
  {
    if p in d || p in kept {
      assert (d + {p}) - kept == d - kept;
    } else {
      assert (d + {p}) - kept == (d - kept) + {p};
    }
  }

  ghost predicate LowerBound(refs: seq<int>, caches: seq<set<int>>, k: nat, h: nat, n: nat)
    requires 1 <= h <= k && n <= |refs| < |caches|
  {
    var ph, kept := PhaseAt(refs, k, n), Kept(refs, caches, k, n);
    && |kept| <= h && caches[n] <= kept + ph.pages
    && Cost(refs, caches, n) >= PhaseCost(ph.complete, k, h) + |ph.pages - kept|
  }

  /** A full phase and the first page of the next cost k - h + 1 more faults. */
  lemma NextPhaseCost(m: nat, k: nat, h: nat, kept: set<int>, full: set<int>)
    requires h <= k && |full| == k + 1 && |kept| <= h && (m == 0 ==> kept == {})
    ensures PhaseCost(m + 1, k, h) <= PhaseCost(m, k, h) + |full - kept|
  {
    DifferenceCard(full, kept);
    assert full - {} == full;
  }

  /** One reference p: inside the phase the new pages are paid for, and a new phase
      starts with all its pages in hand and the last phase paid for. */
  lemma LowerStep(kept: set<int>, d: set<int>, p: int, before: set<int>, after: set<int>,
                  k: nat, h: nat, m: nat, cost: nat)
    requires 1 <= h <= k && |d| <= k && |kept| <= h && before <= kept + d
    requires (m == 0 ==> kept == {}) && Serves(p, before, after, h)
    requires cost >= PhaseCost(m, k, h) + |d - kept|
    ensures var cost' := cost + (if p in before then 0 else 1);
            if |d + {p}| <= k
            then after <= kept + (d + {p}) && cost' >= PhaseCost(m, k, h) + |(d + {p}) - kept|
            else after <= after + {p} && cost' >= PhaseCost(m + 1, k, h) + |{p} - after|
  {
    NewPageFaults(d, kept, p, before);
    if |d + {p}| > k {
      assert p in d ==> d + {p} == d;
      NextPhaseCost(m, k, h, kept, d + {p});
      assert {p} - after == {};
    }
  }

  /** What the schedule keeps and has paid, one reference on. */
  lemma KeptStep(refs: seq<int>, caches: seq<set<int>>, k: nat, m: nat)
    requires k >= 1 && m < |refs| && |caches| == |refs| + 1
    ensures Kept(refs, caches, k, m + 1) ==
              if |PhaseAt(refs, k, m).pages + {refs[m]}| <= k then Kept(refs, caches, k, m) else caches[m + 1]
    ensures Cost(refs, caches, m + 1) == Cost(refs, caches, m) + if refs[m] in caches[m] then 0 else 1
  {
    PhaseStep(refs, k, m + 1);
    hide PhaseAt;
  }

  lemma KeptNone(refs: seq<int>, caches: seq<set<int>>, k: nat, n: nat)
    requires k >= 1 && n <= |refs| < |caches| && PhaseAt(refs, k, n).complete == 0
    ensures Kept(refs, caches, k, n) == {}
  {
    hide PhaseAt;
  }

  lemma PhaseLowerStep(refs: seq<int>, caches: seq<set<int>>, k: nat, h: nat, m: nat)
    requires 1 <= h <= k && m < |refs| && |caches| == |refs| + 1
    requires LowerBound(refs, caches, k, h, m) && ServesAt(refs, caches, m, h)
    ensures LowerBound(refs, caches, k, h, m + 1)
  {
    PhaseBounds(refs, k, m);
    PhaseStep(refs, k, m + 1);
    KeptStep(refs, caches, k, m);
    if PhaseAt(refs, k, m).complete == 0 {
      KeptNone(refs, caches, k, m);
    }
    hide PhaseAt, Kept, Cost, PhaseCost;
    var ph := PhaseAt(refs, k, m);
    LowerStep(Kept(refs, caches, k, m), ph.pages, refs[m], caches[m], caches[m + 1], k, h, ph.complete,
              Cost(refs, caches, m));
  }

  lemma {:induction false} PhaseLower(refs: seq<int>, caches: seq<set<int>>, k: nat, h: nat, n: nat)
    requires 1 <= h <= k && n <= |refs| && Schedule(refs, caches, h)
    ensures LowerBound(refs, caches, k, h, n)
  {
    if n > 0 {
      hide LowerBound, ServesAt;
      PhaseLower(refs, caches, k, h, n - 1);
      assert ServesAt(refs, caches, n - 1, h);
      PhaseLowerStep(refs, caches, k, h, n - 1);
    }
  }

  lemma PhaseArithmetic(m: nat, d: nat, k: nat, h: nat, faults: nat, cost: nat, rest: nat)
    requires 1 <= h <= k && d <= k && rest >= d - h && (m == 0 ==> rest >= d)
    requires faults <= m * k + d && cost >= PhaseCost(m, k, h) + rest
    ensures (k - h + 1) * faults <= k * cost
  {
    if m > 0 { PhaseCostClosed(m, k, h); }
    var top := if m == 0 then d else if d > h then d else h;
    PhaseRatio(m, d, k, k - h + 1, faults, cost, top);
  }

  lemma PhaseRatio(m: nat, d: nat, k: nat, g: nat, faults: nat, cost: nat, top: nat)
    requires g <= k && d <= top && faults <= m * k + d && cost >= m * g + top
    ensures g * faults <= k * cost
  {
    calc <= {
      g * faults;
      { Scale(g, faults, m * k + d); }
      g * (m * k + d);
      { Distribute(g, m, k, d); }
      k * (m * g) + g * d;
      { ScaleLeft(g, k, d); }
      k * (m * g) + k * d;
      { Scale(k, d, top); }
      k * (m * g) + k * top;
      k * (m * g + top);
      { Scale(k, m * g + top, cost); }
      k * cost;
    }
  }

  lemma Distribute(a: nat, m: nat, b: nat, c: nat)
    ensures a * (m * b + c) == b * (m * a) + a * c
  {
    assert a * (m * b) == b * (m * a);
  }

  lemma Scale(c: nat, a: int, b: int)
    requires a <= b
    ensures c * a <= c * b
  {
  }

  lemma ScaleLeft(a: nat, b: nat, c: nat)
    requires a <= b
    ensures a * c <= b * c
  {
  }

  /** The competitive bound, for every conservative trace. */
  lemma ConservativeBound(refs: seq<int>, trace: seq<bool>, caches: seq<set<int>>, k: nat, h: nat)
    requires 1 <= h <= k && Conservative(refs, trace, k) && Schedule(refs, caches, h)
    ensures (k - h + 1) * Count(trace) <= k * Cost(refs, caches, |refs|)
  {
    var n := |refs|;
    PhaseUpper(refs, trace, k, n);
    PhaseLower(refs, caches, k, h, n);
    PhaseBounds(refs, k, n);
    assert trace[..n] == trace;
    var ph, kept := PhaseAt(refs, k, n), Kept(refs, caches, k, n);
    DifferenceCard(ph.pages, kept);
    PhaseArithmetic(ph.complete, |ph.pages|, k, h, Count(trace), Cost(refs, caches, n), |ph.pages - kept|);
  }

  lemma LruConservative(refs: seq<int>, k: nat)
    requires k >= 1
    ensures Conservative(refs, Lru.Trace(refs, k), k)
  {
    forall a, b | 0 <= a <= b <= |refs|
      ensures WindowBound(refs, Lru.Trace(refs, k), k, a, b)
    {
      if |PageSet(refs[a..b])| <= k {
        Lru.WindowFaults(refs, k, a, b);
      }
    }
  }

  lemma FifoConservative(refs: seq<int>, k: nat)
    requires k >= 1
    ensures Conservative(refs, Fifo.Trace(refs, k), k)
  {
    forall a, b | 0 <= a <= b <= |refs|
      ensures WindowBound(refs, Fifo.Trace(refs, k), k, a, b)
    {
      if |PageSet(refs[a..b])| <= k {
        Fifo.WindowFaults(refs, k, a, b);
      }
    }
  }

  /** LRU with k frames against any schedule with h <= k frames. */
  lemma LruCompetitive(refs: seq<int>, caches: seq<set<int>>, k: nat, h: nat)
    requires 1 <= h <= k && Schedule(refs, caches, h)
    ensures (k - h + 1) * Count(Lru.Trace(refs, k)) <= k * Cost(refs, caches, |refs|)
  {
    LruConservative(refs, k);
    ConservativeBound(refs, Lru.Trace(refs, k), caches, k, h);
  }

  /** FIFO with k frames against any schedule with h <= k frames. */
  lemma FifoCompetitive(refs: seq<int>, caches: seq<set<int>>, k: nat, h: nat)
    requires 1 <= h <= k && Schedule(refs, caches, h)
    ensures (k - h + 1) * Count(Fifo.Trace(refs, k)) <= k * Cost(refs, caches, |refs|)
  {
    FifoConservative(refs, k);
    ConservativeBound(refs, Fifo.Trace(refs, k), caches, k, h);
  }

  /** What LRU itself holds before each reference. */
  ghost function LruCaches(refs: seq<int>, k: nat): seq<set<int>>
    requires k >= 1
  {
    seq(|refs| + 1, i requires 0 <= i <= |refs| => PageSet(Lru.Residents(refs[..i], k)))
  }

  /** What FIFO itself holds before each reference. */
  ghost function FifoCaches(refs: seq<int>, k: nat): seq<set<int>>
    requires k >= 1
  {
    seq(|refs| + 1, i requires 0 <= i <= |refs| => PageSet(Fifo.Queue(refs[..i], k)))
  }

  lemma LruServes(r: seq<int>, p: int, k: nat)
    requires k >= 1 && Distinct(r) && |r| <= k
    ensures Serves(p, PageSet(r), PageSet(Lru.Touch(r, p, k)), k)
  {
    var r' := Lru.Touch(r, p, k);
    if p in r {
      WithoutDistinct(r, p);
      PageSetAppend([p], Without(r, p));
      assert PageSet(r') == PageSet(r);
      DistinctCard(r);
    } else {
      CardAtMostLength(r');
    }
  }

  lemma FifoServes(q: seq<int>, p: int, k: nat)
    requires k >= 1 && |q| <= k
    ensures Serves(p, PageSet(q), PageSet(Fifo.Load(q, p, k)), k)
  {
    CardAtMostLength(Fifo.Load(q, p, k));
  }

  lemma {:induction false} CostIsCount(refs: seq<int>, caches: seq<set<int>>, trace: seq<bool>, n: nat)
    requires n <= |refs| == |trace| < |caches|
    requires forall i :: 0 <= i < |refs| ==> (trace[i] <==> refs[i] !in caches[i])
    ensures Cost(refs, caches, n) == Count(trace[..n])
  {
    if n > 0 {
      CostIsCount(refs, caches, trace, n - 1);
      assert trace[..n] == trace[..n - 1] + [trace[n - 1]];
      CountSnoc(trace[..n - 1], trace[n - 1]);
    }
  }

  /** LRU is one of the schedules, and its cost as a schedule is its fault count. */
  lemma LruIsSchedule(refs: seq<int>, k: nat)
    requires k >= 1
    ensures Schedule(refs, LruCaches(refs, k), k)
    ensures Cost(refs, LruCaches(refs, k), |refs|) == Count(Lru.Trace(refs, k))
  {
    var caches, t := LruCaches(refs, k), Lru.Trace(refs, k);
    assert caches[0] == PageSet(Lru.Residents(refs[..0], k)) == {};
    forall i | 0 <= i < |refs|
      ensures ServesAt(refs, caches, i, k) && (t[i] <==> refs[i] !in caches[i])
    {
      Lru.ResidentCount(refs[..i], k);
      LruServes(Lru.Residents(refs[..i], k), refs[i], k);
      assert refs[..i + 1][..i] == refs[..i];
      Lru.TraceAt(refs, k, i);
    }
    CostIsCount(refs, caches, t, |refs|);
    assert t[..|refs|] == t;
  }

  /** FIFO is one of the schedules, and its cost as a schedule is its fault count. */
  lemma FifoIsSchedule(refs: seq<int>, k: nat)
    requires k >= 1
    ensures Schedule(refs, FifoCaches(refs, k), k)
    ensures Cost(refs, FifoCaches(refs, k), |refs|) == Count(Fifo.Trace(refs, k))
  {
    var caches, t := FifoCaches(refs, k), Fifo.Trace(refs, k);
    assert caches[0] == PageSet(Fifo.Queue(refs[..0], k)) == {};
    forall i | 0 <= i < |refs|
      ensures ServesAt(refs, caches, i, k) && (t[i] <==> refs[i] !in caches[i])
    {
      Fifo.QueueDistinct(refs[..i], k);
      FifoServes(Fifo.Queue(refs[..i], k), refs[i], k);
      Fifo.QueueSnoc(refs, k, i);
      Fifo.TraceAt(refs, k, i);
    }
    CostIsCount(refs, caches, t, |refs|);
    assert t[..|refs|] == t;
  }

  /** How much larger FIFO's anomalies can be: k' frames against fewer. */
  lemma FifoAnomalySize(refs: seq<int>, k: nat, k': nat)
    requires 1 <= k <= k'
    ensures (k' - k + 1) * Count(Fifo.Trace(refs, k')) <= k' * Count(Fifo.Trace(refs, k))
  {
    FifoIsSchedule(refs, k);
    FifoCompetitive(refs, FifoCaches(refs, k), k', k);
  }

  /** The two policies of the simulator against each other, with k and h <= k frames. */
  lemma LruAgainstFifo(refs: seq<int>, k: nat, h: nat)
    requires 1 <= h <= k
    ensures (k - h + 1) * Count(Lru.Trace(refs, k)) <= k * Count(Fifo.Trace(refs, h))
    ensures (k - h + 1) * Count(Fifo.Trace(refs, k)) <= k * Count(Lru.Trace(refs, h))
  {
    FifoIsSchedule(refs, h);
    LruCompetitive(refs, FifoCaches(refs, h), k, h);
    LruIsSchedule(refs, h);
    FifoCompetitive(refs, LruCaches(refs, h), k, h);
  }
}
