/** When more frames can make FIFO fault more: exactly from k frames to fewer than 2k - 1. */
module FifoAnomaly {
  import opened Pages
  import opened Fifo

  // ----- No anomaly from k frames to 2k - 1 or more -----

  /** How many pages of the queue were loaded after y. */
  function Behind(q: seq<int>, y: int): (n: nat)
    requires y in q
    ensures n < |q|
  {
    if q[|q| - 1] == y then 0 else 1 + Behind(q[..|q| - 1], y)
  }

  lemma BehindSnoc(q: seq<int>, x: int, y: int)
    requires y in q && y != x
    ensures Behind(q + [x], y) == Behind(q, y) + 1
  {
    assert (q + [x])[..|q|] == q;
  }

  lemma {:induction false} BehindTail(q: seq<int>, y: int)
    requires |q| > 0 && y in q[1..]
    ensures Behind(q[1..], y) == Behind(q, y)
  {
    var n := |q| - 1;
    assert q[1..][n - 1] == q[n];
    if q[n] != y {
      assert q[1..][..n - 1] == q[..n][1..];
      BehindTail(q[..n], y);
    }
  }

  lemma {:induction false} BehindHead(q: seq<int>)
    requires q != [] && Distinct(q)
    ensures Behind(q, q[0]) == |q| - 1
  {
    if |q| > 1 {
      BehindHead(q[..|q| - 1]);
    }
  }

  /** A load puts one more page behind every page that stays. */
  lemma BehindLoad(q: seq<int>, x: int, y: int, k: nat)
    requires k >= 1 && x !in q && y != x && y in Load(q, x, k)
    ensures y in q && Behind(Load(q, x, k), y) == Behind(q, y) + 1
  {
    if |q| < k {
      BehindSnoc(q, x, y);
    } else {
      BehindTail(q, y);
      BehindSnoc(q[1..], x, y);
    }
  }

  /** The page that leaves has all others behind it. */
  lemma WhoLeaves(q: seq<int>, x: int, y: int, k: nat)
    requires k >= 1 && Distinct(q) && |q| <= k && x !in q && y in q && y !in Load(q, x, k)
    ensures Behind(q, y) == k - 1
  {
    assert q == [q[0]] + q[1..];
    BehindHead(q);
  }

  lemma {:induction false} LastAccess(front: seq<int>, x: int, k: nat)
    requires k >= 1
    ensures Queue(front + [x], k) == Load(Queue(front, k), x, k)
    ensures Trace(front + [x], k) == Trace(front, k) + [x !in Queue(front, k)]
  {
    assert (front + [x])[..|front|] == front;
  }

  /** The pages of a window are those resident when it began and those loaded since. */
  lemma {:induction false} WindowPages(refs: seq<int>, k: nat, a: nat)
    requires k >= 1 && a <= |refs|
    ensures |PageSet(Queue(refs[..a], k)) + PageSet(refs[a..])| <= k + Count(Trace(refs, k)[a..])
    ensures PageSet(Queue(refs, k)) <= PageSet(Queue(refs[..a], k)) + PageSet(refs[a..])
  {
    hide Queue, Trace, Count, PageSet;
    if a == |refs| {
      NoWindow(refs, k);
    } else {
      var n := |refs| - 1;
      var front, x := refs[..n], refs[n];
      WindowPages(front, k, a);
      assert refs == front + [x] && front[..a] == refs[..a] && refs[a..] == front[a..] + [x];
      LastAccess(front, x, k);
      WindowStep(Queue(front, k), PageSet(Queue(refs[..a], k)) + PageSet(front[a..]), x, k);
      PageSetSnoc(front[a..], x);
      var t, fault := Trace(front, k), x !in Queue(front, k);
      assert (t + [fault])[a..] == t[a..] + [fault];
      CountSnoc(t[a..], fault);
      assert PageSet(Queue(refs[..a], k)) + PageSet(refs[a..])
          == PageSet(Queue(refs[..a], k)) + PageSet(front[a..]) + {x};
    }
  }

  lemma NoWindow(refs: seq<int>, k: nat)
    requires k >= 1
    ensures var n := |refs|;
            && |PageSet(Queue(refs[..n], k)) + PageSet(refs[n..])| <= k + Count(Trace(refs, k)[n..])
            && PageSet(Queue(refs, k)) <= PageSet(Queue(refs[..n], k)) + PageSet(refs[n..])
  {
    hide Queue;
    assert refs[..|refs|] == refs;
    QueueDistinct(refs, k);
    DistinctCard(Queue(refs, k));
    assert PageSet(Queue(refs, k)) + PageSet([]) == PageSet(Queue(refs, k));
  }

  lemma WindowStep(q: seq<int>, pages: set<int>, x: int, k: nat)
    requires k >= 1 && PageSet(q) <= pages
    ensures PageSet(Load(q, x, k)) <= pages + {x}
    ensures |pages + {x}| <= |pages| + if x in q then 0 else 1
  {
    AddPage(pages, x);
    assert x in q ==> x in PageSet(q);
  }

  /** A page loaded at the start of a window with at most k distinct pages is still there. */
  lemma {:induction false} LoadStays(refs: seq<int>, k: nat, u: nat)
    requires k >= 1 && u < |refs| && Trace(refs, k)[u] && |PageSet(refs[u..])| <= k
    ensures refs[u] in Queue(refs, k)
    ensures Behind(Queue(refs, k), refs[u]) == Count(Trace(refs, k)[u + 1..])
  {
    hide Queue, Trace, Count, PageSet, Behind, Load;
    var n := |refs| - 1;
    var front, x, y := refs[..n], refs[n], refs[u];
    assert refs == front + [x];
    LastAccess(front, x, k);
    var q, fault := Queue(front, k), x !in Queue(front, k);
    if u == n {
      LoadedLast(front, x, k);
    } else {
      assert refs[u..] == front[u..] + [x];
      PageSetSnoc(front[u..], x);
      SubsetCard(PageSet(front[u..]), PageSet(refs[u..]));
      LoadStays(front, k, u);
      var t := Trace(front, k);
      assert (t + [fault])[u + 1..] == t[u + 1..] + [fault];
      CountSnoc(t[u + 1..], fault);
      QueueDistinct(front, k);
      if fault {
        FewLoads(refs, k, u);
        LoadKeeps(q, x, y, k);
      } else {
        HitKeeps(q, x, k);
      }
    }
  }

  lemma LoadedLast(front: seq<int>, x: int, k: nat)
    requires k >= 1 && Trace(front + [x], k)[|front|]
    ensures x in Queue(front + [x], k) && Behind(Queue(front + [x], k), x) == 0
    ensures Count(Trace(front + [x], k)[|front| + 1..]) == 0
  {
    LastAccess(front, x, k);
    hide Queue, Trace;
  }

  lemma HitKeeps(q: seq<int>, x: int, k: nat)
    requires k >= 1 && x in q
    ensures Load(q, x, k) == q
  {
  }

  lemma LoadKeeps(q: seq<int>, x: int, y: int, k: nat)
    requires k >= 1 && Distinct(q) && |q| <= k && x !in q && y in q && Behind(q, y) + 1 < k
    ensures y in Load(q, x, k) && Behind(Load(q, x, k), y) == Behind(q, y) + 1
  {
    if y !in Load(q, x, k) {
      WhoLeaves(q, x, y, k);
    }
    BehindLoad(q, x, y, k);
  }

  /** In such a window fewer than k loads follow the first. */
  lemma FewLoads(refs: seq<int>, k: nat, u: nat)
    requires k >= 1 && u < |refs| && Trace(refs, k)[u] && |PageSet(refs[u..])| <= k
    ensures Count(Trace(refs, k)[u + 1..]) < k
  {
    hide Queue, Trace, Count, PageSet;
    var t := Trace(refs, k);
    assert refs[u..|refs|] == refs[u..] && t[u..|refs|] == t[u..];
    WindowFaults(refs, k, u, |refs|);
    assert t[u..] == [t[u]] + t[u + 1..];
    CountAppend([t[u]], t[u + 1..]);
    OneFault();
  }

  lemma OneFault()
    ensures Count([true]) == 1
  {
  }

  /** With big frames y was loaded at reference u, and since then the small queue has loaded no
      more pages than are behind y in it. */
  ghost predicate Anchored(refs: seq<int>, small: nat, big: nat, y: int, u: nat)
    requires small >= 1 && big >= 1 && y in Queue(refs, small)
  {
    && u < |refs| && refs[u] == y && Trace(refs, big)[u]
    && Count(Trace(refs, small)[u + 1..]) <= Behind(Queue(refs, small), y)
  }

  /** With at least 2k - 1 big frames an anchored page is resident in them. */
  lemma AnchoredResident(refs: seq<int>, small: nat, big: nat, y: int, u: nat)
    requires small >= 1 && big >= 2 * small - 1 && y in Queue(refs, small) && Anchored(refs, small, big, y, u)
    ensures y in Queue(refs, big)
  {
    hide Queue, Trace, Count, PageSet, Behind;
    QueueDistinct(refs, small);
    WindowPages(refs, small, u + 1);
    AccessedResident(refs, small, u);
    var pages := PageSet(Queue(refs[..u + 1], small)) + PageSet(refs[u + 1..]);
    assert refs[u..] == [y] + refs[u + 1..];
    WindowWithin(y, refs[u + 1..], pages);
    SubsetCard(PageSet(refs[u..]), pages);
    LoadStays(refs, big, u);
  }

  lemma AccessedResident(refs: seq<int>, k: nat, u: nat)
    requires k >= 1 && u < |refs|
    ensures refs[u] in PageSet(Queue(refs[..u + 1], k))
  {
    assert refs[..u + 1] == refs[..u] + [refs[u]];
    LastAccess(refs[..u], refs[u], k);
  }

  lemma WindowWithin(y: int, rest: seq<int>, pages: set<int>)
    requires y in pages && PageSet(rest) <= pages
    ensures PageSet([y] + rest) <= pages
  {
    PageSetAppend([y], rest);
  }

  /** Pages of the small queue that the big one had when the small one loaded them, and that the
      big one has not loaded since. */
  ghost function Credits(refs: seq<int>, small: nat, big: nat): set<int>
    requires small >= 1 && big >= 1
  {
    if refs == [] then {}
    else
      var front, x := refs[..|refs| - 1], refs[|refs| - 1];
      var before := Credits(front, small, big);
      var inBig := x in Queue(front, big);
      if x in Queue(front, small) then if inBig then before else before - {x}
      else before * PageSet(Queue(refs, small)) + if inBig then {x} else {}
  }

  ghost predicate Uncredited(refs: seq<int>, small: nat, big: nat)
    requires small >= 1 && big >= 1
  {
    forall y :: y in Queue(refs, small) && y !in Credits(refs, small, big) ==> HasAnchor(refs, small, big, y)
  }

  ghost predicate HasAnchor(refs: seq<int>, small: nat, big: nat, y: int)
    requires small >= 1 && big >= 1 && y in Queue(refs, small)
  {
    exists u :: Anchored(refs, small, big, y, u)
  }

  lemma CreditsSnoc(front: seq<int>, x: int, small: nat, big: nat)
    requires small >= 1 && big >= 1
    ensures var before, inBig := Credits(front, small, big), x in Queue(front, big);
            Credits(front + [x], small, big) ==
              if x in Queue(front, small) then if inBig then before else before - {x}
              else before * PageSet(Queue(front + [x], small)) + if inBig then {x} else {}
  {
    hide Queue, PageSet;
    assert (front + [x])[..|front|] == front;
  }

  /** An anchor holds as long as the page stays. */
  lemma AnchorKept(front: seq<int>, x: int, small: nat, big: nat, y: int, u: nat)
    requires small >= 1 && big >= 1 && y in Queue(front, small) && Anchored(front, small, big, y, u)
    requires y in Queue(front + [x], small)
    ensures Anchored(front + [x], small, big, y, u)
  {
    hide Queue, Trace, Count, Behind, Load;
    LastAccess(front, x, small);
    LastAccess(front, x, big);
    var q, t := Queue(front, small), Trace(front, small);
    var fault := x !in q;
    assert (t + [fault])[u + 1..] == t[u + 1..] + [fault];
    CountSnoc(t[u + 1..], fault);
    if fault {
      BehindLoad(q, x, y, small);
    } else {
      HitKeeps(q, x, small);
    }
  }

  lemma AnchorNow(front: seq<int>, x: int, small: nat, big: nat)
    requires small >= 1 && big >= 1 && x !in Queue(front, big)
    ensures x in Queue(front + [x], small) && HasAnchor(front + [x], small, big, x)
  {
    hide Queue, Trace, Behind;
    AccessedResident(front + [x], small, |front|);
    assert (front + [x])[..|front| + 1] == front + [x];
    LastAccess(front, x, small);
    LastAccess(front, x, big);
    assert Trace(front + [x], small)[|front| + 1..] == [];
    assert Anchored(front + [x], small, big, x, |front|);
  }

  lemma UncreditedStep(front: seq<int>, x: int, small: nat, big: nat)
    requires small >= 1 && big >= 1 && Uncredited(front, small, big)
    ensures Uncredited(front + [x], small, big)
  {
    hide Queue, Credits, Anchored;
    CreditsSnoc(front, x, small, big);
    LastAccess(front, x, small);
    var refs := front + [x];
    forall y | y in Queue(refs, small) && y !in Credits(refs, small, big)
      ensures HasAnchor(refs, small, big, y)
    {
      if x !in Queue(front, big) && y == x {
        AnchorNow(front, x, small, big);
      } else {
        assert y in Queue(front, small) && y !in Credits(front, small, big);
        var u :| Anchored(front, small, big, y, u);
        AnchorKept(front, x, small, big, y, u);
      }
    }
  }

  /** Faults with small frames pay for those with big frames and for every credit. */
  lemma {:induction false} CreditsPaid(refs: seq<int>, small: nat, big: nat)
    requires small >= 1 && big >= 2 * small - 1
    ensures Uncredited(refs, small, big)
    ensures Credits(refs, small, big) <= PageSet(Queue(refs, small))
    ensures Count(Trace(refs, big)) + |Credits(refs, small, big)| <= Count(Trace(refs, small))
  {
    hide Queue, Trace, Count, Credits, Anchored, Uncredited;
    if refs == [] {
      NothingYet(small, big);
    } else {
      var front, x := refs[..|refs| - 1], refs[|refs| - 1];
      assert refs == front + [x];
      CreditsPaid(front, small, big);
      UncreditedStep(front, x, small, big);
      CreditsSnoc(front, x, small, big);
      LastAccess(front, x, small);
      LastAccess(front, x, big);
      CountSnoc(Trace(front, small), x !in Queue(front, small));
      CountSnoc(Trace(front, big), x !in Queue(front, big));
      if x in Queue(front, small) && x !in Queue(front, big) {
        MustBeCredit(front, x, small, big);
      }
      CreditStep(Credits(front, small, big), Queue(front, small), x, x in Queue(front, big), small);
    }
  }

  lemma NothingYet(small: nat, big: nat)
    requires small >= 1 && big >= 1
    ensures Uncredited([], small, big) && Credits([], small, big) == {}
    ensures Count(Trace([], small)) == 0 == Count(Trace([], big))
  {
  }

  lemma MustBeCredit(front: seq<int>, x: int, small: nat, big: nat)
    requires small >= 1 && big >= 2 * small - 1 && Uncredited(front, small, big)
    requires x in Queue(front, small) && x !in Queue(front, big)
    ensures x in Credits(front, small, big)
  {
    hide Queue, Credits, Anchored;
    if x !in Credits(front, small, big) {
      var u :| Anchored(front, small, big, x, u);
      AnchoredResident(front, small, big, x, u);
    }
  }

  lemma CreditStep(before: set<int>, q: seq<int>, x: int, inBig: bool, k: nat)
    requires k >= 1 && before <= PageSet(q) && (x in q && !inBig ==> x in before)
    ensures var q' := Load(q, x, k);
            var after := if x in q then if inBig then before else before - {x}
                         else before * PageSet(q') + if inBig then {x} else {};
            && after <= PageSet(q')
            && |after| + (if inBig then 0 else 1) <= |before| + (if x in q then 0 else 1)
  {
    var q' := Load(q, x, k);
    SubsetCard(before * PageSet(q'), before);
    AddPage(before * PageSet(q'), x);
  }

  /** From k frames to 2k - 1 or more, FIFO never faults more, on any references. */
  lemma NoAnomaly(refs: seq<int>, small: nat, big: nat)
    requires small >= 1 && big >= 2 * small - 1
    ensures Count(Trace(refs, big)) <= Count(Trace(refs, small))
  {
    CreditsPaid(refs, small, big);
  }

  lemma {:induction false} EachPageLoaded(refs: seq<int>, k: nat)
    requires k >= 1
    ensures PageSet(Queue(refs, k)) <= PageSet(refs) && |PageSet(refs)| <= Count(Trace(refs, k))
  {
    hide Queue, Trace, Count, PageSet;
    if refs == [] {
      NoReferences(k);
    } else {
      var front, x := refs[..|refs| - 1], refs[|refs| - 1];
      assert refs == front + [x];
      EachPageLoaded(front, k);
      LastAccess(front, x, k);
      CountSnoc(Trace(front, k), x !in Queue(front, k));
      WindowStep(Queue(front, k), PageSet(front), x, k);
      PageSetSnoc(front, x);
    }
  }

  lemma NoReferences(k: nat)
    requires k >= 1
    ensures PageSet(Queue([], k)) == {} == PageSet([]) && Count(Trace([], k)) == 0
  {
  }

  /** With a frame for every page used, no smaller number of frames faults less. */
  lemma EnoughFrames(refs: seq<int>, small: nat, big: nat)
    requires small >= 1 && big >= 1 && |PageSet(refs)| <= big
    ensures Count(Trace(refs, big)) <= Count(Trace(refs, small))
  {
    EachPageLoaded(refs, small);
    assert refs[0..|refs|] == refs && Trace(refs, big)[0..|refs|] == Trace(refs, big);
    WindowFaults(refs, big, 0, |refs|);
  }

  // ----- An anomaly for every k' with k < k' < 2k - 1 -----

  /** The pages from a up to b. */
  function Range(a: nat, b: nat): (r: seq<int>)
    requires a <= b
    ensures |r| == b - a && forall i :: 0 <= i < |r| ==> r[i] == a + i
    ensures forall p :: p in r <==> a <= p < b
  {
    var r := seq(b - a, i => a + i);
    AllInRange(a, b, r);
    r
  }

  lemma AllInRange(a: nat, b: nat, r: seq<int>)
    requires a <= b && |r| == b - a && forall i :: 0 <= i < |r| ==> r[i] == a + i
    ensures forall p :: p in r <==> a <= p < b
  {
    forall p | a <= p < b ensures p in r {
      assert r[p - a] == p;
    }
  }

  /** Load all pages of the larger size, then all but one of the smaller, a new page, the same
      again, the others up to the larger size, and the new page. */
  function Worst(small: nat, big: nat): seq<int>
    requires 1 <= small <= big
  {
    Range(1, big + 1) + Range(1, small) + [big + 1] + Range(1, small) + Range(small, big + 1) + [big + 1]
  }

  /** The references leave this queue after so many faults. */
  ghost predicate Reaches(refs: seq<int>, k: nat, q: seq<int>, faults: nat)
    requires k >= 1
  {
    Queue(refs, k) == q && Count(Trace(refs, k)) == faults
  }

  lemma StartReaches(k: nat)
    requires k >= 1
    ensures Reaches([], k, [], 0)
  {
  }

  lemma Access(refs: seq<int>, x: int, k: nat, q: seq<int>, faults: nat)
    requires k >= 1 && Reaches(refs, k, q, faults)
    ensures Reaches(refs + [x], k, Load(q, x, k), faults + if x in q then 0 else 1)
  {
    hide Queue, Trace, Count;
    LastAccess(refs, x, k);
    CountSnoc(Trace(refs, k), x !in q);
  }

  lemma {:induction false} HitRun(refs: seq<int>, s: seq<int>, k: nat, q: seq<int>, faults: nat)
    requires k >= 1 && Reaches(refs, k, q, faults) && forall i :: 0 <= i < |s| ==> s[i] in q
    ensures Reaches(refs + s, k, q, faults)
  {
    hide Reaches;
    if s == [] {
      assert refs + s == refs;
    } else {
      var n := |s| - 1;
      HitRun(refs, s[..n], k, q, faults);
      Access(refs + s[..n], s[n], k, q, faults);
      assert refs + s == (refs + s[..n]) + [s[n]];
    }
  }

  /** New pages into free frames. */
  lemma {:induction false} FillRun(refs: seq<int>, s: seq<int>, k: nat, q: seq<int>, faults: nat)
    requires k >= 1 && Reaches(refs, k, q, faults) && |q| + |s| <= k
    requires forall i :: 0 <= i < |s| ==> s[i] !in q && s[i] !in s[..i]
    ensures Reaches(refs + s, k, q + s, faults + |s|)
  {
    hide Reaches;
    if s == [] {
      assert refs + s == refs && q + s == q;
    } else {
      var n := |s| - 1;
      FillRun(refs, s[..n], k, q, faults) by { SubRun(s, q); }
      Access(refs + s[..n], s[n], k, q + s[..n], faults + n);
      assert refs + s == (refs + s[..n]) + [s[n]] && q + s == (q + s[..n]) + [s[n]];
    }
  }

  lemma SubRun(s: seq<int>, q: seq<int>)
    requires s != [] && forall i :: 0 <= i < |s| ==> s[i] !in q && s[i] !in s[..i]
    ensures var t := s[..|s| - 1]; forall i :: 0 <= i < |t| ==> t[i] !in q && t[i] !in t[..i]
  {
    var t := s[..|s| - 1];
    assert forall i :: 0 <= i < |t| ==> t[..i] == s[..i];
  }

  /** No page of the run is in the full queue when its turn comes. */
  ghost predicate Misses(q: seq<int>, s: seq<int>) {
    |s| <= |q| && forall i :: 0 <= i < |s| ==> s[i] !in q[i..] && s[i] !in s[..i]
  }

  /** Pages that miss push out as many of the oldest. */
  lemma {:induction false} MissRun(refs: seq<int>, s: seq<int>, k: nat, q: seq<int>, faults: nat)
    requires k >= 1 && Reaches(refs, k, q, faults) && |q| == k && Misses(q, s)
    ensures Reaches(refs + s, k, q[|s|..] + s, faults + |s|)
  {
    hide Reaches, Misses;
    if s == [] {
      assert refs + s == refs && q[|s|..] + s == q;
    } else {
      var n := |s| - 1;
      MissesFront(q, s);
      MissRun(refs, s[..n], k, q, faults);
      Access(refs + s[..n], s[n], k, q[n..] + s[..n], faults + n);
      assert refs + s == (refs + s[..n]) + [s[n]];
      assert (q[n..] + s[..n])[1..] + [s[n]] == q[|s|..] + s;
    }
  }

  lemma MissesFront(q: seq<int>, s: seq<int>)
    requires s != [] && Misses(q, s)
    ensures var n := |s| - 1; n < |q| && Misses(q, s[..n]) && s[n] !in q[n..] + s[..n]
  {
    var t := s[..|s| - 1];
    assert forall i :: 0 <= i < |t| ==> t[..i] == s[..i];
  }

  /** The smaller queue: it keeps the pages it loads in the second part, and hits them in the
      fourth and the new page in the last. */
  lemma WorstSmall(small: nat, big: nat)
    requires small < big < 2 * small - 1
    ensures Count(Trace(Worst(small, big), small)) == 2 * big + 1
  {
    hide Reaches;
    var d := big - small;
    var r0, r1 := Range(1, small + 1), Range(small + 1, big + 1);
    StartReaches(small);
    FillRun([], r0, small, [], 0);
    assert Misses(r0, r1);
    MissRun([] + r0, r1, small, [] + r0, small);
    WorstSmallRest(small, big, [] + r0 + r1, ([] + r0)[d..] + r1);
    assert [] + r0 + r1 == Range(1, big + 1);
    assert ([] + r0)[d..] + r1 == Range(d + 1, big + 1);
  }

  lemma WorstSmallRest(small: nat, big: nat, refs: seq<int>, q: seq<int>)
    requires small < big < 2 * small - 1 && refs == Range(1, big + 1) && q == Range(big - small + 1, big + 1)
    requires Reaches(refs, small, q, big)
    ensures Count(Trace(Worst(small, big), small)) == 2 * big + 1
  {
    hide Reaches, Range;
    var low, last, extra := Range(1, small), Range(small, big + 1), [big + 1];
    var q3 := SmallMiddle(small, big, refs, q);
    var q5 := SmallLast(small, big, refs + low + extra, q3);
    Counted(refs + low + extra + low + last + extra, small, q5, 2 * big + 1);
  }

  lemma SmallMiddle(small: nat, big: nat, refs: seq<int>, q: seq<int>) returns (q': seq<int>)
    requires small < big < 2 * small - 1 && q == Range(big - small + 1, big + 1)
    requires Reaches(refs, small, q, big)
    ensures q' == Range(1, small) + [big + 1]
    ensures Reaches(refs + Range(1, small) + [big + 1], small, q', big + small)
  {
    hide Reaches, Misses, Range;
    var low, extra := Range(1, small), [big + 1];
    LowMisses(small, big, q, low);
    MissRun(refs, low, small, q, big);
    var q2 := q[|low|..] + low;
    NewMisses(q2, big + 1);
    MissRun(refs + low, extra, small, q2, big + small - 1);
    q' := q2[1..] + extra;
    assert q' == low + extra;
  }

  lemma SmallLast(small: nat, big: nat, refs: seq<int>, q: seq<int>) returns (q': seq<int>)
    requires small < big < 2 * small - 1 && q == Range(1, small) + [big + 1]
    requires Reaches(refs, small, q, big + small)
    ensures Reaches(refs + Range(1, small) + Range(small, big + 1) + [big + 1], small, q', 2 * big + 1)
  {
    hide Reaches, Misses, Range;
    var low, last := Range(1, small), Range(small, big + 1);
    assert forall i :: 0 <= i < |low| ==> q[i] == low[i];
    HitRun(refs, low, small, q, big + small);
    LastMisses(small, big, q, last);
    MissRun(refs + low, last, small, q, big + small);
    q' := q[|last|..] + last;
    assert q'[small - 1 - |last|] == big + 1;
    HitRun(refs + low + last, [big + 1], small, q', 2 * big + 1);
  }

  lemma Counted(refs: seq<int>, k: nat, q: seq<int>, faults: nat)
    requires k >= 1 && Reaches(refs, k, q, faults)
    ensures Count(Trace(refs, k)) == faults
  {
  }

  lemma LowMisses(small: nat, big: nat, q: seq<int>, low: seq<int>)
    requires 1 <= small < big && q == Range(big - small + 1, big + 1) && low == Range(1, small)
    ensures Misses(q, low)
  {
  }

  lemma NewMisses(q: seq<int>, x: int)
    requires q != [] && x !in q
    ensures Misses(q, [x])
  {
  }

  lemma LastMisses(small: nat, big: nat, q: seq<int>, last: seq<int>)
    requires small < big < 2 * small - 1 && q == Range(1, small) + [big + 1] && last == Range(small, big + 1)
    ensures Misses(q, last)
  {
  }

  /** The larger queue: the new page pushes out the pages that follow one after the other just
      before each is used again. */
  lemma WorstBig(small: nat, big: nat)
    requires small < big < 2 * small - 1
    ensures Count(Trace(Worst(small, big), big)) == 2 * big + 2
  {
    hide Reaches, Range;
    var all, low, last, extra := Range(1, big + 1), Range(1, small), Range(small, big + 1), [big + 1];
    var q3 := BigFirst(small, big);
    var q4 := BigMiddle(small, big, all + low + extra, q3);
    var q6 := BigLast(small, big, all + low + extra + low, q4);
    Counted(all + low + extra + low + last + extra, big, q6, 2 * big + 2);
  }

  lemma BigFirst(small: nat, big: nat) returns (q': seq<int>)
    requires 1 <= small < big
    ensures q' == Range(2, big + 2)
    ensures Reaches(Range(1, big + 1) + Range(1, small) + [big + 1], big, q', big + 1)
  {
    hide Reaches, Misses, Range;
    var all, low, extra := Range(1, big + 1), Range(1, small), [big + 1];
    Filled(big);
    HitRun(all, low, big, all, big);
    NewMisses(all, big + 1);
    MissRun(all + low, extra, big, all, big);
    q' := all[1..] + extra;
    assert q' == Range(2, big + 2);
  }

  lemma Filled(k: nat)
    requires k >= 1
    ensures Reaches(Range(1, k + 1), k, Range(1, k + 1), k)
  {
    hide Reaches, Range;
    var all := Range(1, k + 1);
    StartReaches(k);
    FillRun([], all, k, [], 0);
    assert [] + all == all;
  }

  lemma BigMiddle(small: nat, big: nat, refs: seq<int>, q: seq<int>) returns (q': seq<int>)
    requires 1 <= small < big && q == Range(2, big + 2) && Reaches(refs, big, q, big + 1)
    ensures q' == Range(small + 1, big + 2) + Range(1, small)
    ensures Reaches(refs + Range(1, small), big, q', big + small)
  {
    hide Reaches, Misses, Range;
    var low := Range(1, small);
    ShiftedMisses(small, big, q, low);
    MissRun(refs, low, big, q, big + 1);
    q' := q[|low|..] + low;
    assert q[|low|..] == Range(small + 1, big + 2);
  }

  lemma BigLast(small: nat, big: nat, refs: seq<int>, q: seq<int>) returns (q': seq<int>)
    requires small < big < 2 * small - 1 && q == Range(small + 1, big + 2) + Range(1, small)
    requires Reaches(refs, big, q, big + small)
    ensures Reaches(refs + Range(small, big + 1) + [big + 1], big, q', 2 * big + 2)
  {
    hide Reaches, Misses, Range;
    var low, last := Range(1, small), Range(small, big + 1);
    OthersMiss(small, big, q, last);
    MissRun(refs, last, big, q, big + small);
    assert q[|last|..] == low;
    var q5 := low + last;
    NewMisses(q5, big + 1);
    MissRun(refs + last, [big + 1], big, q5, 2 * big + 1);
    q' := q5[1..] + [big + 1];
  }

  lemma ShiftedMisses(small: nat, big: nat, q: seq<int>, low: seq<int>)
    requires 1 <= small < big && q == Range(2, big + 2) && low == Range(1, small)
    ensures Misses(q, low)
  {
  }

  lemma OthersMiss(small: nat, big: nat, q: seq<int>, last: seq<int>)
    requires small < big < 2 * small - 1 && q == Range(small + 1, big + 2) + Range(1, small)
    requires last == Range(small, big + 1)
    ensures Misses(q, last)
  {
  }

  /** FIFO can fault more with big than with small frames exactly when big lies strictly between
      small and 2 * small - 1. */
  lemma AnomalyExactly(small: nat, big: nat)
    requires 1 <= small <= big
    ensures (exists refs :: Count(Trace(refs, small)) < Count(Trace(refs, big))) <==> small < big < 2 * small - 1
  {
    if small < big < 2 * small - 1 {
      WorstSmall(small, big);
      WorstBig(small, big);
    } else if big > small {
      forall refs ensures Count(Trace(refs, big)) <= Count(Trace(refs, small)) {
        NoAnomaly(refs, small, big);
      }
    }
  }

  /** The first test pattern of the simulator. */
  const BELADY: seq<int> := [1, 2, 3, 4, 1, 2, 5, 1, 2, 3, 4, 5]

  /** It is the worst case for three and four frames. */
  lemma BeladyAnomaly()
    ensures Count(Trace(BELADY, 3)) == 9 && Count(Trace(BELADY, 4)) == 10
  {
    assert Worst(3, 4) == BELADY;
    WorstSmall(3, 4);
    WorstBig(3, 4);
  }
}
