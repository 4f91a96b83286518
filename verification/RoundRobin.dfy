/** Sequential round robin: which process runs for how long, in which order, and the
    arithmetic of turns, waiting and completion. */
module RoundRobin {
  import opened Sums

  /** One turn on the processor. */
  datatype Slice = Slice(id: nat, time: int)

  function Min(a: nat, b: nat): nat {
    if a < b then a else b
  }

  /** How many slices a process with this burst needs. A burst of zero still takes one. */
  function Slices(burst: nat, q: nat): (n: nat)
    requires q >= 1
    ensures n >= 1
  {
    if burst <= q then 1 else 1 + Slices(burst - q, q)
  }

  /** Time left after r slices. */
  function Remaining(burst: nat, q: nat, r: nat): nat {
    if r == 0 then burst
    else
      var m := Remaining(burst, q, r - 1);
      m - Min(m, q)
  }

  /** Time of slice number r: a quantum, or what is left. */
  function SliceTime(burst: nat, q: nat, r: nat): (t: nat)
    ensures t == Remaining(burst, q, r) - Remaining(burst, q, r + 1)
  {
    Min(Remaining(burst, q, r), q)
  }

  /** The slices of rounds 0 to r - 1, and of round r for the processes before i. */
  function Expected(bursts: seq<nat>, q: nat, r: nat, i: nat): seq<Slice>
    requires q >= 1 && i <= |bursts|
    decreases r, i
  {
    if i > 0 then
      Expected(bursts, q, r, i - 1) +
      (if r < Slices(bursts[i - 1], q) then [Slice(i - 1, SliceTime(bursts[i - 1], q, r))] else [])
    else if r > 0 then Expected(bursts, q, r - 1, |bursts|)
    else []
  }

  /** The number of rounds until every process is done. */
  function Rounds(bursts: seq<nat>, q: nat): (n: nat)
    requires q >= 1
    ensures forall j :: 0 <= j < |bursts| ==> Slices(bursts[j], q) <= n
    ensures |bursts| > 0 ==> n >= 1
  {
    if bursts == [] then 0
    else
      var n, last := Rounds(bursts[..|bursts| - 1], q), Slices(bursts[|bursts| - 1], q);
      if last > n then last else n
  }

  lemma {:induction false} RoundsLeast(bursts: seq<nat>, q: nat, r: nat)
    requires q >= 1 && forall j :: 0 <= j < |bursts| ==> Slices(bursts[j], q) <= r
    ensures Rounds(bursts, q) <= r
  {
    if bursts != [] {
      RoundsLeast(bursts[..|bursts| - 1], q, r);
    }
  }

  // ----- Slices of one process -----

  lemma {:induction false} RemainingClosed(burst: nat, q: nat, r: nat)
    ensures burst - Remaining(burst, q, r) == Min(burst, q * r)
  {
    if r > 0 {
      RemainingClosed(burst, q, r - 1);
      assert q * r == q * (r - 1) + q;
    }
  }

  lemma {:induction false} RemainingShift(burst: nat, q: nat, r: nat)
    requires r >= 1
    ensures Remaining(burst, q, r) == Remaining(burst - Min(burst, q), q, r - 1)
  {
    if r > 1 {
      RemainingShift(burst, q, r - 1);
    }
  }

  /** After r slices time is left exactly when more slices are due, up to the slice that
      even an empty burst takes. */
  lemma {:induction false} SlicesLeft(burst: nat, q: nat, r: nat)
    requires q >= 1
    ensures r >= 1 ==> (Remaining(burst, q, r) > 0 <==> r < Slices(burst, q))
    decreases r
  {
    if r >= 1 {
      RemainingShift(burst, q, r);
      if r > 1 {
        if burst > q {
          SlicesLeft(burst - q, q, r - 1);
        } else {
          NothingLeft(q, r - 1);
        }
      }
    }
  }

  lemma {:induction false} NothingLeft(q: nat, r: nat)
    ensures Remaining(0, q, r) == 0
  {
    if r > 0 {
      NothingLeft(q, r - 1);
    }
  }

  /** The number of slices is the burst over the quantum, rounded up, and at least one. */
  lemma {:induction false} SlicesClosed(burst: nat, q: nat)
    requires q >= 1
    ensures (Slices(burst, q) - 1) * q <= burst <= Slices(burst, q) * q
    ensures burst > 0 ==> (Slices(burst, q) - 1) * q < burst
    ensures burst == 0 ==> Slices(burst, q) == 1
    decreases burst
  {
    var n := Slices(burst, q);
    if burst > q {
      SlicesClosed(burst - q, q);
      assert n * q == (n - 1) * q + q;
      assert (n - 1) * q == (n - 2) * q + q;
    }
  }

  // ----- Slices in the log -----

  function RoundsOf(r: nat, i: nat, j: nat): nat {
    if j < i then r + 1 else r
  }

  /** Time the log gives to process j, and in all. */
  function Served(log: seq<Slice>, j: nat): int {
    if log == [] then 0
    else
      var last := log[|log| - 1];
      Served(log[..|log| - 1], j) + (if last.id == j then last.time else 0)
  }

  function Turns(log: seq<Slice>, j: nat): nat {
    if log == [] then 0
    else
      Turns(log[..|log| - 1], j) + (if log[|log| - 1].id == j then 1 else 0)
  }

  function Elapsed(log: seq<Slice>): int {
    if log == [] then 0 else Elapsed(log[..|log| - 1]) + log[|log| - 1].time
  }

  lemma LogSnoc(log: seq<Slice>, s: Slice, j: nat)
    ensures Served(log + [s], j) == Served(log, j) + (if s.id == j then s.time else 0)
    ensures Turns(log + [s], j) == Turns(log, j) + (if s.id == j then 1 else 0)
    ensures Elapsed(log + [s]) == Elapsed(log) + s.time
  {
    assert (log + [s])[..|log|] == log;
  }

  /** What round r gives to process i. */
  lemma ExpectedStep(bursts: seq<nat>, q: nat, r: nat, i: nat)
    requires q >= 1 && i < |bursts|
    ensures Expected(bursts, q, r, i + 1) ==
            if r < Slices(bursts[i], q)
            then Expected(bursts, q, r, i) + [Slice(i, SliceTime(bursts[i], q, r))]
            else Expected(bursts, q, r, i)
    ensures r >= Slices(bursts[i], q) ==> Remaining(bursts[i], q, r) == Remaining(bursts[i], q, r + 1) == 0
  {
    if r >= Slices(bursts[i], q) {
      SlicesLeft(bursts[i], q, r);
    }
  }

  lemma NothingServed(burst: nat, q: nat, j: nat)
    ensures Served([], j) == burst - Remaining(burst, q, 0) == 0 && Turns([], j) == 0 && Elapsed([]) == 0
  {
  }

  /** What round r gives to process i, in the log. */
  lemma LogStep(bursts: seq<nat>, q: nat, r: nat, i: nat, j: nat)
    requires q >= 1 && i < |bursts|
    ensures var before, after := Expected(bursts, q, r, i), Expected(bursts, q, r, i + 1);
            var time := Remaining(bursts[i], q, r) - Remaining(bursts[i], q, r + 1);
            && Served(after, j) == Served(before, j) + (if i == j then time else 0)
            && Turns(after, j) == Turns(before, j) + (if i == j && r < Slices(bursts[i], q) then 1 else 0)
            && Elapsed(after) == Elapsed(before) + time
  {
    ExpectedStep(bursts, q, r, i);
    hide Expected, Served, Turns, Elapsed, Remaining, Slices, SliceTime;
    LogSnoc(Expected(bursts, q, r, i), Slice(i, SliceTime(bursts[i], q, r)), j);
  }

  /** Every process has had min(its slices, its rounds) turns, for all the time they gave. */
  lemma {:induction false} ServedSoFar(bursts: seq<nat>, q: nat, r: nat, i: nat, j: nat)
    requires q >= 1 && i <= |bursts| && j < |bursts|
    ensures var log, e := Expected(bursts, q, r, i), RoundsOf(r, i, j);
            && Served(log, j) == bursts[j] - Remaining(bursts[j], q, e)
            && Turns(log, j) == Min(Slices(bursts[j], q), e)
    decreases r, i
  {
    hide Remaining, Slices, Served, Turns;
    if i > 0 {
      hide Expected;
      ServedSoFar(bursts, q, r, i - 1, j);
      LogStep(bursts, q, r, i - 1, j);
    } else if r > 0 {
      ServedSoFar(bursts, q, r - 1, |bursts|, j);
    } else {
      NothingServed(bursts[j], q, j);
    }
  }

  /** Each process runs for exactly its burst, in exactly its number of slices. */
  lemma ServedInFull(bursts: seq<nat>, q: nat, j: nat)
    requires q >= 1 && j < |bursts|
    ensures var log := Expected(bursts, q, Rounds(bursts, q), 0);
            Served(log, j) == bursts[j] && Turns(log, j) == Slices(bursts[j], q)
  {
    var n := Rounds(bursts, q);
    ServedSoFar(bursts, q, n, 0, j);
    SlicesLeft(bursts[j], q, n);
  }

  /** Time used by each process after round r has reached process i. */
  function Used(bursts: seq<nat>, q: nat, r: nat, i: nat): (u: seq<int>)
    ensures |u| == |bursts|
    ensures forall j :: 0 <= j < |u| ==> u[j] == bursts[j] - Remaining(bursts[j], q, RoundsOf(r, i, j))
  {
    seq(|bursts|, j requires 0 <= j < |bursts| => bursts[j] - Remaining(bursts[j], q, RoundsOf(r, i, j)))
  }

  lemma UsedStep(bursts: seq<nat>, q: nat, r: nat, i: nat)
    requires i < |bursts|
    ensures Sum(Used(bursts, q, r, i + 1)) ==
            Sum(Used(bursts, q, r, i)) + Remaining(bursts[i], q, r) - Remaining(bursts[i], q, r + 1)
  {
    var u, v := Used(bursts, q, r, i), bursts[i] - Remaining(bursts[i], q, r + 1);
    assert Used(bursts, q, r, i + 1) == u[i := v];
    SumUpdate(u, i, v);
  }

  lemma UsedNone(bursts: seq<nat>, q: nat, r: nat)
    requires r == 0
    ensures Sum(Used(bursts, q, r, 0)) == 0
  {
    SumConstant(Used(bursts, q, r, 0), 0);
  }

  lemma UsedWrap(bursts: seq<nat>, q: nat, r: nat)
    ensures Used(bursts, q, r + 1, 0) == Used(bursts, q, r, |bursts|)
  {
  }

  lemma {:induction false} ElapsedSum(bursts: seq<nat>, q: nat, r: nat, i: nat)
    requires q >= 1 && i <= |bursts|
    ensures Elapsed(Expected(bursts, q, r, i)) == Sum(Used(bursts, q, r, i))
    decreases r, i
  {
    hide Elapsed, Used, Sum, Remaining, Slices;
    if i > 0 {
      hide Expected;
      ElapsedSum(bursts, q, r, i - 1);
      LogStep(bursts, q, r, i - 1, 0);
      UsedStep(bursts, q, r, i - 1);
    } else if r > 0 {
      ElapsedSum(bursts, q, r - 1, |bursts|);
      UsedWrap(bursts, q, r - 1);
    } else {
      UsedNone(bursts, q, r);
      NothingServed(0, q, 0);
    }
  }

  /** Process i, with n slices, finishes when the processes up to it have had n rounds
      and the others n - 1: the log up to and with its last slice lasts the sum of the
      times these rounds give. */
  lemma CompletionTime(bursts: seq<nat>, q: nat, i: nat, u: seq<int>)
    requires q >= 1 && i < |bursts| == |u|
    requires var n := Slices(bursts[i], q);
             forall j :: 0 <= j < |u| ==> u[j] == Min(bursts[j], q * (if j <= i then n else n - 1))
    ensures var n := Slices(bursts[i], q);
            var log := Expected(bursts, q, n - 1, i + 1);
            && log != [] && log[|log| - 1].id == i && Turns(log, i) == n && Served(log, i) == bursts[i]
            && Elapsed(log) == Sum(u)
  {
    var n := Slices(bursts[i], q);
    LastTurn(bursts, q, i);
    ElapsedSum(bursts, q, n - 1, i + 1);
    forall j | 0 <= j < |u| ensures u[j] == Used(bursts, q, n - 1, i + 1)[j] {
      RemainingClosed(bursts[j], q, RoundsOf(n - 1, i + 1, j));
    }
    assert u == Used(bursts, q, n - 1, i + 1);
  }

  lemma LastTurn(bursts: seq<nat>, q: nat, i: nat)
    requires q >= 1 && i < |bursts|
    ensures var n := Slices(bursts[i], q);
            var log := Expected(bursts, q, n - 1, i + 1);
            log != [] && log[|log| - 1].id == i && Turns(log, i) == n && Served(log, i) == bursts[i]
  {
    hide Served, Turns;
    var n := Slices(bursts[i], q);
    ServedSoFar(bursts, q, n - 1, i + 1, i);
    ExpectedStep(bursts, q, n - 1, i);
    SlicesLeft(bursts[i], q, n);
  }

  lemma {:induction false} SumGap(s: seq<int>, t: seq<int>, i: nat, q: nat)
    requires |s| == |t| && i < |s| && s[i] == t[i]
    requires forall j :: 0 <= j < |s| ==> s[j] <= t[j] <= s[j] + q
    ensures 0 <= Sum(t) - Sum(s) <= (|s| - 1) * q
    decreases |s|
  {
    var n := |s| - 1;
    if i < n {
      SumGap(s[..n], t[..n], i, q);
      assert n * q == (n - 1) * q + q;
    } else {
      SumGapAll(s[..n], t[..n], q);
    }
  }

  lemma {:induction false} SumGapAll(s: seq<int>, t: seq<int>, q: nat)
    requires |s| == |t| && forall j :: 0 <= j < |s| ==> s[j] <= t[j] <= s[j] + q
    ensures 0 <= Sum(t) - Sum(s) <= |s| * q
    decreases |s|
  {
    if s != [] {
      var n := |s| - 1;
      SumGapAll(s[..n], t[..n], q);
      assert |s| * q == n * q + q;
    }
  }

  /** Between two of its turns a process waits for at most one quantum of each other. */
  lemma BoundedWait(bursts: seq<nat>, q: nat, r: nat, i: nat)
    requires q >= 1 && i < |bursts|
    ensures var wait := Elapsed(Expected(bursts, q, r + 1, i)) - Elapsed(Expected(bursts, q, r, i + 1));
            0 <= wait <= (|bursts| - 1) * q
  {
    hide Expected, Elapsed, Sum;
    ElapsedSum(bursts, q, r + 1, i);
    ElapsedSum(bursts, q, r, i + 1);
    SumGap(Used(bursts, q, r, i + 1), Used(bursts, q, r + 1, i), i, q);
  }

  // ----- Order of positions -----

  /** Later positions only add to the log. */
  lemma {:induction false} ExpectedGrows(bursts: seq<nat>, q: nat, r: nat, i: nat, r': nat, i': nat)
    requires q >= 1 && i <= |bursts| && i' <= |bursts| && (r < r' || (r == r' && i <= i'))
    ensures Expected(bursts, q, r, i) <= Expected(bursts, q, r', i')
    decreases r', i'
  {
    if r != r' || i != i' {
      if i' > 0 {
        ExpectedGrows(bursts, q, r, i, r', i' - 1);
      } else {
        ExpectedGrows(bursts, q, r, i, r' - 1, |bursts|);
      }
    }
  }

  /** A round in which every process is done adds nothing. */
  lemma {:induction false} EmptyRound(bursts: seq<nat>, q: nat, r: nat, i: nat)
    requires q >= 1 && i <= |bursts| && Rounds(bursts, q) <= r
    ensures Expected(bursts, q, r, i) == Expected(bursts, q, Rounds(bursts, q), 0)
    decreases r, i
  {
    var n := Rounds(bursts, q);
    if i > 0 {
      EmptyRound(bursts, q, r, i - 1);
    } else if r > n {
      EmptyRound(bursts, q, r - 1, |bursts|);
    }
  }
}
