/** Threads that acquire a list of mutexes one by one and then release them in reverse:
    when such a program can deadlock, and why a global order prevents it. */
module LockOrder {
  import opened Sums

  /** A program lists the locks of a thread in the order it acquires them. */
  type Program = seq<nat>

  /** A thread at pc < m acquires lock number pc of its m locks; from m to 2m - 1 it
      releases them, last acquired first; at 2m it has returned. */
  datatype State = State(pc: seq<nat>, owner: map<nat, nat>)

  function Initial(progs: seq<Program>): State {
    State(seq(|progs|, _ => 0), map[])
  }

  predicate Finished(prog: Program, pc: nat) {
    pc == 2 * |prog|
  }

  predicate AllFinished(progs: seq<Program>, s: State)
    requires |s.pc| == |progs|
  {
    forall t :: 0 <= t < |progs| ==> Finished(progs[t], s.pc[t])
  }

  predicate Enabled(progs: seq<Program>, s: State, t: nat) {
    && t < |progs| == |s.pc|
    && if s.pc[t] < |progs[t]| then progs[t][s.pc[t]] !in s.owner else s.pc[t] < 2 * |progs[t]|
  }

  function Step(progs: seq<Program>, s: State, t: nat): State
    requires Enabled(progs, s, t)
  {
    var prog, pc := progs[t], s.pc[t];
    if pc < |prog| then State(s.pc[t := pc + 1], s.owner[prog[pc] := t])
    else State(s.pc[t := pc + 1], s.owner - {prog[2 * |prog| - 1 - pc]})
  }

  /** The schedule, a list of threads, takes state s to state s'. */
  ghost predicate Run(progs: seq<Program>, s: State, schedule: seq<nat>, s': State)
    decreases |schedule|
  {
    if schedule == [] then s == s'
    else
      var n := |schedule| - 1;
      exists mid :: Run(progs, s, schedule[..n], mid) && Enabled(progs, mid, schedule[n])
                    && Step(progs, mid, schedule[n]) == s'
  }

  lemma LastStep(progs: seq<Program>, s: State, schedule: seq<nat>, s': State) returns (mid: State)
    requires Run(progs, s, schedule, s') && schedule != []
    ensures var n := |schedule| - 1;
            Run(progs, s, schedule[..n], mid) && Enabled(progs, mid, schedule[n]) && Step(progs, mid, schedule[n]) == s'
  {
    var n := |schedule| - 1;
    mid :| Run(progs, s, schedule[..n], mid) && Enabled(progs, mid, schedule[n]) && Step(progs, mid, schedule[n]) == s';
  }

  lemma RunSnoc(progs: seq<Program>, s: State, schedule: seq<nat>, mid: State, t: nat)
    requires Run(progs, s, schedule, mid) && Enabled(progs, mid, t)
    ensures Run(progs, s, schedule + [t], Step(progs, mid, t))
  {
    assert (schedule + [t])[..|schedule|] == schedule;
  }

  ghost predicate Reachable(progs: seq<Program>, s: State) {
    exists schedule :: Run(progs, Initial(progs), schedule, s)
  }

  ghost predicate Stuck(progs: seq<Program>, s: State)
    requires |s.pc| == |progs|
  {
    !AllFinished(progs, s) && forall t :: !Enabled(progs, s, t)
  }

  /** The locks a thread at pc holds, in acquisition order. */
  function Held(prog: Program, pc: nat): seq<nat> {
    if pc <= |prog| then prog[..pc]
    else if pc <= 2 * |prog| then prog[..2 * |prog| - pc]
    else []
  }

  ghost predicate Distinct(s: seq<nat>) {
    forall i, j :: 0 <= i < j < |s| ==> s[i] != s[j]
  }

  ghost predicate OwnerOk(progs: seq<Program>, s: State, l: nat, t: nat)
    requires |s.pc| == |progs| && t < |progs|
  {
    (l in s.owner && s.owner[l] == t) <==> l in Held(progs[t], s.pc[t])
  }

  ghost predicate Inv(progs: seq<Program>, s: State) {
    && |s.pc| == |progs|
    && (forall t :: 0 <= t < |progs| ==> s.pc[t] <= 2 * |progs[t]| && Distinct(Held(progs[t], s.pc[t])))
    && (forall l :: l in s.owner ==> s.owner[l] < |progs|)
    && (forall l: nat, t: nat :: t < |progs| ==> OwnerOk(progs, s, l, t))
  }

  lemma InitialInv(progs: seq<Program>)
    ensures Inv(progs, Initial(progs))
  {
  }

  /** A lock is owned by exactly the thread that holds it, after every step. */
  lemma StepInv(progs: seq<Program>, s: State, t: nat)
    requires Inv(progs, s) && Enabled(progs, s, t)
    ensures Inv(progs, Step(progs, s, t))
  {
    var s', prog, pc := Step(progs, s, t), progs[t], s.pc[t];
    if pc < |prog| {
      assert OwnerOk(progs, s, prog[pc], t);
      assert Held(prog, pc + 1) == Held(prog, pc) + [prog[pc]];
      forall l: nat, u: nat | u < |progs| ensures OwnerOk(progs, s', l, u) {
        assert OwnerOk(progs, s, l, u) && OwnerOk(progs, s, prog[pc], u);
      }
    } else {
      var last := 2 * |prog| - 1 - pc;
      assert Held(prog, pc) == Held(prog, pc + 1) + [prog[last]];
      assert Held(prog, pc)[last] == prog[last];
      assert prog[last] !in Held(prog, pc + 1);
      forall l: nat, u: nat | u < |progs| ensures OwnerOk(progs, s', l, u) {
        assert OwnerOk(progs, s, l, u) && OwnerOk(progs, s, prog[last], u) && OwnerOk(progs, s, prog[last], t);
      }
    }
  }

  lemma {:induction false} RunInv(progs: seq<Program>, s: State, schedule: seq<nat>, s': State)
    requires Inv(progs, s) && Run(progs, s, schedule, s')
    ensures Inv(progs, s')
    decreases |schedule|
  {
    if schedule != [] {
      hide Inv;
      var n := |schedule| - 1;
      var mid := LastStep(progs, s, schedule, s');
      RunInv(progs, s, schedule[..n], mid);
      StepInv(progs, mid, schedule[n]);
    }
  }

  lemma ReachableInv(progs: seq<Program>, s: State)
    requires Reachable(progs, s)
    ensures Inv(progs, s)
  {
    var schedule :| Run(progs, Initial(progs), schedule, s);
    InitialInv(progs);
    RunInv(progs, Initial(progs), schedule, s);
  }

  /** Locks are released in the reverse of the order in which they were acquired: in every reachable
      state a thread owns the first of its locks, as many as it has acquired and not released. */
  lemma OwnsFirst(progs: seq<Program>, s: State, t: nat, l: nat)
    requires Reachable(progs, s) && t < |progs|
    ensures |s.pc| == |progs| && s.pc[t] <= 2 * |progs[t]|
    ensures var n := |progs[t]|;
            (l in s.owner && s.owner[l] == t) <==>
              l in progs[t][..if s.pc[t] <= n then s.pc[t] else 2 * n - s.pc[t]]
  {
    hide Reachable, Held;
    ReachableInv(progs, s);
    assert OwnerOk(progs, s, l, t);
    HeldIsFirst(progs[t], s.pc[t]);
  }

  lemma HeldIsFirst(prog: Program, pc: nat)
    requires pc <= 2 * |prog|
    ensures Held(prog, pc) == prog[..if pc <= |prog| then pc else 2 * |prog| - pc]
  {
  }

  // ----- Termination -----

  function Work(progs: seq<Program>, pc: seq<nat>): (w: seq<int>)
    requires |pc| == |progs|
    ensures |w| == |progs|
  {
    seq(|progs|, t requires 0 <= t < |progs| => 2 * |progs[t]| - pc[t])
  }

  lemma WorkStep(progs: seq<Program>, s: State, t: nat)
    requires |s.pc| == |progs| && Enabled(progs, s, t)
    ensures Sum(Work(progs, Step(progs, s, t).pc)) == Sum(Work(progs, s.pc)) - 1
  {
    var w := Work(progs, s.pc);
    assert Work(progs, Step(progs, s, t).pc) == w[t := w[t] - 1];
    SumUpdate(w, t, w[t] - 1);
  }

  /** Every run uses up one unit of work a step. */
  lemma {:induction false} RunLength(progs: seq<Program>, s: State, schedule: seq<nat>, s': State)
    requires |s.pc| == |progs| && Run(progs, s, schedule, s')
    ensures |s'.pc| == |progs| && Sum(Work(progs, s.pc)) == |schedule| + Sum(Work(progs, s'.pc))
    decreases |schedule|
  {
    if schedule != [] {
      hide Work, Sum;
      var n := |schedule| - 1;
      var mid := LastStep(progs, s, schedule, s');
      RunLength(progs, s, schedule[..n], mid);
      WorkStep(progs, mid, schedule[n]);
    }
  }

  lemma {:induction false} NonNegativeSum(w: seq<int>)
    requires forall i :: 0 <= i < |w| ==> w[i] >= 0
    ensures Sum(w) >= 0
    ensures Sum(w) == 0 <==> forall i :: 0 <= i < |w| ==> w[i] == 0
  {
    if w != [] {
      NonNegativeSum(w[..|w| - 1]);
      assert forall i :: 0 <= i < |w| - 1 ==> w[..|w| - 1][i] == w[i];
    }
  }

  lemma WorkLeft(progs: seq<Program>, s: State)
    requires Inv(progs, s)
    ensures Sum(Work(progs, s.pc)) >= 0
    ensures Sum(Work(progs, s.pc)) == 0 <==> AllFinished(progs, s)
  {
    var w := Work(progs, s.pc);
    NonNegativeSum(w);
    assert forall t :: 0 <= t < |progs| ==> (w[t] == 0 <==> Finished(progs[t], s.pc[t]));
  }

  /** Every run is bounded by the total work, and uses it up exactly when every thread
      has returned. */
  lemma RunsTerminate(progs: seq<Program>, schedule: seq<nat>, s: State)
    requires Run(progs, Initial(progs), schedule, s)
    ensures |s.pc| == |progs|
    ensures |schedule| <= Sum(Work(progs, Initial(progs).pc))
    ensures |schedule| == Sum(Work(progs, Initial(progs).pc)) <==> AllFinished(progs, s)
  {
    hide Run, Inv, Sum, Work, AllFinished;
    InitialInv(progs);
    RunInv(progs, Initial(progs), schedule, s);
    RunLength(progs, Initial(progs), schedule, s);
    WorkLeft(progs, s);
  }

  // ----- Global order -----

  /** Every thread acquires its locks in strictly ascending order. */
  ghost predicate Ordered(progs: seq<Program>) {
    forall t :: 0 <= t < |progs| ==> Ascending(progs[t])
  }

  ghost predicate Ascending(prog: Program) {
    forall i, j :: 0 <= i < j < |prog| ==> prog[i] < prog[j]
  }

  /** Thread t is blocked on a lock that thread u owns. */
  ghost predicate WaitsFor(progs: seq<Program>, s: State, t: nat, u: nat) {
    Blocked(progs, s, t) && s.owner[Wanted(progs, s, t)] == u
  }

  ghost predicate Blocked(progs: seq<Program>, s: State, t: nat) {
    t < |progs| == |s.pc| && s.pc[t] < |progs[t]| && progs[t][s.pc[t]] in s.owner
  }

  ghost function Wanted(progs: seq<Program>, s: State, t: nat): nat
    requires t < |progs| == |s.pc| && s.pc[t] < |progs[t]|
  {
    progs[t][s.pc[t]]
  }

  /** Along a wait-for edge the wanted lock grows. */
  lemma WantedGrows(progs: seq<Program>, s: State, t: nat, u: nat)
    requires Inv(progs, s) && Ordered(progs) && WaitsFor(progs, s, t, u) && Blocked(progs, s, u)
    ensures Wanted(progs, s, t) < Wanted(progs, s, u)
  {
    var l := Wanted(progs, s, t);
    assert OwnerOk(progs, s, l, u);
    assert Ascending(progs[u]);
  }

  ghost predicate WaitPath(progs: seq<Program>, s: State, path: seq<nat>) {
    |path| >= 2 ==> WaitsFor(progs, s, path[0], path[1]) && WaitPath(progs, s, path[1..])
  }

  lemma {:induction false} PathGrows(progs: seq<Program>, s: State, path: seq<nat>)
    requires Inv(progs, s) && Ordered(progs) && |path| >= 2 && WaitPath(progs, s, path)
    requires Blocked(progs, s, path[|path| - 1])
    ensures Blocked(progs, s, path[0])
    ensures Wanted(progs, s, path[0]) < Wanted(progs, s, path[|path| - 1])
  {
    if |path| > 2 {
      PathGrows(progs, s, path[1..]);
    }
    WantedGrows(progs, s, path[0], path[1]);
  }

  /** With a global order the wait-for relation has no cycle, in any reachable state. */
  lemma NoCircularWait(progs: seq<Program>, s: State, path: seq<nat>)
    requires Ordered(progs) && Reachable(progs, s)
    requires |path| >= 2 && WaitPath(progs, s, path)
    ensures path[0] != path[|path| - 1]
  {
    ReachableInv(progs, s);
    assert WaitsFor(progs, s, path[0], path[1]);
    if path[0] == path[|path| - 1] {
      PathGrows(progs, s, path);
    }
  }

  function MaxLock(prog: seq<nat>): (b: nat)
    ensures forall i :: 0 <= i < |prog| ==> prog[i] <= b
  {
    if prog == [] then 0
    else
      var b := MaxLock(prog[..|prog| - 1]);
      if prog[|prog| - 1] > b then prog[|prog| - 1] else b
  }

  function LockBound(progs: seq<Program>): (b: nat)
    ensures forall t, i :: 0 <= t < |progs| && 0 <= i < |progs[t]| ==> progs[t][i] <= b
  {
    if progs == [] then 0
    else
      var b, last := LockBound(progs[..|progs| - 1]), MaxLock(progs[|progs| - 1]);
      if last > b then last else b
  }

  /** Following owners from an unfinished thread ends at one that can step. */
  lemma {:induction false} Progress(progs: seq<Program>, s: State, t: nat) returns (u: nat)
    requires Inv(progs, s) && Ordered(progs)
    requires t < |progs| && !Finished(progs[t], s.pc[t])
    ensures Enabled(progs, s, u)
    decreases if s.pc[t] < |progs[t]| then 1 + LockBound(progs) - Wanted(progs, s, t) else 0
  {
    if Enabled(progs, s, t) {
      u := t;
    } else {
      var v := s.owner[Wanted(progs, s, t)];
      assert OwnerOk(progs, s, Wanted(progs, s, t), v);
      if Blocked(progs, s, v) {
        WantedGrows(progs, s, t, v);
      }
      u := Progress(progs, s, v);
    }
  }

  /** With a global order no reachable state is stuck. */
  lemma DeadlockFreedom(progs: seq<Program>, s: State)
    requires Ordered(progs) && Reachable(progs, s)
    ensures |s.pc| == |progs| && !Stuck(progs, s)
  {
    ReachableInv(progs, s);
    if !AllFinished(progs, s) {
      var t :| 0 <= t < |progs| && !Finished(progs[t], s.pc[t]);
      var u := Progress(progs, s, t);
    }
  }

  // ----- Exactly when a deadlock is possible -----

  /** A choice of how far each thread has come that closes a circle of waits: finished
      threads aside, each has acquired a prefix of its locks, no lock is in two prefixes
      or twice in one, and the next lock of each is in some prefix. */
  ghost predicate Crossing(progs: seq<Program>, at: seq<nat>) {
    && |at| == |progs|
    && (exists t :: 0 <= t < |progs| && !Finished(progs[t], at[t]))
    && (forall t :: 0 <= t < |progs| ==> WaitsOrDone(progs, at, t))
    && (forall t, u :: 0 <= t < |progs| && 0 <= u < |progs| && t != u ==> Disjoint(progs, at, t, u))
  }

  ghost predicate WaitsOrDone(progs: seq<Program>, at: seq<nat>, t: nat)
    requires t < |progs| == |at|
  {
    if Finished(progs[t], at[t]) then Distinct(progs[t])
    else at[t] < |progs[t]| && Distinct(progs[t][..at[t]]) && Taken(progs, at, progs[t][at[t]])
  }

  ghost predicate Taken(progs: seq<Program>, at: seq<nat>, l: nat)
    requires |progs| == |at|
  {
    exists u :: 0 <= u < |progs| && l in Held(progs[u], at[u])
  }

  ghost predicate Disjoint(progs: seq<Program>, at: seq<nat>, t: nat, u: nat)
    requires t < |progs| == |at| && u < |progs|
  {
    forall l :: l in Held(progs[t], at[t]) ==> l !in Held(progs[u], at[u])
  }

  /** A stuck state is a crossing, provided its finished threads had distinct locks. */
  lemma StuckIsCrossing(progs: seq<Program>, s: State)
    requires Inv(progs, s) && Stuck(progs, s)
    requires forall t :: 0 <= t < |progs| && Finished(progs[t], s.pc[t]) ==> Distinct(progs[t])
    ensures Crossing(progs, s.pc)
  {
    forall t | 0 <= t < |progs| ensures WaitsOrDone(progs, s.pc, t) {
      assert !Enabled(progs, s, t);
      if !Finished(progs[t], s.pc[t]) {
        var l := progs[t][s.pc[t]];
        assert OwnerOk(progs, s, l, s.owner[l]);
      }
    }
    forall t, u | 0 <= t < |progs| && 0 <= u < |progs| && t != u ensures Disjoint(progs, s.pc, t, u) {
      forall l | l in Held(progs[t], s.pc[t]) ensures l !in Held(progs[u], s.pc[u]) {
        assert OwnerOk(progs, s, l, t) && OwnerOk(progs, s, l, u);
      }
    }
  }

  /** A thread gets past its last lock only if its locks are distinct. */
  lemma {:induction false} PastLastDistinct(progs: seq<Program>, schedule: seq<nat>, s: State, t: nat)
    requires Run(progs, Initial(progs), schedule, s) && t < |progs|
    ensures Inv(progs, s) && (s.pc[t] >= |progs[t]| ==> Distinct(progs[t]))
    decreases |schedule|
  {
    InitialInv(progs);
    RunInv(progs, Initial(progs), schedule, s);
    if schedule != [] {
      var n := |schedule| - 1;
      var mid := LastStep(progs, Initial(progs), schedule, s);
      hide Run;
      PastLastDistinct(progs, schedule[..n], mid, t);
      if s.pc[t] == |progs[t]| {
        assert Held(progs[t], s.pc[t]) == progs[t];
      }
    } else {
      assert s.pc[t] == |progs[t]| ==> progs[t] == [];
    }
  }

  ghost predicate ReachablePc(progs: seq<Program>, pc: seq<nat>) {
    exists s :: Reachable(progs, s) && s.pc == pc
  }

  lemma OwnedIsTaken(progs: seq<Program>, s: State, l: nat)
    requires Inv(progs, s) && l in s.owner
    ensures Taken(progs, s.pc, l)
  {
    assert OwnerOk(progs, s, l, s.owner[l]);
  }

  lemma Extend(progs: seq<Program>, pc: seq<nat>, t: nat)
    requires ReachablePc(progs, pc) && t < |progs| == |pc|
    requires if pc[t] < |progs[t]| then !Taken(progs, pc, progs[t][pc[t]]) else pc[t] < 2 * |progs[t]|
    ensures ReachablePc(progs, pc[t := pc[t] + 1])
  {
    hide Inv, Run, Taken;
    var s :| Reachable(progs, s) && s.pc == pc;
    var schedule :| Run(progs, Initial(progs), schedule, s);
    ReachableInv(progs, s);
    if pc[t] < |progs[t]| && progs[t][pc[t]] in s.owner {
      OwnedIsTaken(progs, s, progs[t][pc[t]]);
    }
    RunSnoc(progs, Initial(progs), schedule, s, t);
    assert Reachable(progs, Step(progs, s, t));
  }

  lemma {:induction false} ExtendTo(progs: seq<Program>, pc: seq<nat>, t: nat, goal: nat)
    requires ReachablePc(progs, pc) && t < |progs| == |pc| && pc[t] <= goal <= 2 * |progs[t]|
    requires forall i :: pc[t] <= i < goal && i < |progs[t]| ==> FreeForOthers(progs, pc, t, progs[t][i])
    requires Distinct(progs[t][..if goal < |progs[t]| then goal else |progs[t]|])
    ensures ReachablePc(progs, pc[t := goal])
    decreases goal - pc[t]
  {
    if pc[t] < goal {
      if pc[t] < |progs[t]| {
        var l := progs[t][pc[t]];
        var m := if goal < |progs[t]| then goal else |progs[t]|;
        var mine := progs[t][..m];
        assert mine[pc[t]] == l && Held(progs[t], pc[t]) == mine[..pc[t]];
        assert FreeForOthers(progs, pc, t, l);
      }
      Extend(progs, pc, t);
      var pc' := pc[t := pc[t] + 1];
      forall i | pc'[t] <= i < goal && i < |progs[t]| ensures FreeForOthers(progs, pc', t, progs[t][i]) {
        assert FreeForOthers(progs, pc, t, progs[t][i]);
      }
      ExtendTo(progs, pc', t, goal);
      assert pc'[t := goal] == pc[t := goal];
    } else {
      assert pc[t := goal] == pc;
    }
  }

  ghost predicate FreeForOthers(progs: seq<Program>, pc: seq<nat>, t: nat, l: nat)
    requires |pc| == |progs|
  {
    forall u :: 0 <= u < |progs| && u != t ==> l !in Held(progs[u], pc[u])
  }

  /** The finished threads among the first n have run to their end. */
  function DoneFirst(progs: seq<Program>, at: seq<nat>, n: nat): seq<nat>
    requires |at| == |progs|
  {
    seq(|progs|, t requires 0 <= t < |progs| => if t < n && Finished(progs[t], at[t]) then at[t] else 0)
  }

  lemma {:induction false} FinishSome(progs: seq<Program>, at: seq<nat>, n: nat)
    requires Crossing(progs, at) && n <= |progs|
    ensures ReachablePc(progs, DoneFirst(progs, at, n))
  {
    if n == 0 {
      assert Run(progs, Initial(progs), [], Initial(progs));
      assert DoneFirst(progs, at, 0) == Initial(progs).pc;
    } else {
      var t, pc := n - 1, DoneFirst(progs, at, n - 1);
      FinishSome(progs, at, t);
      NothingHeld(progs, at, t);
      assert WaitsOrDone(progs, at, t);
      if Finished(progs[t], at[t]) {
        hide DoneFirst, Held;
        assert progs[t][..|progs[t]|] == progs[t];
        ExtendTo(progs, pc, t, at[t]);
      }
    }
  }

  lemma NothingHeld(progs: seq<Program>, at: seq<nat>, t: nat)
    requires t < |progs| == |at|
    ensures var pc := DoneFirst(progs, at, t);
            && (forall l :: FreeForOthers(progs, pc, t, l))
            && DoneFirst(progs, at, t + 1) == (if Finished(progs[t], at[t]) then pc[t := at[t]] else pc)
  {
    var pc := DoneFirst(progs, at, t);
    assert forall u :: 0 <= u < |progs| ==> Held(progs[u], pc[u]) == [];
  }

  /** The first n threads stand at their place in the crossing. */
  function Placed(progs: seq<Program>, at: seq<nat>, n: nat): seq<nat>
    requires |at| == |progs|
  {
    seq(|progs|, t requires 0 <= t < |progs| => if t < n || Finished(progs[t], at[t]) then at[t] else 0)
  }

  lemma {:induction false} PlaceSome(progs: seq<Program>, at: seq<nat>, n: nat)
    requires Crossing(progs, at) && n <= |progs|
    ensures ReachablePc(progs, Placed(progs, at, n))
  {
    if n == 0 {
      FinishSome(progs, at, |progs|);
      assert DoneFirst(progs, at, |progs|) == Placed(progs, at, 0);
    } else {
      var t, pc := n - 1, Placed(progs, at, n - 1);
      PlaceSome(progs, at, t);
      assert WaitsOrDone(progs, at, t);
      assert Placed(progs, at, n) == pc[t := at[t]];
      if !Finished(progs[t], at[t]) {
        forall i | 0 <= i < at[t] ensures FreeForOthers(progs, pc, t, progs[t][i]) {
          assert progs[t][i] in Held(progs[t], at[t]);
          forall u | 0 <= u < |progs| && u != t ensures progs[t][i] !in Held(progs[u], pc[u]) {
            assert Disjoint(progs, at, t, u);
          }
        }
        ExtendTo(progs, pc, t, at[t]);
      }
    }
  }

  lemma CrossingIsReached(progs: seq<Program>, at: seq<nat>)
    requires Crossing(progs, at)
    ensures exists s :: Reachable(progs, s) && s.pc == at && Stuck(progs, s)
  {
    PlaceSome(progs, at, |progs|);
    assert Placed(progs, at, |progs|) == at;
    var s :| Reachable(progs, s) && s.pc == at;
    ReachableInv(progs, s);
    forall t: nat ensures !Enabled(progs, s, t) {
      if t < |progs| && !Finished(progs[t], at[t]) {
        assert WaitsOrDone(progs, at, t);
        var u :| 0 <= u < |progs| && progs[t][at[t]] in Held(progs[u], at[u]);
        assert OwnerOk(progs, s, progs[t][at[t]], u);
      }
    }
  }

  /** A set of programs can deadlock exactly when it has a crossing. */
  lemma DeadlockIffCrossing(progs: seq<Program>)
    ensures (exists s :: Reachable(progs, s) && |s.pc| == |progs| && Stuck(progs, s))
            <==> exists at :: Crossing(progs, at)
  {
    if s :| Reachable(progs, s) && |s.pc| == |progs| && Stuck(progs, s) {
      ReachableInv(progs, s);
      var schedule :| Run(progs, Initial(progs), schedule, s);
      forall t | 0 <= t < |progs| && Finished(progs[t], s.pc[t]) ensures Distinct(progs[t]) {
        PastLastDistinct(progs, schedule, s, t);
      }
      StuckIsCrossing(progs, s);
    }
    if at :| Crossing(progs, at) {
      CrossingIsReached(progs, at);
    }
  }

  // ----- The two builds of the demonstration -----

  /** Both threads take resource 1 before resource 2. */
  const SAFE: seq<Program> := [[1, 2], [1, 2]]

  /** The threads take the two resources in opposite orders. */
  const UNSAFE: seq<Program> := [[1, 2], [2, 1]]

  lemma SafeBuild(s: State)
    requires Reachable(SAFE, s)
    ensures |s.pc| == 2 && !Stuck(SAFE, s)
  {
    DeadlockFreedom(SAFE, s);
  }

  lemma UnsafeBuild()
    ensures exists s :: Reachable(UNSAFE, s) && |s.pc| == 2 && Stuck(UNSAFE, s)
  {
    assert Held(UNSAFE[0], 1) == [1] && Held(UNSAFE[1], 1) == [2];
    assert 2 in Held(UNSAFE[1], 1) && 1 in Held(UNSAFE[0], 1);
    assert Crossing(UNSAFE, [1, 1]);
    CrossingIsReached(UNSAFE, [1, 1]);
  }
}
