/** Whole runs of the scheduler: one control token, no deadlock, termination, and the
    same slices in the same order under every interleaving. */
module DispatcherRuns {
  import opened Options
  import opened Sums
  import opened RoundRobin
  import opened Dispatcher

  lemma ReachableInv(c: Config, s: State)
    requires Valid(c) && Reachable(c, s)
    ensures Inv(c, s)
  {
    var schedule :| Exec(c, schedule) == Some(s);
    ExecInv(c, schedule);
  }

  // ----- One control token -----

  /** From taking the turn to reporting the slice done. */
  predicate InSlice(pc: WorkerPc) {
    pc in {Lock1, SetRunning, ReadRemaining, Unlock1, Burst, Lock2, Charge, SetState, Unlock2, PostDone}
  }

  function Tokens(c: Config, s: State): (w: seq<int>)
    requires Sized(c, s)
    ensures |w| == |c.bursts|
    ensures forall j :: 0 <= j < |w| ==> w[j] == s.turn[j] + (if InSlice(s.workers[j].pc) then 1 else 0)
  {
    seq(|c.bursts|, j requires 0 <= j < |c.bursts| => s.turn[j] + (if InSlice(s.workers[j].pc) then 1 else 0))
  }

  lemma SumSingle(w: seq<int>, i: nat)
    requires i < |w| && forall j :: 0 <= j < |w| && j != i ==> w[j] == 0
    ensures Sum(w) == w[i]
  {
    var zeros := seq(|w|, _ => 0);
    SumConstant(zeros, 0);
    SumUpdate(zeros, i, w[i]);
    assert w == zeros[i := w[i]];
  }

  lemma IdleToken(c: Config, s: State, j: nat, e: nat)
    requires Valid(c) && Sized(c, s) && j < |c.bursts| && IdleAt(c, s, j, e)
    ensures s.turn[j] == 0 && !InSlice(s.workers[j].pc) && s.pcbs[j].state != Running
  {
  }

  lemma ActiveToken(burst: nat, q: nat, r: nat, w: Worker, p: Pcb, turn: nat)
    requires q >= 1 && Active(burst, q, r, w, p, turn)
    ensures turn + (if InSlice(w.pc) then 1 else 0) == 1
  {
    hide Slices, Remaining, SliceTime;
  }

  lemma TokenAtMain(c: Config, s: State, r: nat, i: nat)
    requires Valid(c) && Sized(c, s) && i <= |c.bursts| && AtMain(c, s, r, i)
    ensures Sum(Tokens(c, s)) == 0
    ensures forall j :: 0 <= j < |c.bursts| ==> s.turn[j] == 0
  {
    hide Expected, IdleAt, Sum, InSlice;
    forall j | 0 <= j < |c.bursts| ensures s.turn[j] == 0 && Tokens(c, s)[j] == 0 {
      IdleToken(c, s, j, RoundsOf(r, i, j));
    }
    SumSingle(Tokens(c, s), 0);
  }

  lemma TokenAtWorker(c: Config, s: State, r: nat, i: nat)
    requires Valid(c) && Sized(c, s) && i < |c.bursts| && AtWorker(c, s, r, i)
    ensures Sum(Tokens(c, s)) + s.done == 1
    ensures forall j :: 0 <= j < |c.bursts| ==> s.turn[j] <= 1
  {
    hide Expected, Slices, IdleAt, Active, Sum, InSlice;
    forall j | 0 <= j < |c.bursts| && j != i ensures s.turn[j] == 0 && Tokens(c, s)[j] == 0 {
      IdleToken(c, s, j, RoundsOf(r, i, j));
    }
    if s.done == 0 {
      ActiveToken(c.bursts[i], c.q, r, s.workers[i], s.pcbs[i], s.turn[i]);
    } else {
      IdleToken(c, s, i, r + 1);
    }
    SumSingle(Tokens(c, s), i);
  }

  /** In every reachable state exactly one of these holds control: the dispatcher, a
      granted turn, a thread in its slice, or a report on its way. */
  lemma OneToken(c: Config, s: State)
    requires Valid(c) && Reachable(c, s)
    ensures Sized(c, s)
    ensures (if s.pc == WaitDone then 0 else 1) + Sum(Tokens(c, s)) + s.done == 1
    ensures s.done <= 1 && forall j :: 0 <= j < |c.bursts| ==> s.turn[j] <= 1
  {
    ReachableInv(c, s);
    assert s.pc == WaitDone ==> s.i < |c.bursts|;
    hide Expected, MainOk, Sum, IdleAt, Active, Tokens;
    if s.pc == WaitDone {
      TokenAtWorker(c, s, Round(s), s.i);
    } else {
      TokenAtMain(c, s, Round(s), Index(s));
    }
  }

  /** At most one process is running at any time. */
  lemma OneRunning(c: Config, s: State, j: nat, k: nat)
    requires Valid(c) && Reachable(c, s) && Sized(c, s) && j < |c.bursts| && k < |c.bursts|
    requires s.pcbs[j].state == Running && s.pcbs[k].state == Running
    ensures j == k && s.pc == WaitDone && s.i == j
  {
    ReachableInv(c, s);
    hide Expected, Remaining, Slices, Rounds, CountDone, MainOk, Idle, Active;
    RunningIsActive(c, s, j);
    RunningIsActive(c, s, k);
  }

  lemma RunningIsActive(c: Config, s: State, j: nat)
    requires Inv(c, s) && j < |c.bursts| && s.pcbs[j].state == Running
    ensures s.pc == WaitDone && s.i == j
  {
    hide Expected, Remaining, Slices, Rounds, CountDone, MainOk, Idle, Active;
    if s.pc != WaitDone {
      IdleToken(c, s, j, RoundsOf(Round(s), Index(s), j));
    } else if s.i != j {
      IdleToken(c, s, j, RoundsOf(Round(s), s.i, j));
    }
  }

  // ----- No deadlock -----

  ghost predicate Final(c: Config, s: State) {
    s.pc == Returned
  }

  lemma ActiveCanStep(c: Config, s: State)
    requires Inv(c, s) && s.pc == WaitDone && s.done == 0
    ensures WorkerNext(c, s, s.i).Some?
  {
    hide Expected, Remaining, Slices, Rounds, CountDone, IdleAt, SliceTime;
  }

  lemma JoinCanStep(c: Config, s: State)
    requires Inv(c, s) && s.pc == Join && s.i < |c.bursts| && s.workers[s.i].pc != Exited
    ensures WorkerNext(c, s, s.i).Some?
  {
    assert IdleAt(c, s, s.i, RoundsOf(Round(s), Index(s), s.i));
    hide Remaining, Expected, CountDone;
  }

  /** In every reachable state that is not final, some actor can step. */
  lemma NoDeadlock(c: Config, s: State) returns (a: nat)
    requires Valid(c) && Reachable(c, s) && !Final(c, s)
    ensures Sized(c, s) && Next(c, s, a).Some?
  {
    ReachableInv(c, s);
    hide Expected, Remaining, Slices, Rounds, CountDone, IdleAt, Active;
    if s.pc == WaitDone && s.done == 0 {
      a := s.i;
      ActiveCanStep(c, s);
    } else if s.pc == Join && s.i < |c.bursts| && s.workers[s.i].pc != Exited {
      a := s.i;
      JoinCanStep(c, s);
    } else {
      a := |c.bursts|;
    }
  }

  // ----- Termination -----

  /** Steps the main thread may still take, counted generously. */
  function MainRank(c: Config, s: State): int
    requires Valid(c)
  {
    var n, left := |c.bursts|, Rounds(c.bursts, c.q) + 1 - s.passes;
    var pass := PassRank(left, n);
    match s.pc
    case Create => n - s.i + 1 + pass + n + 2
    case WhileTest => pass + n + 2
    case ForTest => pass + n + 2 + 6 * (n - s.i) + 1
    case Lock => pass + n + 2 + 6 * (n - s.i)
    case ReadState => pass + n + 2 + 6 * (n - s.i) - 1
    case Unlock => pass + n + 2 + 6 * (n - s.i) - 2
    case Branch => pass + n + 2 + 6 * (n - s.i) - 3
    case WaitDone => pass + n + 2 + 6 * (n - s.i) - 4
    case Join => n - s.i + 1
    case Returned => 0
  }

  /** Steps for the given number of passes over n processes. */
  function PassRank(passes: int, n: nat): nat {
    if passes <= 0 then 0 else PassRank(passes - 1, n) + 6 * n + 2
  }

  function WorkerRank(burst: nat, q: nat, w: Worker): int
    requires q >= 1
  {
    12 * (Slices(burst, q) - w.turns) +
    match w.pc
    case Lock1 => 11
    case SetRunning => 10
    case ReadRemaining => 9
    case Unlock1 => 8
    case Burst => 7
    case Lock2 => 6
    case Charge => 5
    case SetState => 4
    case Unlock2 => 3
    case PostDone => 2
    case LoopTest => 1
    case _ => 0
  }

  function WorkerRanks(c: Config, s: State): (w: seq<int>)
    requires Valid(c) && Sized(c, s)
    ensures |w| == |c.bursts|
    ensures forall j :: 0 <= j < |w| ==> w[j] == WorkerRank(c.bursts[j], c.q, s.workers[j])
  {
    seq(|c.bursts|, j requires 0 <= j < |c.bursts| => WorkerRank(c.bursts[j], c.q, s.workers[j]))
  }

  function Rank(c: Config, s: State): int
    requires Valid(c) && Sized(c, s)
  {
    MainRank(c, s) + Sum(WorkerRanks(c, s))
  }

  lemma WorkerRankStep(c: Config, s: State, t: nat)
    requires Valid(c) && Sized(c, s) && t < |c.bursts| && WorkerNext(c, s, t).Some?
    ensures var s' := WorkerNext(c, s, t).value;
            && Sized(c, s') && s'.pc == s.pc && s'.i == s.i && s'.passes == s.passes
            && s'.workers == s.workers[t := s'.workers[t]]
            && WorkerRank(c.bursts[t], c.q, s'.workers[t]) < WorkerRank(c.bursts[t], c.q, s.workers[t])
  {
    hide Slices;
  }

  lemma WorkerDecreases(c: Config, s: State, t: nat)
    requires Valid(c) && Sized(c, s) && t < |c.bursts| && WorkerNext(c, s, t).Some?
    ensures Sized(c, WorkerNext(c, s, t).value)
    ensures Rank(c, WorkerNext(c, s, t).value) < Rank(c, s)
  {
    WorkerRankStep(c, s, t);
    hide Slices, Rounds, PassRank, WorkerNext, WorkerRank, Sum;
    var s', w := WorkerNext(c, s, t).value, WorkerRanks(c, s);
    var v := WorkerRank(c.bursts[t], c.q, s'.workers[t]);
    assert WorkerRanks(c, s') == w[t := v];
    SumUpdate(w, t, v);
  }

  lemma MainRankStep(c: Config, s: State)
    requires Valid(c) && Sized(c, s) && MainNext(c, s).Some?
    requires MainNext(c, s).value.passes <= Rounds(c.bursts, c.q) + 1
    requires s.i <= |c.bursts| && (s.pc in {Lock, ReadState, Unlock, Branch, WaitDone} ==> s.i < |c.bursts|)
    ensures MainRank(c, MainNext(c, s).value) < MainRank(c, s)
  {
    hide Rounds;
  }

  lemma MainKeepsRanks(c: Config, s: State)
    requires Valid(c) && Sized(c, s) && MainNext(c, s).Some?
    requires s.pc == Create && s.i < |c.bursts| ==> s.workers[s.i].pc == NotCreated
    ensures Sized(c, MainNext(c, s).value)
    ensures WorkerRanks(c, MainNext(c, s).value) == WorkerRanks(c, s)
  {
    hide Slices;
  }

  lemma MainDecreases(c: Config, s: State)
    requires Inv(c, s) && MainNext(c, s).Some?
    ensures Sized(c, MainNext(c, s).value)
    ensures Rank(c, MainNext(c, s).value) < Rank(c, s)
  {
    MainStep(c, s);
    hide Slices, Rounds, AtMain, AtWorker, CountDone, MainNext, Sum, MainRank;
    MainRankStep(c, s);
    MainKeepsRanks(c, s);
  }

  /** The bound on the length of all runs. */
  function Bound(c: Config): int
    requires Valid(c)
  {
    Rank(c, Initial(c))
  }

  lemma {:induction false} RankUsed(c: Config, schedule: seq<nat>)
    requires Valid(c) && Exec(c, schedule).Some?
    ensures Sized(c, Exec(c, schedule).value)
    ensures Rank(c, Exec(c, schedule).value) + |schedule| <= Bound(c)
  {
    hide Rank, Inv;
    if schedule != [] {
      var n := |schedule| - 1;
      RankUsed(c, schedule[..n]);
      ExecInv(c, schedule[..n]);
      var mid := Exec(c, schedule[..n]).value;
      if schedule[n] < |c.bursts| {
        WorkerDecreases(c, mid, schedule[n]);
      } else {
        MainDecreases(c, mid);
      }
    }
  }

  lemma WorkerRankNatural(c: Config, s: State, j: nat)
    requires Inv(c, s) && j < |c.bursts|
    ensures WorkerRank(c.bursts[j], c.q, s.workers[j]) >= 0
  {
    hide Expected, Remaining, Rounds, CountDone, MainOk, Slices;
    if s.pc != WaitDone {
      assert IdleAt(c, s, j, RoundsOf(Round(s), Index(s), j));
    } else if s.i != j {
      assert IdleAt(c, s, j, RoundsOf(Round(s), s.i, j));
    } else if s.done == 1 {
      assert IdleAt(c, s, j, Round(s) + 1);
    }
  }

  lemma RankNatural(c: Config, s: State)
    requires Inv(c, s)
    ensures Rank(c, s) >= 0
  {
    var w, zeros := WorkerRanks(c, s), seq(|c.bursts|, _ => 0);
    forall j | 0 <= j < |c.bursts| ensures w[j] >= 0 {
      WorkerRankNatural(c, s, j);
    }
    SumConstant(zeros, 0);
    SumMonotone(zeros, w);
    hide Slices, Rounds, AtMain, AtWorker, CountDone;
  }

  /** No run is longer than the bound. */
  lemma RunsTerminate(c: Config, schedule: seq<nat>)
    requires Valid(c) && Exec(c, schedule).Some?
    ensures |schedule| <= Bound(c)
  {
    RankUsed(c, schedule);
    ExecInv(c, schedule);
    RankNatural(c, Exec(c, schedule).value);
  }

  /** Every run can be continued to a final state; by the bound it must get there. */
  lemma {:induction false} Completes(c: Config, schedule: seq<nat>) returns (rest: seq<nat>)
    requires Valid(c) && Exec(c, schedule).Some?
    ensures Exec(c, schedule + rest).Some? && Final(c, Exec(c, schedule + rest).value)
    decreases Bound(c) - |schedule|
  {
    var s := Exec(c, schedule).value;
    RunsTerminate(c, schedule);
    if Final(c, s) {
      rest := [];
      assert schedule + rest == schedule;
    } else {
      hide Next, Bound;
      assert Reachable(c, s);
      var a := NoDeadlock(c, s);
      assert (schedule + [a])[..|schedule|] == schedule;
      RunsTerminate(c, schedule + [a]);
      rest := Completes(c, schedule + [a]);
      assert schedule + [a] + rest == schedule + ([a] + rest);
      rest := [a] + rest;
    }
  }

  // ----- Outcome -----

  /** The slices round robin prescribes. */
  function FullLog(c: Config): seq<Slice>
    requires Valid(c)
  {
    Expected(c.bursts, c.q, Rounds(c.bursts, c.q), 0)
  }

  lemma PositionPrefix(c: Config, r: nat, i: nat)
    requires Valid(c) && i <= |c.bursts| && r <= Rounds(c.bursts, c.q) + 1
    ensures Expected(c.bursts, c.q, r, i) <= FullLog(c)
  {
    var n, last := |c.bursts|, Rounds(c.bursts, c.q);
    hide Expected, Rounds;
    ExpectedGrows(c.bursts, c.q, r, i, last + 1, n);
    EmptyRound(c.bursts, c.q, last + 1, n);
  }

  /** Under every interleaving the slices run so far are the first ones of the
      sequential round robin. */
  lemma SameSlices(c: Config, s: State)
    requires Valid(c) && Reachable(c, s)
    ensures s.log <= FullLog(c)
  {
    ReachableInv(c, s);
    hide Expected, Remaining, Slices, Rounds, CountDone, IdleAt, Active, FullLog;
    if s.pc == WaitDone {
      PositionPrefix(c, Round(s), s.i);
      PositionPrefix(c, Round(s), s.i + 1);
    } else {
      PositionPrefix(c, Round(s), Index(s));
    }
  }

  /** Every final state: the whole round robin has run, in Rounds + 1 passes, every
      process is done with no time left, every thread has exited, no semaphore is up. */
  lemma FinalOutcome(c: Config, s: State)
    requires Valid(c) && Reachable(c, s) && Final(c, s)
    ensures Sized(c, s) && s.log == FullLog(c) && s.passes == Rounds(c.bursts, c.q) + 1
    ensures s.done == 0 && s.lock == Free
    ensures forall j :: 0 <= j < |c.bursts| ==>
              s.pcbs[j] == Pcb(0, Done) && s.workers[j].pc == Exited && s.turn[j] == 0
  {
    ReachableInv(c, s);
    EmptyRound(c.bursts, c.q, s.passes, 0);
    forall j | 0 <= j < |c.bursts| ensures s.pcbs[j] == Pcb(0, Done) && s.turn[j] == 0 {
      assert IdleAt(c, s, j, RoundsOf(Round(s), Index(s), j));
      SlicesLeft(c.bursts[j], c.q, s.passes);
    }
  }

  /** In no reachable state has a process less than no time left. */
  lemma RemainingNatural(c: Config, s: State, j: nat)
    requires Valid(c) && Reachable(c, s) && Sized(c, s) && j < |c.bursts|
    ensures 0 <= s.pcbs[j].remaining <= c.bursts[j]
  {
    ReachableInv(c, s);
    hide Expected, Rounds, CountDone, MainOk, Slices;
    forall e: nat ensures 0 <= Remaining(c.bursts[j], c.q, e) <= c.bursts[j] {
      RemainingClosed(c.bursts[j], c.q, e);
      assert c.q * e >= 0;
    }
    if s.pc != WaitDone {
      assert IdleAt(c, s, j, RoundsOf(Round(s), Index(s), j));
    } else if s.i != j {
      assert IdleAt(c, s, j, RoundsOf(Round(s), s.i, j));
    }
  }
}
