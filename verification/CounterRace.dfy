/** Threads that each increment two shared counters k times, one with a split read and
    write, one under a mutex: the exact range of final values over all interleavings. */
module CounterRace {
  import opened Options
  import opened Sums

  /** Where a thread is in its loop: at the loop test, between the read and the write of
      the unprotected counter, waiting for the mutex, between lock and read, between read
      and write of the protected counter, before the unlock, or returned. */
  datatype Pc = Top | HasTemp | AtLock | InLock | HasReg | AtUnlock | Exited

  /** The loop variable, the local copy of the unprotected counter, and the register
      used to increment the protected one. */
  datatype Thread = Thread(pc: Pc, i: nat, temp: int, reg: int)

  datatype State = State(unprotected: int, guarded: int, lock: Option<nat>, threads: seq<Thread>)

  function Initial(n: nat): State {
    State(0, 0, None, seq(n, _ => Thread(Top, 0, 0, 0)))
  }

  /** One atomic step of thread t; None when it is blocked or has returned. */
  function Next(k: nat, s: State, t: nat): Option<State> {
    if t >= |s.threads| then None
    else
      var th := s.threads[t];
      match th.pc
      case Top =>
        if th.i < k then Some(Set(s, t, th.(pc := HasTemp, temp := s.unprotected)))
        else Some(Set(s, t, th.(pc := Exited)))
      case HasTemp => Some(Set(s, t, th.(pc := AtLock)).(unprotected := th.temp + 1))
      case AtLock => if s.lock.None? then Some(Set(s, t, th.(pc := InLock)).(lock := Some(t))) else None
      case InLock => Some(Set(s, t, th.(pc := HasReg, reg := s.guarded)))
      case HasReg => Some(Set(s, t, th.(pc := AtUnlock)).(guarded := th.reg + 1))
      case AtUnlock => Some(Set(s, t, Thread(Top, th.i + 1, 0, 0)).(lock := None))
      case Exited => None
  }

  function Set(s: State, t: nat, th: Thread): State
    requires t < |s.threads|
  {
    s.(threads := s.threads[t := th])
  }

  /** Runs a schedule, a list of threads; None when one of them could not step. */
  function Exec(k: nat, s: State, schedule: seq<nat>): Option<State> {
    if schedule == [] then Some(s)
    else
      var n := |schedule| - 1;
      match Exec(k, s, schedule[..n])
      case None => None
      case Some(mid) => Next(k, mid, schedule[n])
  }

  predicate Final(s: State) {
    forall t :: 0 <= t < |s.threads| ==> s.threads[t].pc == Exited
  }

  // ----- Invariant -----

  predicate Holding(th: Thread) {
    th.pc in {InLock, HasReg, AtUnlock}
  }

  /** Unprotected writes the thread has done. */
  function Writes(th: Thread): nat {
    th.i + (if th.pc in {AtLock, InLock, HasReg, AtUnlock} then 1 else 0)
  }

  /** Protected increments the thread has done. */
  function Guarded(th: Thread): nat {
    th.i + (if th.pc == AtUnlock then 1 else 0)
  }

  function WritesOf(s: State): (w: seq<int>)
    ensures |w| == |s.threads| && forall t :: 0 <= t < |w| ==> w[t] == Writes(s.threads[t])
  {
    seq(|s.threads|, t requires 0 <= t < |s.threads| => Writes(s.threads[t]))
  }

  function GuardedOf(s: State): (w: seq<int>)
    ensures |w| == |s.threads| && forall t :: 0 <= t < |w| ==> w[t] == Guarded(s.threads[t])
  {
    seq(|s.threads|, t requires 0 <= t < |s.threads| => Guarded(s.threads[t]))
  }

  ghost predicate ThreadOk(k: nat, s: State, t: nat)
    requires t < |s.threads|
  {
    var th := s.threads[t];
    && th.i <= k
    && (th.pc == Exited ==> th.i == k)
    && (th.pc !in {Top, Exited} ==> th.i < k)
    && (Holding(th) <==> s.lock == Some(t))
    && (th.pc == HasReg ==> th.reg == s.guarded)
    && (th.pc == HasTemp ==> 0 <= th.temp <= Sum(WritesOf(s)))
    && (Writes(th) > 0 ==> s.unprotected >= 1)
    && (Writes(th) > 0 && th.pc == HasTemp ==> th.temp >= 1)
    && (|s.threads| == 1 ==> s.unprotected == Writes(th) && (th.pc == HasTemp ==> th.temp == Writes(th)))
  }

  ghost predicate AllWritten(k: nat, s: State) {
    forall t :: 0 <= t < |s.threads| ==> Writes(s.threads[t]) == k
  }

  ghost predicate Inv(k: nat, s: State) {
    && |s.threads| >= 1
    && (s.lock.Some? ==> s.lock.value < |s.threads|)
    && (forall t :: 0 <= t < |s.threads| ==> ThreadOk(k, s, t))
    && s.guarded == Sum(GuardedOf(s))
    && 0 <= s.unprotected <= Sum(WritesOf(s))
    && (k >= 2 && AllWritten(k, s) ==> s.unprotected >= 2)
  }

  lemma InitialInv(k: nat, n: nat)
    requires n >= 1
    ensures Inv(k, Initial(n))
  {
    SumConstant(WritesOf(Initial(n)), 0);
    SumConstant(GuardedOf(Initial(n)), 0);
  }

  /** How one step changes the two sums. */
  lemma StepSums(k: nat, s: State, t: nat)
    requires Next(k, s, t).Some?
    ensures var s', th := Next(k, s, t).value, s.threads[t];
            && Sum(WritesOf(s')) == Sum(WritesOf(s)) + (if th.pc == HasTemp then 1 else 0)
            && Sum(GuardedOf(s')) == Sum(GuardedOf(s)) + (if th.pc == HasReg then 1 else 0)
  {
    var s', w, g := Next(k, s, t).value, WritesOf(s), GuardedOf(s);
    assert WritesOf(s') == w[t := Writes(s'.threads[t])];
    assert GuardedOf(s') == g[t := Guarded(s'.threads[t])];
    SumUpdate(w, t, Writes(s'.threads[t]));
    SumUpdate(g, t, Guarded(s'.threads[t]));
  }

  lemma StepThreadOk(k: nat, s: State, t: nat, u: nat)
    requires Inv(k, s) && Next(k, s, t).Some? && u < |s.threads|
    ensures ThreadOk(k, Next(k, s, t).value, u)
  {
    hide Sum, ThreadOk;
    assert ThreadOk(k, s, t) && ThreadOk(k, s, u);
    if u == t {
      StepSelf(k, s, t);
    } else {
      StepOther(k, s, t, u);
    }
  }

  lemma StepSelf(k: nat, s: State, t: nat)
    requires t < |s.threads| && ThreadOk(k, s, t) && Next(k, s, t).Some?
    requires 0 <= s.unprotected <= Sum(WritesOf(s))
    ensures ThreadOk(k, Next(k, s, t).value, t)
  {
    StepSums(k, s, t);
    hide Sum;
  }

  lemma StepOther(k: nat, s: State, t: nat, u: nat)
    requires t < |s.threads| && u < |s.threads| && u != t && Next(k, s, t).Some?
    requires ThreadOk(k, s, t) && ThreadOk(k, s, u)
    ensures ThreadOk(k, Next(k, s, t).value, u)
  {
    StepSums(k, s, t);
    hide Sum;
  }

  /** The last unprotected write of all is the k-th of its thread, which had written
      before it read. */
  lemma LastWrite(k: nat, s: State, t: nat)
    requires Inv(k, s) && Next(k, s, t).Some? && k >= 2 && AllWritten(k, Next(k, s, t).value)
    ensures Next(k, s, t).value.unprotected >= 2
  {
    var s' := Next(k, s, t).value;
    assert ThreadOk(k, s, t) && Writes(s'.threads[t]) == k;
    if s.threads[t].pc != HasTemp {
      forall u | 0 <= u < |s.threads| ensures Writes(s.threads[u]) == k {
        assert Writes(s'.threads[u]) == k;
      }
      assert AllWritten(k, s);
    }
  }

  lemma StepInv(k: nat, s: State, t: nat)
    requires Inv(k, s) && Next(k, s, t).Some?
    ensures Inv(k, Next(k, s, t).value)
  {
    var s' := Next(k, s, t).value;
    StepSums(k, s, t);
    assert ThreadOk(k, s, t);
    forall u | 0 <= u < |s'.threads| ensures ThreadOk(k, s', u) {
      StepThreadOk(k, s, t, u);
    }
    hide Sum, ThreadOk, AllWritten;
    if k >= 2 && AllWritten(k, s') {
      LastWrite(k, s, t);
    }
  }

  lemma {:induction false} ExecInv(k: nat, s: State, schedule: seq<nat>)
    requires Inv(k, s) && Exec(k, s, schedule).Some?
    ensures Inv(k, Exec(k, s, schedule).value)
    ensures |Exec(k, s, schedule).value.threads| == |s.threads|
  {
    if schedule != [] {
      var n := |schedule| - 1;
      ExecInv(k, s, schedule[..n]);
      StepInv(k, Exec(k, s, schedule[..n]).value, schedule[n]);
    }
  }

  // ----- Final values -----

  /** The least final value of the unprotected counter. */
  function Least(n: nat, k: nat): nat {
    if n == 1 || k < 2 then k else 2
  }

  /** Every interleaving of n threads ends with the guarded counter at exactly n * k and
      the unprotected one between 2, or k for one thread or less than two increments, and n * k. */
  lemma FinalBounds(n: nat, k: nat, schedule: seq<nat>, s: State)
    requires n >= 1 && Exec(k, Initial(n), schedule) == Some(s) && Final(s)
    ensures s.guarded == n * k
    ensures (if n == 1 || k < 2 then k else 2) <= s.unprotected <= n * k
  {
    InitialInv(k, n);
    ExecInv(k, Initial(n), schedule);
    forall t | 0 <= t < n ensures s.threads[t].i == k && s.threads[t].pc == Exited {
      assert ThreadOk(k, s, t);
    }
    SumConstant(WritesOf(s), k);
    SumConstant(GuardedOf(s), k);
    assert ThreadOk(k, s, 0);
  }

  // ----- Termination and progress -----

  /** Steps the thread still has to take. */
  function StepsLeft(k: nat, th: Thread): int {
    6 * (k - th.i) + (match th.pc
                      case Top => 1
                      case HasTemp => 0
                      case AtLock => -1
                      case InLock => -2
                      case HasReg => -3
                      case AtUnlock => -4
                      case Exited => 0)
  }

  function LeftOf(k: nat, s: State): (w: seq<int>)
    ensures |w| == |s.threads| && forall t :: 0 <= t < |w| ==> w[t] == StepsLeft(k, s.threads[t])
  {
    seq(|s.threads|, t requires 0 <= t < |s.threads| => StepsLeft(k, s.threads[t]))
  }

  lemma StepUsesOne(k: nat, s: State, t: nat)
    requires Inv(k, s) && Next(k, s, t).Some?
    ensures Sum(LeftOf(k, Next(k, s, t).value)) == Sum(LeftOf(k, s)) - 1
  {
    var s', w := Next(k, s, t).value, LeftOf(k, s);
    assert ThreadOk(k, s, t);
    assert LeftOf(k, s') == w[t := w[t] - 1];
    SumUpdate(w, t, w[t] - 1);
  }

  lemma {:induction false} ExecUses(k: nat, s: State, schedule: seq<nat>)
    requires Inv(k, s) && Exec(k, s, schedule).Some?
    ensures Sum(LeftOf(k, Exec(k, s, schedule).value)) == Sum(LeftOf(k, s)) - |schedule|
  {
    if schedule != [] {
      var n := |schedule| - 1;
      ExecUses(k, s, schedule[..n]);
      ExecInv(k, s, schedule[..n]);
      StepUsesOne(k, Exec(k, s, schedule[..n]).value, schedule[n]);
    }
  }

  /** No run is longer than n * (6k + 1) steps, and one that cannot go on has ended with
      every thread returned after exactly that many. */
  lemma RunsEnd(n: nat, k: nat, schedule: seq<nat>, s: State)
    requires n >= 1 && Exec(k, Initial(n), schedule) == Some(s)
    ensures |schedule| <= n * (6 * k + 1)
    ensures (forall t :: Next(k, s, t) == None) <==> Final(s)
    ensures Final(s) ==> |schedule| == n * (6 * k + 1)
  {
    hide Exec, Sum;
    InitialInv(k, n);
    ExecInv(k, Initial(n), schedule);
    ExecUses(k, Initial(n), schedule);
    SumConstant(LeftOf(k, Initial(n)), 6 * k + 1);
    var zeros := seq(n, _ => 0);
    SumConstant(zeros, 0);
    forall t | 0 <= t < n ensures LeftOf(k, s)[t] >= 0 && (Final(s) ==> LeftOf(k, s)[t] == 0) {
      assert ThreadOk(k, s, t);
    }
    SumMonotone(zeros, LeftOf(k, s));
    if Final(s) {
      SumConstant(LeftOf(k, s), 0);
    } else {
      var t :| 0 <= t < n && s.threads[t].pc != Exited;
      if Next(k, s, t) == None {
        assert ThreadOk(k, s, s.lock.value);
        assert Next(k, s, s.lock.value).Some?;
      }
    }
  }

  // ----- Every value in the range is reached -----

  ghost predicate Leads(k: nat, s: State, s': State) {
    exists schedule :: Exec(k, s, schedule) == Some(s')
  }

  lemma LeadsSelf(k: nat, s: State)
    ensures Leads(k, s, s)
  {
    assert Exec(k, s, []) == Some(s);
  }

  lemma LeadsStep(k: nat, s: State, mid: State, t: nat, s': State)
    requires Leads(k, s, mid) && Next(k, mid, t) == Some(s')
    ensures Leads(k, s, s')
  {
    var schedule :| Exec(k, s, schedule) == Some(mid);
    assert (schedule + [t])[..|schedule|] == schedule;
    assert Exec(k, s, schedule + [t]) == Some(s');
  }

  /** The state after thread t, whose copy of the unprotected counter is temp, has
      written it back and completed its iteration. */
  function Completed(s: State, t: nat, temp: int): State
    requires t < |s.threads|
  {
    State(temp + 1, s.guarded + 1, None, s.threads[t := Thread(Top, s.threads[t].i + 1, 0, 0)])
  }

  lemma CompleteIteration(k: nat, o: State, s: State, t: nat)
    requires Leads(k, o, s) && t < |s.threads| && s.threads[t].pc == HasTemp && s.lock == None
    ensures Leads(k, o, Completed(s, t, s.threads[t].temp))
  {
    hide Leads;
    var s1 := Next(k, s, t).value;
    LeadsStep(k, o, s, t, s1);
    var s2 := Next(k, s1, t).value;
    LeadsStep(k, o, s1, t, s2);
    var s3 := Next(k, s2, t).value;
    LeadsStep(k, o, s2, t, s3);
    var s4 := Next(k, s3, t).value;
    LeadsStep(k, o, s3, t, s4);
    var s5 := Next(k, s4, t).value;
    LeadsStep(k, o, s4, t, s5);
    assert s5.threads == s.threads[t := Thread(Top, s.threads[t].i + 1, 0, 0)];
  }

  lemma WholeIteration(k: nat, o: State, s: State, t: nat)
    requires Leads(k, o, s) && t < |s.threads| && s.threads[t].pc == Top && s.threads[t].i < k && s.lock == None
    ensures Leads(k, o, Completed(s, t, s.unprotected))
  {
    var s1 := Next(k, s, t).value;
    LeadsStep(k, o, s, t, s1);
    CompleteIteration(k, o, s1, t);
    assert Completed(s1, t, s.unprotected) == Completed(s, t, s.unprotected);
  }

  /** All threads but a are at the top of their loop and the mutex is free. */
  ghost predicate QuietBut(k: nat, s: State, a: nat) {
    && s.lock == None
    && forall t :: 0 <= t < |s.threads| && t != a ==> s.threads[t].pc == Top && s.threads[t].i <= k
  }

  /** Iterations the threads other than a still have to do. */
  function Others(k: nat, s: State, a: nat): (w: seq<int>)
    ensures |w| == |s.threads|
    ensures forall t :: 0 <= t < |w| ==> w[t] == if t == a then 0 else k - s.threads[t].i
  {
    seq(|s.threads|, t requires 0 <= t < |s.threads| => if t == a then 0 else k - s.threads[t].i)
  }

  lemma SomeOther(k: nat, s: State, a: nat) returns (t: nat)
    requires QuietBut(k, s, a) && Sum(Others(k, s, a)) > 0
    ensures t < |s.threads| && Others(k, s, a)[t] > 0
  {
    var zeros := seq(|s.threads|, _ => 0);
    SumConstant(zeros, 0);
    t := LargerTerm(zeros, Others(k, s, a));
  }

  /** One iteration of another thread leaves one less to do. */
  lemma OthersLess(k: nat, s: State, a: nat, t: nat)
    requires QuietBut(k, s, a) && t < |s.threads| && Others(k, s, a)[t] > 0
    ensures var s1 := Completed(s, t, s.unprotected);
            Sum(Others(k, s1, a)) == Sum(Others(k, s, a)) - 1
  {
    var w, s1 := Others(k, s, a), Completed(s, t, s.unprotected);
    assert Others(k, s1, a) == w[t := w[t] - 1];
    SumUpdate(w, t, w[t] - 1);
  }

  lemma {:induction false} RunOthers(k: nat, o: State, s: State, a: nat, m: nat) returns (s': State)
    requires Leads(k, o, s) && QuietBut(k, s, a) && m <= Sum(Others(k, s, a))
    ensures Leads(k, o, s') && QuietBut(k, s', a) && |s'.threads| == |s.threads|
    ensures Sum(Others(k, s', a)) == Sum(Others(k, s, a)) - m
    ensures s'.unprotected == s.unprotected + m
    ensures a < |s.threads| ==> s'.threads[a] == s.threads[a]
    decreases m
  {
    if m == 0 {
      s' := s;
    } else {
      var t := SomeOther(k, s, a);
      WholeIteration(k, o, s, t);
      var s1 := Completed(s, t, s.unprotected);
      OthersLess(k, s, a, t);
      hide Sum, Others, Leads;
      s' := RunOthers(k, o, s1, a, m - 1);
    }
  }

  lemma {:induction false} ExitAll(k: nat, o: State, s: State, m: nat) returns (s': State)
    requires Leads(k, o, s) && m <= |s.threads|
    requires forall t :: 0 <= t < m ==> s.threads[t].pc == Exited
    requires forall t :: m <= t < |s.threads| ==> s.threads[t].pc == Top && s.threads[t].i >= k
    ensures Leads(k, o, s') && Final(s') && s'.unprotected == s.unprotected
    decreases |s.threads| - m
  {
    if m == |s.threads| {
      s' := s;
    } else {
      var s1 := Next(k, s, m).value;
      LeadsStep(k, o, s, m, s1);
      s' := ExitAll(k, o, s1, m + 1);
    }
  }

  /** From a quiet state the rest can run one thread after another, losing nothing. */
  lemma Finish(k: nat, o: State, s: State) returns (s': State)
    requires Leads(k, o, s) && QuietBut(k, s, |s.threads|)
    ensures Leads(k, o, s') && Final(s')
    ensures s'.unprotected == s.unprotected + Sum(Others(k, s, |s.threads|))
  {
    var a, w := |s.threads|, Others(k, s, |s.threads|);
    var zeros := seq(|s.threads|, _ => 0);
    SumConstant(zeros, 0);
    SumMonotone(zeros, w);
    var s1 := RunOthers(k, o, s, a, Sum(w));
    var w1 := Others(k, s1, a);
    AllZero(w1);
    s' := ExitAll(k, o, s1, 0);
  }

  lemma {:induction false} AllZero(w: seq<int>)
    requires Sum(w) <= 0 && forall t :: 0 <= t < |w| ==> w[t] >= 0
    ensures forall t :: 0 <= t < |w| ==> w[t] == 0
  {
    if w != [] {
      var n := |w| - 1;
      var zeros := seq(n, _ => 0);
      SumConstant(zeros, 0);
      SumMonotone(zeros, w[..n]);
      AllZero(w[..n]);
      assert forall t :: 0 <= t < n ==> w[..n][t] == w[t];
    }
  }

  /** Iterations left in all, when thread a has left of them. */
  lemma OthersAndOne(k: nat, s: State, a: nat)
    requires a < |s.threads|
    ensures Sum(Others(k, s, |s.threads|)) == Sum(Others(k, s, a)) + (k - s.threads[a].i)
  {
    var w := Others(k, s, a);
    assert Others(k, s, |s.threads|) == w[a := k - s.threads[a].i];
    SumUpdate(w, a, k - s.threads[a].i);
  }

  lemma OthersUnchanged(k: nat, s: State, s': State, a: nat)
    requires |s'.threads| == |s.threads| && forall t :: 0 <= t < |s.threads| && t != a ==> s'.threads[t] == s.threads[t]
    ensures Others(k, s', a) == Others(k, s, a)
  {
  }

  /** Thread 0 reads at the very start; all values from one write on are its doing. */
  lemma FirstReads(n: nat, k: nat) returns (s: State)
    requires n >= 1 && k >= 1
    ensures Leads(k, Initial(n), s) && QuietBut(k, s, 0) && |s.threads| == n && s.unprotected == 0
    ensures s.threads[0] == Thread(HasTemp, 0, 0, 0)
    ensures Sum(Others(k, s, 0)) == (n - 1) * k
  {
    var o := Initial(n);
    LeadsSelf(k, o);
    s := Next(k, o, 0).value;
    LeadsStep(k, o, o, 0, s);
    SumConstant(Others(k, o, n), k);
    OthersAndOne(k, o, 0);
    OthersUnchanged(k, o, s, 0);
    assert n * k == (n - 1) * k + k;
  }

  /** One stale write can undo any number of increments of the other threads. */
  lemma LoseToFirst(n: nat, k: nat, v: nat) returns (s: State)
    requires n >= 1 && k >= 1 && k <= v <= n * k
    ensures Leads(k, Initial(n), s) && Final(s) && s.unprotected == v
  {
    var o, lost := Initial(n), n * k - v;
    var s1 := FirstReads(n, k);
    assert n * k == (n - 1) * k + k;
    var s2 := RunOthers(k, o, s1, 0, lost);
    CompleteIteration(k, o, s2, 0);
    var s3 := Completed(s2, 0, 0);
    OthersUnchanged(k, s2, s3, 0);
    OthersAndOne(k, s3, 0);
    s := Finish(k, o, s3);
  }

  /** Thread 0 writes 1 over all but the last iteration of the others, and thread b,
      whose iteration that is, reads the 1. */
  lemma OverwriteAll(n: nat, k: nat) returns (s: State, b: nat)
    requires n >= 2 && k >= 2
    ensures Leads(k, Initial(n), s) && b < |s.threads| && QuietBut(k, s, b)
    ensures s.threads[b] == Thread(HasTemp, k - 1, 1, s.threads[b].reg) && Sum(Others(k, s, b)) == k - 1
  {
    hide Sum;
    var o := Initial(n);
    var s1 := FirstReads(n, k);
    assert (n - 1) * k >= 1 by { assert (n - 1) * k >= 1 * k; }
    var s2 := RunOthers(k, o, s1, 0, (n - 1) * k - 1);
    CompleteIteration(k, o, s2, 0);
    var s3 := Completed(s2, 0, 0);
    OthersUnchanged(k, s2, s3, 0);
    b := LastOne(k, s3, 0);
    s := Next(k, s3, b).value;
    LeadsStep(k, o, s3, b, s);
    OthersAndOne(k, s3, 0);
    OthersAndOne(k, s3, b);
    OthersUnchanged(k, s3, s, b);
  }

  /** Two stale writes undo nearly everything: that last iteration writes 2 over what
      thread 0 has done meanwhile. */
  lemma LoseTwice(n: nat, k: nat, v: nat) returns (s: State)
    requires n >= 2 && k >= 2 && 2 <= v <= k
    ensures Leads(k, Initial(n), s) && Final(s) && s.unprotected == v
  {
    hide Sum, Leads, Next;
    var o := Initial(n);
    var s1, b := OverwriteAll(n, k);
    var s2 := RunOthers(k, o, s1, b, k + 1 - v);
    CompleteIteration(k, o, s2, b);
    var s3 := Completed(s2, b, 1);
    OthersUnchanged(k, s2, s3, b);
    OthersAndOne(k, s3, b);
    s := Finish(k, o, s3);
  }

  /** The thread other than a that has the one remaining iteration. */
  lemma LastOne(k: nat, s: State, a: nat) returns (b: nat)
    requires QuietBut(k, s, a) && Sum(Others(k, s, a)) == 1
    ensures b < |s.threads| && b != a && s.threads[b].i == k - 1
  {
    var w, zeros := Others(k, s, a), seq(|s.threads|, _ => 0);
    SumConstant(zeros, 0);
    b := LargerTerm(zeros, w);
    var single := zeros[b := w[b]];
    SumUpdate(zeros, b, w[b]);
    SumMonotone(single, w);
  }

  /** Exactly the values from Least(n, k) to n * k are final values of some run. */
  lemma FinalValuesExactly(n: nat, k: nat, v: int)
    requires n >= 1
    ensures (if n == 1 || k < 2 then k else 2) <= v <= n * k <==>
            exists s :: Leads(k, Initial(n), s) && Final(s) && s.unprotected == v
  {
    if s :| Leads(k, Initial(n), s) && Final(s) && s.unprotected == v {
      var schedule :| Exec(k, Initial(n), schedule) == Some(s);
      FinalBounds(n, k, schedule, s);
    }
    if Least(n, k) <= v <= n * k {
      var s;
      if k == 0 {
        LeadsSelf(k, Initial(n));
        s := ExitAll(k, Initial(n), Initial(n), 0);
      } else if k <= v {
        s := LoseToFirst(n, k, v);
      } else {
        s := LoseTwice(n, k, v);
      }
    }
  }
}
