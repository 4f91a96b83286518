/** The dispatcher and its process threads, step by step, under every interleaving. */
module Dispatcher {
  import opened Options
  import opened Sums
  import opened RoundRobin

  datatype Config = Config(bursts: seq<nat>, q: nat)

  datatype ProcState = Ready | Running | Done

  datatype Pcb = Pcb(remaining: int, state: ProcState)

  /** A process thread, by what it does next. */
  datatype WorkerPc =
    | NotCreated | WaitTurn
    | Lock1 | SetRunning | ReadRemaining | Unlock1 | Burst
    | Lock2 | Charge | SetState | Unlock2 | PostDone | LoopTest
    | Exited

  /** Its local variables, and how many turns it has taken so far. */
  datatype Worker = Worker(pc: WorkerPc, runTime: int, finished: bool, turns: nat)

  /** The main thread, by what it does next: creating the threads, dispatching, joining. */
  datatype MainPc = Create | WhileTest | ForTest | Lock | ReadState | Unlock | Branch | WaitDone | Join | Returned

  datatype Owner = Free | Main | Process(id: nat)

  /** i, finished and read are the dispatcher's variables; passes counts the passes of
      its outer loop that have begun; log records the slices in the order they run. */
  datatype State = State(
    pc: MainPc, i: nat, finished: nat, read: ProcState, passes: nat,
    workers: seq<Worker>, pcbs: seq<Pcb>, turn: seq<nat>, done: nat, lock: Owner, log: seq<Slice>)

  function Initial(c: Config): State {
    var n := |c.bursts|;
    State(Create, 0, 0, Ready, 0,
          seq(n, _ => Worker(NotCreated, 0, false, 0)),
          seq(n, j requires 0 <= j < n => Pcb(c.bursts[j], Ready)),
          seq(n, _ => 0), 0, Free, [])
  }

  predicate Sized(c: Config, s: State) {
    |s.workers| == |s.pcbs| == |s.turn| == |c.bursts|
  }

  // ----- Steps -----

  function SetWorker(s: State, t: nat, w: Worker): State
    requires t < |s.workers|
  {
    s.(workers := s.workers[t := w])
  }

  function SetPcb(s: State, t: nat, p: Pcb): State
    requires t < |s.pcbs|
  {
    s.(pcbs := s.pcbs[t := p])
  }

  /** One atomic step of process thread t; None when it is blocked. */
  function WorkerNext(c: Config, s: State, t: nat): Option<State>
    requires Sized(c, s) && t < |c.bursts|
  {
    var w, p := s.workers[t], s.pcbs[t];
    match w.pc
    case NotCreated => None
    case WaitTurn =>
      if s.turn[t] == 0 then None
      else Some(SetWorker(s, t, w.(pc := Lock1, turns := w.turns + 1)).(turn := s.turn[t := s.turn[t] - 1]))
    case Lock1 => if s.lock != Free then None else Some(SetWorker(s, t, w.(pc := SetRunning)).(lock := Process(t)))
    case SetRunning => Some(SetPcb(SetWorker(s, t, w.(pc := ReadRemaining)), t, p.(state := Running)))
    case ReadRemaining =>
      Some(SetWorker(s, t, w.(pc := Unlock1, runTime := if p.remaining < c.q then p.remaining else c.q)))
    case Unlock1 => Some(SetWorker(s, t, w.(pc := Burst)).(lock := Free))
    case Burst => Some(SetWorker(s, t, w.(pc := Lock2)).(log := s.log + [Slice(t, w.runTime)]))
    case Lock2 => if s.lock != Free then None else Some(SetWorker(s, t, w.(pc := Charge)).(lock := Process(t)))
    case Charge => Some(SetPcb(SetWorker(s, t, w.(pc := SetState)), t, p.(remaining := p.remaining - w.runTime)))
    case SetState =>
      if p.remaining <= 0
      then Some(SetPcb(SetWorker(s, t, w.(pc := Unlock2, finished := true)), t, p.(state := Done)))
      else Some(SetPcb(SetWorker(s, t, w.(pc := Unlock2, finished := false)), t, p.(state := Ready)))
    case Unlock2 => Some(SetWorker(s, t, w.(pc := PostDone)).(lock := Free))
    case PostDone => Some(SetWorker(s, t, w.(pc := LoopTest)).(done := s.done + 1))
    case LoopTest => Some(SetWorker(s, t, w.(pc := if w.finished then Exited else WaitTurn)))
    case Exited => None
  }

  /** One atomic step of the main thread; None when it is blocked or has returned. */
  function MainNext(c: Config, s: State): Option<State>
    requires Sized(c, s)
  {
    var n := |c.bursts|;
    match s.pc
    case Create =>
      if s.i < n then Some(SetWorker(s, s.i, s.workers[s.i].(pc := WaitTurn)).(i := s.i + 1))
      else Some(s.(pc := WhileTest, finished := 0))
    case WhileTest =>
      if s.finished < n then Some(s.(pc := ForTest, finished := 0, i := 0, passes := s.passes + 1))
      else Some(s.(pc := Join, i := 0))
    case ForTest => Some(s.(pc := if s.i < n then Lock else WhileTest))
    case Lock => if s.lock != Free then None else Some(s.(pc := ReadState, lock := Main))
    case ReadState => if s.i >= n then None else Some(s.(pc := Unlock, read := s.pcbs[s.i].state))
    case Unlock => Some(s.(pc := Branch, lock := Free))
    case Branch =>
      if s.read == Done then Some(s.(pc := ForTest, finished := s.finished + 1, i := s.i + 1))
      else if s.i >= n then None
      else Some(s.(pc := WaitDone, turn := s.turn[s.i := s.turn[s.i] + 1]))
    case WaitDone => if s.done == 0 then None else Some(s.(pc := ForTest, i := s.i + 1, done := s.done - 1))
    case Join =>
      if s.i >= n then Some(s.(pc := Returned))
      else if s.workers[s.i].pc == Exited then Some(s.(i := s.i + 1))
      else None
    case Returned => None
  }

  /** Actor t < n is process thread t, actor n the main thread. */
  function Next(c: Config, s: State, a: nat): Option<State>
    requires Sized(c, s)
  {
    if a < |c.bursts| then WorkerNext(c, s, a)
    else if a == |c.bursts| then MainNext(c, s)
    else None
  }

  /** Runs a schedule, a list of actors; None when one of them could not step. */
  function Exec(c: Config, schedule: seq<nat>): (r: Option<State>)
    ensures r.Some? ==> Sized(c, r.value)
  {
    if schedule == [] then Some(Initial(c))
    else
      var n := |schedule| - 1;
      match Exec(c, schedule[..n])
      case None => None
      case Some(mid) => Next(c, mid, schedule[n])
  }

  predicate Valid(c: Config) {
    c.q >= 1 && |c.bursts| >= 1
  }

  ghost predicate Reachable(c: Config, s: State) {
    exists schedule :: Exec(c, schedule) == Some(s)
  }

  // ----- Invariant -----

  predicate InLoop(pc: MainPc) {
    pc in {ForTest, Lock, ReadState, Unlock, Branch, WaitDone}
  }

  /** The round the dispatcher is in, or has yet to begin. */
  function Round(s: State): nat {
    if InLoop(s.pc) && s.passes > 0 then s.passes - 1 else s.passes
  }

  function Index(s: State): nat {
    if InLoop(s.pc) then s.i else 0
  }

  /** The control block of a process after e rounds. */
  function PcbAfter(burst: nat, q: nat, e: nat): Pcb
    requires q >= 1
  {
    Pcb(Remaining(burst, q, e), if e >= Slices(burst, q) then Done else Ready)
  }

  /** A thread that has handed control back after e rounds, wherever it lags. */
  predicate Idle(burst: nat, q: nat, e: nat, w: Worker, p: Pcb, turn: nat)
    requires q >= 1
  {
    var over := e >= Slices(burst, q);
    && turn == 0 && p == PcbAfter(burst, q, e) && w.turns == Min(Slices(burst, q), e)
    && (w.pc == WaitTurn || w.pc == NotCreated ==> !over)
    && (w.pc == LoopTest ==> w.finished == over)
    && (w.pc == Exited ==> over)
    && w.pc in {NotCreated, WaitTurn, LoopTest, Exited}
  }

  predicate IdleAt(c: Config, s: State, j: nat, e: nat)
    requires Sized(c, s) && c.q >= 1 && j < |c.bursts|
  {
    Idle(c.bursts[j], c.q, e, s.workers[j], s.pcbs[j], s.turn[j])
  }

  predicate HoldsLock(pc: WorkerPc) {
    pc in {SetRunning, ReadRemaining, Unlock1, Charge, SetState, Unlock2}
  }

  predicate Logged(pc: WorkerPc) {
    pc in {Lock2, Charge, SetState, Unlock2, PostDone}
  }

  /** The thread that holds the turn in round r. */
  predicate Active(burst: nat, q: nat, r: nat, w: Worker, p: Pcb, turn: nat)
    requires q >= 1
  {
    && r < Slices(burst, q)
    && w.pc !in {NotCreated, Exited}
    && turn == (if w.pc in {WaitTurn, LoopTest} then 1 else 0)
    && w.turns == (if turn == 1 then r else r + 1)
    && p.remaining == Remaining(burst, q, if w.pc in {SetState, Unlock2, PostDone} then r + 1 else r)
    && p.state == (if w.pc in {WaitTurn, LoopTest, Lock1, SetRunning} then Ready
                   else if w.pc in {Unlock2, PostDone} then PcbAfter(burst, q, r + 1).state
                   else Running)
    && (w.pc in {Unlock1, Burst, Lock2, Charge} ==> w.runTime == SliceTime(burst, q, r))
    && (w.pc == LoopTest ==> !w.finished)
    && (w.pc in {Unlock2, PostDone} ==> w.finished == (r + 1 >= Slices(burst, q)))
  }

  /** Processes before i that were done before round r. */
  function CountDone(c: Config, r: nat, i: nat): (n: nat)
    requires c.q >= 1 && i <= |c.bursts|
    ensures n <= i
  {
    if i == 0 then 0
    else CountDone(c, r, i - 1) + (if Slices(c.bursts[i - 1], c.q) <= r then 1 else 0)
  }

  /** The dispatcher's own variables. */
  predicate MainOk(c: Config, s: State)
    requires Sized(c, s) && Valid(c)
  {
    var n, last := |c.bursts|, Rounds(c.bursts, c.q);
    && s.i <= n
    && (forall j :: 0 <= j < n ==> (s.workers[j].pc == NotCreated <==> s.pc == Create && j >= s.i))
    && s.passes <= last + 1
    && (s.pc == Create ==> s.passes == 0)
    && (s.pc == WhileTest ==> s.finished == if s.passes == 0 then 0 else CountDone(c, s.passes - 1, n))
    && (InLoop(s.pc) ==> LoopOk(c, s))
    && (s.pc in {Join, Returned} ==> s.passes == last + 1)
    && (s.pc == Join ==> forall j :: 0 <= j < s.i ==> s.workers[j].pc == Exited)
    && (s.pc == Returned ==> forall j :: 0 <= j < n ==> s.workers[j].pc == Exited)
  }

  predicate LoopOk(c: Config, s: State)
    requires Sized(c, s) && Valid(c) && s.i <= |c.bursts|
  {
    && s.passes >= 1 && s.finished == CountDone(c, s.passes - 1, s.i)
    && (s.pc != ForTest ==> s.i < |c.bursts|)
    && (s.pc == Unlock || s.pc == Branch ==> (s.read == Done <==> s.passes - 1 >= Slices(c.bursts[s.i], c.q)))
  }

  /** Control is with the dispatcher: every thread is idle and the log is complete up
      to the dispatcher's position. */
  predicate AtMain(c: Config, s: State, r: nat, i: nat)
    requires Sized(c, s) && Valid(c) && i <= |c.bursts|
  {
    && s.done == 0 && s.log == Expected(c.bursts, c.q, r, i)
    && s.lock == (if s.pc in {ReadState, Unlock} then Main else Free)
    && forall j :: 0 <= j < |c.bursts| ==> IdleAt(c, s, j, RoundsOf(r, i, j))
  }

  /** Control is with process i, or on its way back: every other thread is idle. */
  predicate AtWorker(c: Config, s: State, r: nat, i: nat)
    requires Sized(c, s) && Valid(c) && i < |c.bursts|
  {
    && (forall j :: 0 <= j < |c.bursts| && j != i ==> IdleAt(c, s, j, RoundsOf(r, i, j)))
    && r < Slices(c.bursts[i], c.q)
    && if s.done == 0 then
         && Active(c.bursts[i], c.q, r, s.workers[i], s.pcbs[i], s.turn[i])
         && s.lock == (if HoldsLock(s.workers[i].pc) then Process(i) else Free)
         && s.log == Expected(c.bursts, c.q, r, if Logged(s.workers[i].pc) then i + 1 else i)
       else
         && s.done == 1 && s.lock == Free && IdleAt(c, s, i, r + 1)
         && s.log == Expected(c.bursts, c.q, r, i + 1)
  }

  ghost predicate Inv(c: Config, s: State) {
    && Valid(c) && Sized(c, s) && MainOk(c, s)
    && if s.pc == WaitDone then AtWorker(c, s, Round(s), s.i) else AtMain(c, s, Round(s), Index(s))
  }

  lemma InitialInv(c: Config)
    requires Valid(c)
    ensures Inv(c, Initial(c))
  {
  }

  // ----- Every step keeps the invariant -----

  /** A process that is done stays the same when its round is skipped. */
  lemma IdleSkipped(c: Config, s: State, j: nat, e: nat)
    requires Valid(c) && Sized(c, s) && j < |c.bursts| && IdleAt(c, s, j, e) && e >= Slices(c.bursts[j], c.q)
    ensures IdleAt(c, s, j, e + 1)
  {
    SlicesLeft(c.bursts[j], c.q, e);
  }

  lemma IdleState(c: Config, s: State, j: nat, e: nat)
    requires Valid(c) && Sized(c, s) && j < |c.bursts| && IdleAt(c, s, j, e)
    ensures s.pcbs[j].state == Done <==> e >= Slices(c.bursts[j], c.q)
  {
  }

  lemma CountDoneAll(c: Config, r: nat)
    requires Valid(c)
    ensures CountDone(c, r, |c.bursts|) == |c.bursts| <==> Rounds(c.bursts, c.q) <= r
  {
    CountDoneFull(c, r, |c.bursts|);
    if CountDone(c, r, |c.bursts|) == |c.bursts| {
      RoundsLeast(c.bursts, c.q, r);
    }
  }

  lemma {:induction false} CountDoneFull(c: Config, r: nat, i: nat)
    requires Valid(c) && i <= |c.bursts|
    ensures CountDone(c, r, i) == i <==> forall j :: 0 <= j < i ==> Slices(c.bursts[j], c.q) <= r
  {
    if i > 0 {
      CountDoneFull(c, r, i - 1);
    }
  }

  lemma CreateStep(c: Config, s: State)
    requires Inv(c, s) && s.pc == Create && MainNext(c, s).Some?
    ensures Inv(c, MainNext(c, s).value)
  {
    hide Expected, Remaining, Slices, Rounds;
    var s' := MainNext(c, s).value;
    forall j | 0 <= j < |c.bursts| ensures IdleAt(c, s', j, 0) {
      assert IdleAt(c, s, j, RoundsOf(0, 0, j));
    }
  }

  lemma WhileStep(c: Config, s: State)
    requires Inv(c, s) && s.pc == WhileTest && MainNext(c, s).Some?
    ensures Inv(c, MainNext(c, s).value)
  {
    var s' := MainNext(c, s).value;
    if s.passes > 0 {
      CountDoneAll(c, s.passes - 1);
    }
    hide Expected, Remaining, Slices, Rounds, Idle;
    forall j | 0 <= j < |c.bursts| ensures IdleAt(c, s', j, RoundsOf(Round(s'), Index(s'), j)) {
      assert IdleAt(c, s, j, RoundsOf(Round(s), Index(s), j));
    }
  }

  lemma ForStep(c: Config, s: State)
    requires Inv(c, s) && s.pc in {ForTest, Lock, ReadState, Unlock} && MainNext(c, s).Some?
    ensures Inv(c, MainNext(c, s).value)
  {
    hide Remaining, Slices, Rounds, CountDone, Idle;
    var s' := MainNext(c, s).value;
    forall j | 0 <= j < |c.bursts| ensures IdleAt(c, s', j, RoundsOf(Round(s'), Index(s'), j)) {
      assert IdleAt(c, s, j, RoundsOf(Round(s), Index(s), j));
    }
    if s.pc == ReadState {
      assert IdleAt(c, s, s.i, RoundsOf(Round(s), s.i, s.i));
      IdleState(c, s, s.i, Round(s));
    }
  }

  /** The dispatcher's position moves past a process that is done. */
  lemma SkipAtMain(c: Config, s: State, r: nat, i: nat, s': State)
    requires Valid(c) && Sized(c, s) && Sized(c, s') && i < |c.bursts| && AtMain(c, s, r, i)
    requires s'.workers == s.workers && s'.pcbs == s.pcbs && s'.turn == s.turn
    requires s'.log == s.log && s'.done == s.done && s'.lock == Free && s'.pc == ForTest
    requires r >= Slices(c.bursts[i], c.q)
    ensures AtMain(c, s', r, i + 1)
  {
    ExpectedStep(c.bursts, c.q, r, i);
    assert IdleAt(c, s, i, RoundsOf(r, i, i));
    IdleSkipped(c, s, i, r);
    hide Idle, Expected, Slices;
    var next := i + 1;
    forall j | 0 <= j < |c.bursts| ensures IdleAt(c, s', j, RoundsOf(r, next, j)) {
      assert IdleAt(c, s, j, RoundsOf(r, i, j));
    }
  }

  lemma SkipStep(c: Config, s: State)
    requires Inv(c, s) && s.pc == Branch && s.read == Done && MainNext(c, s).Some?
    ensures Inv(c, MainNext(c, s).value)
  {
    hide Expected, Remaining, Slices, Rounds, IdleAt;
    SkipAtMain(c, s, Round(s), s.i, MainNext(c, s).value);
  }

  lemma GrantStep(c: Config, s: State)
    requires Inv(c, s) && s.pc == Branch && s.read != Done && MainNext(c, s).Some?
    ensures Inv(c, MainNext(c, s).value)
  {
    hide Expected, Remaining, Slices, Rounds, CountDone;
    var s', r := MainNext(c, s).value, Round(s);
    assert IdleAt(c, s, s.i, RoundsOf(r, s.i, s.i));
    forall j | 0 <= j < |c.bursts| && j != s.i ensures IdleAt(c, s', j, RoundsOf(r, s.i, j)) {
      assert IdleAt(c, s, j, RoundsOf(r, s.i, j));
    }
  }

  lemma ReportStep(c: Config, s: State)
    requires Inv(c, s) && s.pc == WaitDone && MainNext(c, s).Some?
    ensures Inv(c, MainNext(c, s).value)
  {
    hide Expected, Remaining, Slices, Rounds, Idle;
    var s', r, next := MainNext(c, s).value, Round(s), s.i + 1;
    forall j | 0 <= j < |c.bursts| ensures IdleAt(c, s', j, RoundsOf(r, next, j)) {
      if j != s.i {
        assert IdleAt(c, s, j, RoundsOf(r, s.i, j));
      }
    }
  }

  lemma JoinStep(c: Config, s: State)
    requires Inv(c, s) && s.pc == Join && MainNext(c, s).Some?
    ensures Inv(c, MainNext(c, s).value)
  {
    hide Expected, Remaining, Slices, Rounds, CountDone, Idle;
    var s' := MainNext(c, s).value;
    forall j | 0 <= j < |c.bursts| ensures IdleAt(c, s', j, RoundsOf(Round(s'), Index(s'), j)) {
      assert IdleAt(c, s, j, RoundsOf(Round(s), Index(s), j));
    }
  }

  lemma MainStep(c: Config, s: State)
    requires Inv(c, s) && MainNext(c, s).Some?
    ensures Inv(c, MainNext(c, s).value)
  {
    hide Inv;
    match s.pc
    case Create => CreateStep(c, s);
    case WhileTest => WhileStep(c, s);
    case Branch =>
      if s.read == Done {
        SkipStep(c, s);
      } else {
        GrantStep(c, s);
      }
    case WaitDone => ReportStep(c, s);
    case Join => JoinStep(c, s);
    case _ => ForStep(c, s);
  }

  /** One step of the thread that holds the turn, seen by its own data. */
  lemma ActiveStep(c: Config, s: State, t: nat)
    requires Valid(c) && Sized(c, s) && t < |c.bursts| && WorkerNext(c, s, t).Some?
    requires Active(c.bursts[t], c.q, Round(s), s.workers[t], s.pcbs[t], s.turn[t])
    ensures var s', r := WorkerNext(c, s, t).value, Round(s);
            if s.workers[t].pc == PostDone then IdleAt(c, s', t, r + 1)
            else Active(c.bursts[t], c.q, r, s'.workers[t], s'.pcbs[t], s'.turn[t])
  {
    SlicesLeft(c.bursts[t], c.q, Round(s) + 1);
    hide Slices, Remaining;
  }

  /** What that step leaves alone, and what it does to the lock, the log and the report. */
  lemma SliceEffects(c: Config, s: State, t: nat)
    requires Sized(c, s) && t < |c.bursts| && WorkerNext(c, s, t).Some?
    requires s.done == 0 && s.lock == (if HoldsLock(s.workers[t].pc) then Process(t) else Free)
    requires s.workers[t].pc !in {NotCreated, Exited}
    ensures var s', pc := WorkerNext(c, s, t).value, s.workers[t].pc;
            && s' == s.(workers := s'.workers, pcbs := s'.pcbs, turn := s'.turn, done := s'.done, lock := s'.lock, log := s'.log)
            && (forall j :: 0 <= j < |c.bursts| && j != t ==>
                  s'.workers[j] == s.workers[j] && s'.pcbs[j] == s.pcbs[j] && s'.turn[j] == s.turn[j])
            && s'.done == (if pc == PostDone then 1 else 0)
            && s'.lock == (if HoldsLock(s'.workers[t].pc) then Process(t) else Free)
            && s'.log == (if pc == Burst then s.log + [Slice(t, s.workers[t].runTime)] else s.log)
            && (pc != Burst && pc != PostDone ==> Logged(s'.workers[t].pc) == Logged(pc))
            && (pc == Burst ==> Logged(s'.workers[t].pc))
            && s'.workers[t].pc !in {NotCreated}
            && Sized(c, s')
  {
  }

  lemma SliceAtWorker(c: Config, s: State, t: nat)
    requires Valid(c) && Sized(c, s) && s.pc == WaitDone && s.i == t < |c.bursts|
    requires AtWorker(c, s, Round(s), t) && s.done == 0 && WorkerNext(c, s, t).Some?
    ensures Sized(c, WorkerNext(c, s, t).value) && AtWorker(c, WorkerNext(c, s, t).value, Round(s), t)
  {
    var r, s' := Round(s), WorkerNext(c, s, t).value;
    ActiveStep(c, s, t);
    SliceEffects(c, s, t);
    ExpectedStep(c.bursts, c.q, r, t);
    assert s.workers[t].pc == Burst ==> s.workers[t].runTime == SliceTime(c.bursts[t], c.q, r);
    hide Expected, Remaining, Slices, SliceTime, WorkerNext, Active, Idle, HoldsLock;
    forall j | 0 <= j < |c.bursts| && j != t ensures IdleAt(c, s', j, RoundsOf(r, t, j)) {
      assert IdleAt(c, s, j, RoundsOf(r, t, j));
    }
  }

  lemma MainOkKept(c: Config, s: State, s': State, t: nat)
    requires Valid(c) && Sized(c, s) && Sized(c, s') && t < |c.bursts| && s.pc == WaitDone && MainOk(c, s)
    requires s' == s.(workers := s'.workers, pcbs := s'.pcbs, turn := s'.turn, done := s'.done, lock := s'.lock, log := s'.log)
    requires forall j :: 0 <= j < |c.bursts| && j != t ==> s'.workers[j] == s.workers[j]
    requires s.workers[t].pc != NotCreated && s'.workers[t].pc != NotCreated
    ensures MainOk(c, s')
  {
    hide Rounds, CountDone, Slices;
  }

  lemma SliceStep(c: Config, s: State)
    requires Inv(c, s) && s.pc == WaitDone && s.done == 0 && WorkerNext(c, s, s.i).Some?
    ensures Inv(c, WorkerNext(c, s, s.i).value)
  {
    hide WorkerNext, Rounds, CountDone, Slices, IdleAt, Expected, Remaining;
    SliceEffects(c, s, s.i);
    SliceAtWorker(c, s, s.i);
    hide Active, HoldsLock, Logged, AtWorker, MainOk;
    MainOkKept(c, s, WorkerNext(c, s, s.i).value, s.i);
  }

  /** A thread without the turn can only finish its loop: go back to wait, or exit. */
  lemma LagStep(c: Config, s: State, t: nat, e: nat)
    requires Valid(c) && Sized(c, s) && t < |c.bursts| && IdleAt(c, s, t, e) && WorkerNext(c, s, t).Some?
    ensures var s' := WorkerNext(c, s, t).value;
            && s.workers[t].pc == LoopTest && s' == s.(workers := s'.workers)
            && IdleAt(c, s', t, e)
            && s'.workers[t].pc in {WaitTurn, Exited}
            && forall j :: 0 <= j < |c.bursts| && j != t ==> s'.workers[j] == s.workers[j]
  {
    hide Slices, Remaining;
  }

  lemma LagInv(c: Config, s: State, t: nat, s': State, e: nat)
    requires Inv(c, s) && Sized(c, s') && t < |c.bursts| && s' == s.(workers := s'.workers)
    requires s.workers[t].pc == LoopTest && s'.workers[t].pc in {WaitTurn, Exited}
    requires forall j :: 0 <= j < |c.bursts| && j != t ==> s'.workers[j] == s.workers[j]
    requires IdleAt(c, s', t, e)
    requires if s.pc == WaitDone && t == s.i then s.done == 1 && e == Round(s) + 1
             else e == RoundsOf(Round(s), Index(s), t)
    ensures Inv(c, s')
  {
    hide Expected, Remaining, Slices, Rounds, CountDone, Idle;
    var r, i := Round(s), Index(s);
    forall j | 0 <= j < |c.bursts| && (s.pc == WaitDone ==> j != s.i) ensures IdleAt(c, s', j, RoundsOf(r, i, j)) {
      assert IdleAt(c, s, j, RoundsOf(r, i, j));
    }
  }

  lemma WorkerStep(c: Config, s: State, t: nat)
    requires Inv(c, s) && t < |c.bursts| && WorkerNext(c, s, t).Some?
    ensures Inv(c, WorkerNext(c, s, t).value)
  {
    if s.pc == WaitDone && t == s.i && s.done == 0 {
      SliceStep(c, s);
    } else {
      var e := if s.pc == WaitDone && t == s.i then Round(s) + 1 else RoundsOf(Round(s), Index(s), t);
      assert IdleAt(c, s, t, e);
      LagStep(c, s, t, e);
      LagInv(c, s, t, WorkerNext(c, s, t).value, e);
    }
  }

  lemma {:induction false} ExecInv(c: Config, schedule: seq<nat>)
    requires Valid(c) && Exec(c, schedule).Some?
    ensures Inv(c, Exec(c, schedule).value)
  {
    hide Inv;
    if schedule == [] {
      InitialInv(c);
    } else {
      var n := |schedule| - 1;
      ExecInv(c, schedule[..n]);
      var mid := Exec(c, schedule[..n]).value;
      if schedule[n] < |c.bursts| {
        WorkerStep(c, mid, schedule[n]);
      } else {
        MainStep(c, mid);
      }
    }
  }
}
