/** Any number of clients using the store at once, one memory access at a time: each operation
    takes effect as if alone, in the order in which clients held the lock. */
module SharedStore {
  import opened CStrings
  import opened Options
  import opened Sums
  import opened KeyValueStore

  /** Where a client is: between operations, waiting for the lock, at slot i of the scan,
      before one of the writes or the copy that end an operation, or before the unlock. */
  datatype Pc =
    | Idle
    | Waiting(op: Op)
    | Scanning(op: Op, i: nat, free: Option<nat>, count: nat, text: string)
    | Overwriting(op: Op, i: nat)
    | WritingKey(op: Op, i: nat)
    | WritingValue(op: Op, i: nat)
    | Marking(op: Op, i: nat)
    | CopyingOut(op: Op, i: nat)
    | Clearing(op: Op, i: nat)
    | Unlocking(op: Op, result: Result)

  datatype Entry = Entry(client: nat, op: Op, result: Result)

  /** The log lists the operations that have given the lock back. */
  datatype State = State(slots: seq<Slot>, holder: Option<nat>, clients: seq<Pc>, log: seq<Entry>)

  datatype Action = Call(client: nat, op: Op) | Move(client: nat)

  function Initial(slots: seq<Slot>, n: nat): State {
    State(slots, None, seq(n, _ => Idle), [])
  }

  predicate Holds(pc: Pc) {
    !pc.Idle? && !pc.Waiting?
  }

  /** One slot examined: a match ends the scan, a put remembers the first free slot, and a list
      adds the key to its text until it no longer fits. */
  function Examine(z: Sizes, slot: Slot, pc: Pc): Pc
    requires pc.Scanning?
  {
    var next := Scanning(pc.op, pc.i + 1, pc.free, pc.count, pc.text);
    match pc.op
    case PutOp(key, _) =>
      if Matches(slot, key) then Overwriting(pc.op, pc.i)
      else if !slot.used && pc.free.None? then Scanning(pc.op, pc.i + 1, Some(pc.i), pc.count, pc.text)
      else next
    case GetOp(key) => if Matches(slot, key) then CopyingOut(pc.op, pc.i) else next
    case DelOp(key) => if Matches(slot, key) then Clearing(pc.op, pc.i) else next
    case ListOp(_) =>
      var piece := slot.key + " ";
      if !slot.used then next
      else if |piece| + |pc.text| >= z.list then
        Unlocking(pc.op, Listed(pc.count + 1, (pc.text + piece)[..z.list - 1]))
      else Scanning(pc.op, pc.i + 1, pc.free, pc.count + 1, pc.text + piece)
  }

  /** What follows a scan that met no match. */
  function AfterScan(pc: Pc): Pc
    requires pc.Scanning?
  {
    match pc.op
    case PutOp(_, _) => if pc.free.Some? then WritingKey(pc.op, pc.free.value) else Unlocking(pc.op, Done(false))
    case GetOp(_) => Unlocking(pc.op, Read(None))
    case DelOp(_) => Unlocking(pc.op, Done(false))
    case ListOp(prior) => Unlocking(pc.op, Listed(pc.count, if pc.count == 0 then prior else pc.text))
  }

  /** One step of the client that holds the lock, up to the unlock. */
  function Advance(z: Sizes, slots: seq<Slot>, pc: Pc): (r: (seq<Slot>, Pc))
    requires Holds(pc) && !pc.Unlocking?
    ensures |r.0| == |slots|
  {
    if pc.Scanning? then
      (slots, if pc.i < |slots| then Examine(z, slots[pc.i], pc) else AfterScan(pc))
    else if pc.i >= |slots| then (slots, pc)
    else
      var slot := slots[pc.i];
      match pc
      case Overwriting(PutOp(_, v), i) => (slots[i := slot.(value := Cut(v, z.value))], Unlocking(pc.op, Done(true)))
      case WritingKey(PutOp(k, _), i) => (slots[i := slot.(key := Cut(k, z.key))], WritingValue(pc.op, i))
      case WritingValue(PutOp(_, v), i) => (slots[i := slot.(value := Cut(v, z.value))], Marking(pc.op, i))
      case Marking(op, i) => (slots[i := slot.(used := true)], Unlocking(op, Done(true)))
      case CopyingOut(op, i) => (slots, Unlocking(op, Read(Some(slot.value))))
      case Clearing(op, i) => (slots[i := slot.(used := false)], Unlocking(op, Done(true)))
      case _ => (slots, pc)
  }

  function SetPc(s: State, c: nat, pc: Pc): State
    requires c < |s.clients|
  {
    s.(clients := s.clients[c := pc])
  }

  /** One atomic step; None when the client cannot take it. */
  function Next(z: Sizes, s: State, a: Action): Option<State> {
    if a.client >= |s.clients| then None
    else
      var c := a.client;
      var pc := s.clients[c];
      if a.Call? then
        if pc.Idle? then Some(SetPc(s, c, Waiting(a.op))) else None
      else
        match pc
        case Idle => None
        case Waiting(op) =>
          if s.holder.Some? then None
          else Some(SetPc(s, c, Scanning(op, 0, None, 0, "")).(holder := Some(c)))
        case Unlocking(op, result) =>
          Some(SetPc(s, c, Idle).(holder := None, log := s.log + [Entry(c, op, result)]))
        case _ =>
          var (slots, pc') := Advance(z, s.slots, pc);
          Some(SetPc(s, c, pc').(slots := slots))
  }

  function Exec(z: Sizes, s: State, actions: seq<Action>): Option<State> {
    if actions == [] then Some(s)
    else
      var n := |actions| - 1;
      match Exec(z, s, actions[..n])
      case None => None
      case Some(mid) => Next(z, mid, actions[n])
  }

  // ----- Invariant -----

  function Ops(log: seq<Entry>): (ops: seq<Op>)
    ensures |ops| == |log| && forall i :: 0 <= i < |log| ==> ops[i] == log[i].op
  {
    seq(|log|, i requires 0 <= i < |log| => log[i].op)
  }

  /** Every result in the log is that of the operations run one after the other. */
  ghost predicate Sequential(z: Sizes, slots: seq<Slot>, log: seq<Entry>) {
    forall i :: 0 <= i < |log| ==> log[i].result == Expected(z, slots, log, i)
  }

  function Expected(z: Sizes, slots: seq<Slot>, log: seq<Entry>, i: nat): Result
    requires i < |log|
  {
    Apply(z, Replay(z, slots, Ops(log)[..i]), log[i].op).1
  }

  ghost predicate Mutex(s: State) {
    forall c :: 0 <= c < |s.clients| ==> (Holds(s.clients[c]) <==> s.holder == Some(c))
  }

  /** What a client in the middle of an operation has done to the slots it found. */
  ghost predicate Mid(z: Sizes, base: seq<Slot>, slots: seq<Slot>, pc: Pc)
    requires Holds(pc)
  {
    match pc
    case Scanning(op, i, free, count, text) =>
      slots == base && i <= |base| && ScanOk(z, base, op, i, free, count, text)
    case Overwriting(op, i) =>
      slots == base && op.PutOp? && i == Find(base, op.key) < |base|
    case WritingKey(op, i) =>
      Inserting(base, op, i) && slots == base
    case WritingValue(op, i) =>
      Inserting(base, op, i) && slots == base[i := base[i].(key := Cut(op.key, z.key))]
    case Marking(op, i) =>
      Inserting(base, op, i)
      && slots == base[i := base[i].(key := Cut(op.key, z.key), value := Cut(op.value, z.value))]
    case CopyingOut(op, i) => slots == base && op.GetOp? && i == Find(base, op.key) < |base|
    case Clearing(op, i) => slots == base && op.DelOp? && i == Find(base, op.key) < |base|
    case Unlocking(op, result) => (slots, result) == Apply(z, base, op)
  }

  ghost predicate Inserting(base: seq<Slot>, op: Op, i: nat) {
    op.PutOp? && Find(base, op.key) == |base| && i == FirstFree(base) < |base|
  }

  ghost predicate ScanOk(z: Sizes, base: seq<Slot>, op: Op, i: nat, free: Option<nat>, count: nat, text: string)
    requires i <= |base|
  {
    match op
    case PutOp(key, _) => NoMatch(base, key, i) && FreeOk(base, i, free)
    case GetOp(key) => NoMatch(base, key, i)
    case DelOp(key) => NoMatch(base, key, i)
    case ListOp(_) => |text| < z.list && ListOk(z.list, base, i, count, text)
  }

  ghost predicate NoMatch(base: seq<Slot>, key: string, i: nat)
    requires i <= |base|
  {
    forall j :: 0 <= j < i ==> !Matches(base[j], key)
  }

  ghost predicate FreeOk(base: seq<Slot>, i: nat, free: Option<nat>)
    requires i <= |base|
  {
    match free
    case None => forall j :: 0 <= j < i ==> base[j].used
    case Some(f) => f < i && f == FirstFree(base)
  }

  ghost predicate SlotsOk(z: Sizes, init: seq<Slot>, s: State) {
    var base := Replay(z, init, Ops(s.log));
    match s.holder
    case None => s.slots == base
    case Some(c) => c < |s.clients| && Holds(s.clients[c]) && Mid(z, base, s.slots, s.clients[c])
  }

  ghost predicate Inv(z: Sizes, init: seq<Slot>, s: State) {
    Mutex(s) && SlotsOk(z, init, s) && Sequential(z, init, s.log)
  }

  lemma FindsHere(base: seq<Slot>, key: string, i: nat)
    requires i < |base| && NoMatch(base, key, i) && Matches(base[i], key)
    ensures Find(base, key) == i
  {
  }

  lemma FindsNowhere(base: seq<Slot>, key: string)
    requires NoMatch(base, key, |base|)
    ensures Find(base, key) == |base|
  {
  }

  lemma FreeNext(base: seq<Slot>, i: nat, free: Option<nat>)
    requires i < |base| && FreeOk(base, i, free)
    ensures FreeOk(base, i + 1, if !base[i].used && free.None? then Some(i) else free)
  {
  }

  lemma FreeAtEnd(base: seq<Slot>, free: Option<nat>)
    requires FreeOk(base, |base|, free)
    ensures FirstFree(base) == if free.None? then |base| else free.value
    ensures free.Some? ==> free.value < |base|
  {
  }

  lemma ScanStarts(z: Sizes, base: seq<Slot>, op: Op)
    ensures ScanOk(z, base, op, 0, None, 0, "")
  {
    ListStarts(z.list, base);
  }

  lemma ExamineKeeps(z: Sizes, base: seq<Slot>, pc: Pc)
    requires pc.Scanning? && pc.i < |base| && Mid(z, base, base, pc)
    ensures var pc' := Examine(z, base[pc.i], pc); Holds(pc') && Mid(z, base, base, pc')
  {
    hide Find, FirstFree, List, ListOk, FreeOk;
    match pc.op
    case PutOp(key, _) =>
      if Matches(base[pc.i], key) {
        FindsHere(base, key, pc.i);
      } else {
        FreeNext(base, pc.i, pc.free);
      }
    case GetOp(key) => if Matches(base[pc.i], key) { FindsHere(base, key, pc.i); }
    case DelOp(key) => if Matches(base[pc.i], key) { FindsHere(base, key, pc.i); }
    case ListOp(_) => ListNext(z.list, base, pc.i, pc.count, pc.text);
  }

  lemma AfterScanKeeps(z: Sizes, base: seq<Slot>, pc: Pc)
    requires pc.Scanning? && pc.i == |base| && Mid(z, base, base, pc)
    ensures var pc' := AfterScan(pc); Holds(pc') && Mid(z, base, base, pc')
  {
    hide Find, FirstFree, List, ListOk, FreeOk;
    match pc.op
    case PutOp(key, _) =>
      FindsNowhere(base, key);
      FreeAtEnd(base, pc.free);
    case GetOp(key) => FindsNowhere(base, key);
    case DelOp(key) => FindsNowhere(base, key);
    case ListOp(_) => ListEnds(z.list, base, pc.count, pc.text);
  }

  lemma AdvanceKeeps(z: Sizes, base: seq<Slot>, slots: seq<Slot>, pc: Pc)
    requires Holds(pc) && !pc.Unlocking? && Mid(z, base, slots, pc)
    ensures var (slots', pc') := Advance(z, slots, pc); Holds(pc') && Mid(z, base, slots', pc')
  {
    hide Find, FirstFree, List, ScanOk, Cut;
    if pc.Scanning? {
      hide Mid;
      assert slots == base && pc.i <= |base| by { ScanningMeans(z, base, slots, pc); }
      if pc.i < |slots| {
        ExamineKeeps(z, base, pc);
      } else {
        AfterScanKeeps(z, base, pc);
      }
    } else if pc.WritingValue? || pc.Marking? {
      WriteKeeps(z, base, slots, pc);
    }
  }

  /** A slot written field by field is a slot written once. */
  lemma WriteKeeps(z: Sizes, base: seq<Slot>, slots: seq<Slot>, pc: Pc)
    requires pc.WritingValue? || pc.Marking?
    requires Mid(z, base, slots, pc)
    ensures var (slots', pc') := Advance(z, slots, pc); Holds(pc') && Mid(z, base, slots', pc')
  {
    hide Find, FirstFree, List, ScanOk, Cut;
    var slot := Slot(Cut(pc.op.key, z.key), Cut(pc.op.value, z.value), pc.Marking?);
    assert slots[pc.i := slot] == base[pc.i := slot];
  }

  lemma ScanningMeans(z: Sizes, base: seq<Slot>, slots: seq<Slot>, pc: Pc)
    requires pc.Scanning? && Mid(z, base, slots, pc)
    ensures slots == base && pc.i <= |base|
  {
  }

  lemma InitialInv(z: Sizes, slots: seq<Slot>, n: nat)
    ensures Inv(z, slots, Initial(slots, n))
  {
    assert Ops([]) == [];
  }

  lemma MutexKept(z: Sizes, init: seq<Slot>, s: State, a: Action)
    requires Inv(z, init, s) && Next(z, s, a).Some?
    ensures Mutex(Next(z, s, a).value)
  {
    hide Sequential, Mid, Advance, Examine, AfterScan;
    var c := a.client;
    var pc := s.clients[c];
    assert Holds(pc) <==> s.holder == Some(c);
    if a.Move? && Holds(pc) && !pc.Unlocking? {
      HolderIs(z, init, s, c);
      AdvanceKeeps(z, Replay(z, init, Ops(s.log)), s.slots, pc);
    }
  }

  lemma HolderIs(z: Sizes, init: seq<Slot>, s: State, c: nat)
    requires Inv(z, init, s) && c < |s.clients| && Holds(s.clients[c])
    ensures s.holder == Some(c) && Mid(z, Replay(z, init, Ops(s.log)), s.slots, s.clients[c])
  {
    hide Sequential, Mid;
  }

  lemma SlotsOkKept(z: Sizes, init: seq<Slot>, s: State, a: Action)
    requires Inv(z, init, s) && Next(z, s, a).Some?
    ensures SlotsOk(z, init, Next(z, s, a).value)
  {
    hide Sequential, Advance, Examine, AfterScan, Mid, ScanOk, Apply, Replay, Ops;
    var s', c := Next(z, s, a).value, a.client;
    var pc, base := s.clients[c], Replay(z, init, Ops(s.log));
    assert Holds(pc) <==> s.holder == Some(c);
    if a.Call? {
    } else if pc.Waiting? {
      ScanBegins(z, base, pc.op);
    } else {
      HolderIs(z, init, s, c);
      if pc.Unlocking? {
        Unlocks(z, init, s, c);
      } else {
        AdvanceKeeps(z, base, s.slots, pc);
      }
    }
  }

  lemma ScanBegins(z: Sizes, base: seq<Slot>, op: Op)
    ensures Mid(z, base, base, Scanning(op, 0, None, 0, ""))
  {
    ScanStarts(z, base, op);
  }

  lemma Unlocks(z: Sizes, init: seq<Slot>, s: State, c: nat)
    requires c < |s.clients| && s.clients[c].Unlocking?
    requires Mid(z, Replay(z, init, Ops(s.log)), s.slots, s.clients[c])
    ensures var pc := s.clients[c];
            var entry := Entry(c, pc.op, pc.result);
            && Replay(z, init, Ops(s.log + [entry])) == s.slots
            && pc.result == Apply(z, Replay(z, init, Ops(s.log)), pc.op).1
  {
    hide Apply;
    var pc := s.clients[c];
    OpsSnoc(s.log, Entry(c, pc.op, pc.result));
  }

  lemma OpsSnoc(log: seq<Entry>, e: Entry)
    ensures var ops := Ops(log + [e]); ops == Ops(log) + [e.op] && ops[..|log|] == Ops(log)
  {
  }

  lemma SequentialSnoc(z: Sizes, init: seq<Slot>, log: seq<Entry>, e: Entry)
    requires Sequential(z, init, log) && e.result == Apply(z, Replay(z, init, Ops(log)), e.op).1
    ensures Sequential(z, init, log + [e])
  {
    hide Apply, Replay;
    OpsSnoc(log, e);
    forall i | 0 <= i < |log + [e]| ensures (log + [e])[i].result == Expected(z, init, log + [e], i) {
      if i < |log| {
        assert Ops(log + [e])[..i] == Ops(log)[..i];
        assert log[i].result == Expected(z, init, log, i);
      }
    }
  }

  lemma StepInv(z: Sizes, init: seq<Slot>, s: State, a: Action)
    requires Inv(z, init, s) && Next(z, s, a).Some?
    ensures Inv(z, init, Next(z, s, a).value)
  {
    hide Sequential, Advance, SlotsOk, Mutex;
    MutexKept(z, init, s, a);
    SlotsOkKept(z, init, s, a);
    var pc := s.clients[a.client];
    if a.Move? && pc.Unlocking? {
      HolderIs(z, init, s, a.client);
      Unlocks(z, init, s, a.client);
      SequentialSnoc(z, init, s.log, Entry(a.client, pc.op, pc.result));
    }
  }

  lemma {:induction false} ExecInv(z: Sizes, init: seq<Slot>, s: State, actions: seq<Action>)
    requires Inv(z, init, s) && Exec(z, s, actions).Some?
    ensures Inv(z, init, Exec(z, s, actions).value)
  {
    if actions != [] {
      hide Inv, Next;
      var n := |actions| - 1;
      ExecInv(z, init, s, actions[..n]);
      StepInv(z, init, Exec(z, s, actions[..n]).value, actions[n]);
    }
  }

  // ----- Results -----

  /** Under every interleaving, the operations have the results and the effect they have when
      run one after the other in the order of the log. */
  lemma Linearizable(z: Sizes, slots: seq<Slot>, n: nat, actions: seq<Action>)
    requires Exec(z, Initial(slots, n), actions).Some?
    ensures var s := Exec(z, Initial(slots, n), actions).value;
            && Sequential(z, slots, s.log)
            && (s.holder.None? ==> s.slots == Replay(z, slots, Ops(s.log)))
  {
    hide Sequential, Mutex, Mid, Exec;
    InitialInv(z, slots, n);
    ExecInv(z, slots, Initial(slots, n), actions);
  }

  /** Whenever the lock is free, the slots of a store that began empty stand for the bounded map
      made by the logged operations, with no key twice. */
  lemma ActsAsMap(z: Sizes, slots: seq<Slot>, n: nat, actions: seq<Action>)
    requires AllFree(slots) && Exec(z, Initial(slots, n), actions).Some?
    requires var s := Exec(z, Initial(slots, n), actions).value;
             s.holder.None? && ShortKeys(z, Ops(s.log))
    ensures var s := Exec(z, Initial(slots, n), actions).value;
            Valid(z, s.slots) && MapOf(s.slots) == MapReplay(z, |slots|, Ops(s.log))
  {
    hide Sequential, Exec, MapOf, Valid;
    Linearizable(z, slots, n, actions);
    ReplayRefines(z, slots, Ops(Exec(z, Initial(slots, n), actions).value.log));
  }

  lemma {:induction false} ReplayAppend(z: Sizes, slots: seq<Slot>, a: seq<Op>, b: seq<Op>)
    ensures Replay(z, slots, a + b) == Replay(z, Replay(z, slots, a), b)
  {
    hide Replay, Apply;
    if b == [] {
      ReplayNone(z, Replay(z, slots, a));
      assert a + b == a;
    } else {
      var front, last := b[..|b| - 1], b[|b| - 1];
      ReplayAppend(z, slots, a, front);
      AppendLast(a, b);
      ReplayLast(z, slots, a + front, last);
      ReplayLast(z, Replay(z, slots, a), front, last);
    }
  }

  lemma AppendLast(a: seq<Op>, b: seq<Op>)
    requires b != []
    ensures var front, last := b[..|b| - 1], b[|b| - 1];
            a + b == (a + front) + [last] && b == front + [last]
  {
  }

  lemma ReplayNone(z: Sizes, slots: seq<Slot>)
    ensures Replay(z, slots, []) == slots
  {
  }

  lemma ReplayLast(z: Sizes, slots: seq<Slot>, ops: seq<Op>, op: Op)
    ensures Replay(z, slots, ops + [op]) == Apply(z, Replay(z, slots, ops), op).0
  {
    hide Apply;
    assert (ops + [op])[..|ops|] == ops;
  }

  /** A read that comes after a store to the same key, with only operations that spare the key
      between them, finds the stored value exactly when the store did not fail. */
  lemma PutThenGet(z: Sizes, slots: seq<Slot>, n: nat, actions: seq<Action>, i: nat, j: nat)
    requires AllFree(slots) && Exec(z, Initial(slots, n), actions).Some?
    requires var log := Exec(z, Initial(slots, n), actions).value.log;
             && ShortKeys(z, Ops(log)) && i < j < |log|
             && log[i].op.PutOp? && log[j].op == GetOp(log[i].op.key)
             && forall x :: i < x < j ==> Spares(log[x].op, log[i].op.key)
    ensures var log := Exec(z, Initial(slots, n), actions).value.log;
            && log[i].result.Done?
            && log[j].result ==
                 Read(if log[i].result.ok then Some(Cut(log[i].op.value, z.value)) else None)
  {
    hide Exec, Get, Replay, Sequential, Valid, MapOf;
    Linearizable(z, slots, n, actions);
    var log := Exec(z, Initial(slots, n), actions).value.log;
    ResultAt(z, slots, log, i);
    ResultAt(z, slots, log, j);
    PutGetInLog(z, slots, log, i, j);
  }

  lemma ResultAt(z: Sizes, slots: seq<Slot>, log: seq<Entry>, i: nat)
    requires Sequential(z, slots, log) && i < |log|
    ensures log[i].result == Expected(z, slots, log, i)
  {
  }

  lemma PutGetInLog(z: Sizes, slots: seq<Slot>, log: seq<Entry>, i: nat, j: nat)
    requires AllFree(slots) && ShortKeys(z, Ops(log)) && i < j < |log|
    requires log[i].op.PutOp? && log[j].op == GetOp(log[i].op.key)
    requires forall x :: i < x < j ==> Spares(log[x].op, log[i].op.key)
    ensures var put, get := Expected(z, slots, log, i), Expected(z, slots, log, j);
            put.Done? && get == Read(if put.ok then Some(Cut(log[i].op.value, z.value)) else None)
  {
    hide Get, Replay, Valid, MapOf, Put;
    var ops := Ops(log);
    var key, value, later := log[i].op.key, log[i].op.value, ops[i + 1..j];
    var before := Replay(z, slots, ops[..i]);
    ReplayRefines(z, slots, ops[..i]);
    ReplaySnoc(z, slots, ops, i);
    assert ops[..j] == ops[..i + 1] + later;
    ReplayAppend(z, slots, ops[..i + 1], later);
    assert forall x :: 0 <= x < |later| ==> later[x] == log[i + 1 + x].op;
    StoredIsRead(z, before, key, value, later);
  }

  lemma ReplaySnoc(z: Sizes, slots: seq<Slot>, ops: seq<Op>, i: nat)
    requires i < |ops|
    ensures Replay(z, slots, ops[..i + 1]) == Apply(z, Replay(z, slots, ops[..i]), ops[i]).0
  {
    assert ops[..i + 1][..i] == ops[..i];
  }

  /** The log only grows. */
  lemma {:induction false} LogGrows(z: Sizes, s: State, actions: seq<Action>, i: nat)
    requires i <= |actions| && Exec(z, s, actions).Some?
    ensures Exec(z, s, actions[..i]).Some?
    ensures Exec(z, s, actions[..i]).value.log <= Exec(z, s, actions).value.log
  {
    var n := |actions| - 1;
    if i == |actions| {
      assert actions[..i] == actions;
    } else {
      hide Advance;
      LogGrows(z, s, actions[..n], i);
      assert actions[..n][..i] == actions[..i];
    }
  }

  /** The state after the first n actions. */
  ghost function StateAt(z: Sizes, s: State, actions: seq<Action>, n: nat): State
    requires n <= |actions| && Exec(z, s, actions).Some?
  {
    LogGrows(z, s, actions, n);
    Exec(z, s, actions[..n]).value
  }

  lemma StateStep(z: Sizes, s: State, actions: seq<Action>, n: nat)
    requires n < |actions| && Exec(z, s, actions).Some?
    ensures Next(z, StateAt(z, s, actions, n), actions[n]) == Some(StateAt(z, s, actions, n + 1))
  {
    hide Next;
    LogGrows(z, s, actions, n);
    LogGrows(z, s, actions, n + 1);
    assert actions[..n + 1][..n] == actions[..n];
  }

  /** Action u of the run logs a result of client c. */
  ghost predicate LogsAt(z: Sizes, s: State, actions: seq<Action>, u: nat, c: nat)
    requires u < |actions| && Exec(z, s, actions).Some?
  {
    actions[u].client == c && |StateAt(z, s, actions, u + 1).log| > |StateAt(z, s, actions, u).log|
  }

  /** Action u ends the operation that action t called: the next result its client logs. */
  ghost predicate Ends(z: Sizes, s: State, actions: seq<Action>, t: nat, u: nat)
    requires t < u < |actions| && Exec(z, s, actions).Some?
  {
    && actions[t].Call? && LogsAt(z, s, actions, u, actions[t].client)
    && forall v :: t < v < u ==> !LogsAt(z, s, actions, v, actions[t].client)
  }

  predicate Busy(s: State, c: nat, op: Op) {
    c < |s.clients| && !s.clients[c].Idle? && s.clients[c].op == op
  }

  lemma AdvanceSameOp(z: Sizes, slots: seq<Slot>, pc: Pc)
    requires Holds(pc) && !pc.Unlocking?
    ensures var pc' := Advance(z, slots, pc).1; !pc'.Idle? && pc'.op == pc.op
  {
    hide Cut;
  }

  lemma StaysBusy(z: Sizes, s: State, a: Action, c: nat, op: Op)
    requires Busy(s, c, op) && Next(z, s, a).Some?
    ensures var s' := Next(z, s, a).value;
            if a.client == c && |s'.log| > |s.log|
            then s'.log == s.log + [s'.log[|s.log|]] && s'.log[|s.log|].client == c && s'.log[|s.log|].op == op
            else Busy(s', c, op)
  {
    hide Advance;
    var pc := s.clients[a.client];
    if a.Move? && Holds(pc) && !pc.Unlocking? {
      AdvanceSameOp(z, s.slots, pc);
    }
  }

  lemma {:induction false} BusyUntil(z: Sizes, s: State, actions: seq<Action>, t: nat, n: nat)
    requires Exec(z, s, actions).Some? && t < n <= |actions| && actions[t].Call?
    requires forall v :: t < v < n ==> !LogsAt(z, s, actions, v, actions[t].client)
    ensures Busy(StateAt(z, s, actions, n), actions[t].client, actions[t].op)
  {
    hide Next, Exec, StateAt;
    StateStep(z, s, actions, n - 1);
    if n == t + 1 {
      Called(z, StateAt(z, s, actions, t), actions[t]);
    } else {
      BusyUntil(z, s, actions, t, n - 1);
      assert !LogsAt(z, s, actions, n - 1, actions[t].client);
      StaysBusy(z, StateAt(z, s, actions, n - 1), actions[n - 1], actions[t].client, actions[t].op);
    }
  }

  lemma Called(z: Sizes, s: State, a: Action)
    requires a.Call? && Next(z, s, a).Some?
    ensures Busy(Next(z, s, a).value, a.client, a.op)
  {
  }

  /** An operation stands in the final log where its client logged its result. */
  lemma EntryOfCall(z: Sizes, s: State, actions: seq<Action>, t: nat, u: nat)
    requires Exec(z, s, actions).Some? && t < u < |actions| && Ends(z, s, actions, t, u)
    ensures var log, j := Exec(z, s, actions).value.log, |StateAt(z, s, actions, u).log|;
            && j < |log| && log[j].client == actions[t].client && log[j].op == actions[t].op
            && |StateAt(z, s, actions, u + 1).log| == j + 1
  {
    hide Next, Exec;
    BusyUntil(z, s, actions, t, u);
    StateStep(z, s, actions, u);
    LogGrows(z, s, actions, u + 1);
    StaysBusy(z, StateAt(z, s, actions, u), actions[u], actions[t].client, actions[t].op);
  }

  /** The lock order respects real time: an operation that ended before another was called comes
      before it in the log. */
  lemma RealTimeOrder(z: Sizes, s: State, actions: seq<Action>, t: nat, u: nat, t': nat, u': nat)
    requires Exec(z, s, actions).Some? && t < u < t' < u' < |actions|
    requires Ends(z, s, actions, t, u) && Ends(z, s, actions, t', u')
    ensures var log := Exec(z, s, actions).value.log;
            var i, j := |StateAt(z, s, actions, u).log|, |StateAt(z, s, actions, u').log|;
            && i < j < |log|
            && log[i].client == actions[t].client && log[i].op == actions[t].op
            && log[j].client == actions[t'].client && log[j].op == actions[t'].op
  {
    hide Next, Exec, Ends;
    EntryOfCall(z, s, actions, t, u);
    EntryOfCall(z, s, actions, t', u');
    LogGrowsBetween(z, s, actions, u + 1, u');
  }

  lemma LogGrowsBetween(z: Sizes, s: State, actions: seq<Action>, m: nat, n: nat)
    requires Exec(z, s, actions).Some? && m <= n <= |actions|
    ensures StateAt(z, s, actions, m).log <= StateAt(z, s, actions, n).log
  {
    hide Next, Exec;
    LogGrows(z, s, actions, n);
    LogGrows(z, s, actions[..n], m);
    assert actions[..n][..m] == actions[..m];
  }

  // ----- Progress -----

  /** A client in the middle of an operation never leaves all clients stuck. */
  lemma NoDeadlock(z: Sizes, slots: seq<Slot>, n: nat, actions: seq<Action>)
    requires Exec(z, Initial(slots, n), actions).Some?
    requires var s := Exec(z, Initial(slots, n), actions).value;
             exists c :: 0 <= c < |s.clients| && !s.clients[c].Idle?
    ensures var s := Exec(z, Initial(slots, n), actions).value;
            exists c :: 0 <= c < |s.clients| && Next(z, s, Move(c)).Some?
  {
    hide Exec, Sequential, Mid, Advance;
    InitialInv(z, slots, n);
    ExecInv(z, slots, Initial(slots, n), actions);
    var s := Exec(z, Initial(slots, n), actions).value;
    var c :| 0 <= c < |s.clients| && !s.clients[c].Idle?;
    var d: nat := if s.holder.Some? then s.holder.value else c;
    assert Next(z, s, Move(d)).Some?;
  }

  /** An upper bound on the steps a client still has before it is idle. */
  function Left(n: nat, pc: Pc): int {
    match pc
    case Idle => 0
    case Waiting(_) => n + 6
    case Scanning(_, i, _, _, _) => n - i + 5
    case WritingKey(_, _) => 4
    case WritingValue(_, _) => 3
    case Unlocking(_, _) => 1
    case _ => 2
  }

  function LeftOf(s: State): (w: seq<int>)
    ensures |w| == |s.clients|
  {
    seq(|s.clients|, c requires 0 <= c < |s.clients| => Left(|s.slots|, s.clients[c]))
  }

  function Calls(actions: seq<Action>): nat {
    if actions == [] then 0
    else Calls(actions[..|actions| - 1]) + if actions[|actions| - 1].Call? then 1 else 0
  }

  lemma AdvanceLeft(z: Sizes, base: seq<Slot>, slots: seq<Slot>, pc: Pc)
    requires Holds(pc) && !pc.Unlocking? && Mid(z, base, slots, pc)
    ensures Left(|slots|, Advance(z, slots, pc).1) <= Left(|slots|, pc) - 1
  {
    hide Find, FirstFree, List, ScanOk, Cut;
  }

  lemma StepLeft(z: Sizes, init: seq<Slot>, s: State, a: Action)
    requires Inv(z, init, s) && Next(z, s, a).Some?
    ensures |Next(z, s, a).value.slots| == |s.slots|
    ensures Sum(LeftOf(Next(z, s, a).value)) <=
              Sum(LeftOf(s)) + if a.Call? then |s.slots| + 6 else -1
  {
    hide Mid, Advance;
    var s', c := Next(z, s, a).value, a.client;
    var pc, pc' := s.clients[c], s'.clients[c];
    var n := |s.slots|;
    if a.Move? && Holds(pc) && !pc.Unlocking? {
      HolderIs(z, init, s, c);
      AdvanceLeft(z, Replay(z, init, Ops(s.log)), s.slots, pc);
    }
    assert |s'.slots| == n;
    assert LeftOf(s') == LeftOf(s)[c := Left(n, pc')];
    SumUpdate(LeftOf(s), c, Left(n, pc'));
  }

  /** The steps that so many calls may take. */
  function Budget(calls: nat, slots: nat): int {
    calls * (slots + 6)
  }

  lemma OneMore(calls: nat, slots: nat)
    ensures Budget(calls + 1, slots) == Budget(calls, slots) + slots + 6
  {
  }

  lemma CallsSnoc(actions: seq<Action>, n: nat)
    requires n + 1 == |actions|
    ensures Calls(actions) == Calls(actions[..n]) + if actions[n].Call? then 1 else 0
  {
  }

  /** In any run the clients together take at most a fixed number of steps for each call. */
  lemma {:induction false} StepsPerCall(z: Sizes, slots: seq<Slot>, n: nat, actions: seq<Action>)
    requires Exec(z, Initial(slots, n), actions).Some?
    ensures var s := Exec(z, Initial(slots, n), actions).value;
            && |s.slots| == |slots|
            && Sum(LeftOf(s)) + |actions| - Calls(actions) <= Calls(actions) * (|slots| + 6)
            && Budget(Calls(actions), |slots|) == Calls(actions) * (|slots| + 6)
  {
    hide Inv, Next, LeftOf, Sum, Initial, Budget, Calls, Exec;
    var s := Initial(slots, n);
    if actions == [] {
      NoSteps(z, slots, n);
    } else {
      var m := |actions| - 1;
      var front := actions[..m];
      ExecLast(z, s, actions, m);
      StepsPerCall(z, slots, n, front);
      InitialInv(z, slots, n);
      ExecInv(z, slots, s, front);
      StepLeft(z, slots, Exec(z, s, front).value, actions[m]);
      CallsSnoc(actions, m);
      OneMore(Calls(front), |slots|);
    }
    BudgetIs(Calls(actions), |slots|);
  }

  lemma BudgetIs(calls: nat, slots: nat)
    ensures Budget(calls, slots) == calls * (slots + 6)
  {
  }

  lemma NoSteps(z: Sizes, slots: seq<Slot>, n: nat)
    ensures Exec(z, Initial(slots, n), []) == Some(Initial(slots, n)) && Initial(slots, n).slots == slots
    ensures Sum(LeftOf(Initial(slots, n))) == 0 == Budget(Calls([]), |slots|) && Calls([]) == 0
  {
    SumConstant(LeftOf(Initial(slots, n)), 0);
  }

  lemma ExecLast(z: Sizes, s: State, actions: seq<Action>, m: nat)
    requires m + 1 == |actions| && Exec(z, s, actions).Some?
    ensures Exec(z, s, actions[..m]).Some?
    ensures Next(z, Exec(z, s, actions[..m]).value, actions[m]) == Exec(z, s, actions)
  {
    hide Next;
  }

  /** When all clients are idle again, every call has its entry in the log. */
  lemma {:induction false} EveryCallAnswered(z: Sizes, slots: seq<Slot>, n: nat, actions: seq<Action>)
    requires Exec(z, Initial(slots, n), actions).Some?
    ensures var s := Exec(z, Initial(slots, n), actions).value;
            |s.log| + Sum(BusyOf(s)) == Calls(actions)
  {
    var s := Initial(slots, n);
    if actions == [] {
      SumConstant(BusyOf(s), 0);
    } else {
      hide Advance;
      var m := |actions| - 1;
      EveryCallAnswered(z, slots, n, actions[..m]);
      StepBusy(z, Exec(z, s, actions[..m]).value, actions[m]);
    }
  }

  function BusyOf(s: State): (w: seq<int>)
    ensures |w| == |s.clients|
  {
    seq(|s.clients|, c requires 0 <= c < |s.clients| => if s.clients[c].Idle? then 0 else 1)
  }

  lemma StepBusy(z: Sizes, s: State, a: Action)
    requires Next(z, s, a).Some?
    ensures var s' := Next(z, s, a).value;
            |s'.log| + Sum(BusyOf(s')) == |s.log| + Sum(BusyOf(s)) + if a.Call? then 1 else 0
  {
    var s', c := Next(z, s, a).value, a.client;
    var busy := if s'.clients[c].Idle? then 0 else 1;
    assert BusyOf(s') == BusyOf(s)[c := busy];
    SumUpdate(BusyOf(s), c, busy);
  }
}
