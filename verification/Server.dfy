/** The whole server: any number of sessions at once on one shared store. */
module Server {
  import opened CStrings
  import opened Options
  import opened KeyValueStore
  import opened Wire
  import opened Session
  import SharedStore

  /** What a session is busy with: the line it heard, and the text left in its list buffer. */
  datatype Task = Task(event: Received, prior: string)

  /** The store and, for each client, the steps of its session so far and the one in progress. */
  datatype State = State(store: SharedStore.State, histories: seq<seq<Step>>, tasks: seq<Option<Task>>)

  /** A session hears the next event, or goes one atomic step on with its operation. */
  datatype Action = Hear(client: nat, event: Received, prior: string) | Work(client: nat)

  function Initial(slots: seq<Slot>, n: nat): State {
    State(SharedStore.Initial(slots, n), seq(n, _ => []), seq(n, _ => None))
  }

  predicate Sized(s: State, n: nat) {
    |s.store.clients| == |s.histories| == |s.tasks| == n
  }

  function Record(s: State, c: nat, step: Step): State
    requires c < |s.histories| && c < |s.tasks|
  {
    s.(histories := s.histories[c := s.histories[c] + [step]], tasks := s.tasks[c := None])
  }

  /** A session that asks nothing of the store answers at once; else its step ends with the
      operation's unlock. */
  function Next(s: State, a: Action): Option<State> {
    var c := a.client;
    if c >= |s.histories| || c >= |s.tasks| then None
    else
      match a
      case Hear(_, event, prior) =>
        var client := After(s.histories[c]);
        if !client.open || s.tasks[c].Some? then None
        else
          (match Request(client, event, prior)
           case None => Some(Record(s, c, Step(event, prior, Done(false))))
           case Some(op) =>
             (match SharedStore.Next(SERVER_SIZES, s.store, SharedStore.Call(c, op))
              case None => None
              case Some(store) => Some(s.(store := store, tasks := s.tasks[c := Some(Task(event, prior))]))))
      case Work(_) =>
        if s.tasks[c].None? then None
        else
          match SharedStore.Next(SERVER_SIZES, s.store, SharedStore.Move(c))
          case None => None
          case Some(store) =>
            var n, t := |s.store.log|, s.tasks[c].value;
            if |store.log| > n then
              Some(Record(s.(store := store), c, Step(t.event, t.prior, store.log[n].result)))
            else Some(s.(store := store))
  }

  function Exec(s: State, actions: seq<Action>): Option<State> {
    if actions == [] then Some(s)
    else
      var n := |actions| - 1;
      match Exec(s, actions[..n])
      case None => None
      case Some(mid) => Next(mid, actions[n])
  }

  ghost predicate StoreRun(slots: seq<Slot>, n: nat, acts: seq<SharedStore.Action>, store: SharedStore.State) {
    SharedStore.Exec(SERVER_SIZES, SharedStore.Initial(slots, n), acts) == Some(store)
  }

  /** Step p of the history asked for the operation of the entry, and had its result. */
  predicate AnsweredAt(history: seq<Step>, p: nat, e: SharedStore.Entry) {
    p < |history| && RequestAt(history, p) == Some(e.op) && history[p].result == e.result
  }

  ghost predicate EntryAnswered(s: State, i: nat)
    requires i < |s.store.log|
  {
    var e := s.store.log[i];
    e.client < |s.histories| && exists p :: AnsweredAt(s.histories[e.client], p, e)
  }

  /** The task of a client is the operation it has in the store. */
  predicate TaskOk(s: State, c: nat)
    requires c < |s.histories| && c < |s.tasks| && c < |s.store.clients|
  {
    match s.tasks[c]
    case None => s.store.clients[c].Idle?
    case Some(t) =>
      !s.store.clients[c].Idle?
      && Request(After(s.histories[c]), t.event, t.prior) == Some(s.store.clients[c].op)
  }

  ghost predicate Inv(slots: seq<Slot>, n: nat, s: State) {
    && Sized(s, n)
    && (exists acts :: StoreRun(slots, n, acts, s.store))
    && (forall c :: 0 <= c < n ==> TaskOk(s, c))
    && (forall i :: 0 <= i < |s.store.log| ==> EntryAnswered(s, i))
  }

  lemma InitialInv(slots: seq<Slot>, n: nat)
    ensures Inv(slots, n, Initial(slots, n))
  {
    assert StoreRun(slots, n, [], SharedStore.Initial(slots, n));
  }

  lemma StoreRunOn(slots: seq<Slot>, n: nat, acts: seq<SharedStore.Action>, store: SharedStore.State,
                   a: SharedStore.Action)
    requires StoreRun(slots, n, acts, store) && SharedStore.Next(SERVER_SIZES, store, a).Some?
    ensures StoreRun(slots, n, acts + [a], SharedStore.Next(SERVER_SIZES, store, a).value)
  {
    hide SharedStore.Next, SharedStore.Initial;
    assert (acts + [a])[..|acts|] == acts;
  }

  lemma AnsweredStays(history: seq<Step>, step: Step, p: nat, e: SharedStore.Entry)
    requires AnsweredAt(history, p, e)
    ensures AnsweredAt(history + [step], p, e)
  {
    hide After, Request;
    assert (history + [step])[..p] == history[..p];
  }

  lemma AnsweredNow(history: seq<Step>, step: Step, e: SharedStore.Entry)
    requires Request(After(history), step.event, step.prior) == Some(e.op) && step.result == e.result
    ensures AnsweredAt(history + [step], |history|, e)
  {
    hide After, Request;
    assert (history + [step])[..|history|] == history;
  }

  /** Recording a step leaves what was answered. */
  lemma RecordKeeps(s: State, c: nat, step: Step, i: nat)
    requires c < |s.histories| && c < |s.tasks| && i < |s.store.log| && EntryAnswered(s, i)
    ensures EntryAnswered(Record(s, c, step), i)
  {
    hide AnsweredAt;
    var e, s' := s.store.log[i], Record(s, c, step);
    var p :| AnsweredAt(s.histories[e.client], p, e);
    if e.client == c {
      AnsweredStays(s.histories[c], step, p, e);
    }
    assert AnsweredAt(s'.histories[e.client], p, e);
  }

  lemma HearInv(slots: seq<Slot>, n: nat, s: State, a: Action)
    requires Inv(slots, n, s) && a.Hear? && Next(s, a).Some?
    ensures Inv(slots, n, Next(s, a).value)
  {
    hide After, Request, StoreRun, AnsweredAt;
    var s', c := Next(s, a).value, a.client;
    assert TaskOk(s, c);
    var acts :| StoreRun(slots, n, acts, s.store);
    match Request(After(s.histories[c]), a.event, a.prior)
    case None =>
      forall i | 0 <= i < |s'.store.log| ensures EntryAnswered(s', i) {
        RecordKeeps(s, c, Step(a.event, a.prior, Done(false)), i);
      }
      forall d | 0 <= d < n ensures TaskOk(s', d) {
        assert TaskOk(s, d);
      }
      assert StoreRun(slots, n, acts, s'.store);
    case Some(op) =>
      StoreRunOn(slots, n, acts, s.store, SharedStore.Call(c, op));
      assert StoreRun(slots, n, acts + [SharedStore.Call(c, op)], s'.store);
      forall i | 0 <= i < |s'.store.log| ensures EntryAnswered(s', i) {
        assert EntryAnswered(s, i);
      }
      forall d | 0 <= d < n ensures TaskOk(s', d) {
        assert TaskOk(s, d);
      }
  }

  /** One step of a busy client: it goes on with the same operation, or logs it and is idle. */
  lemma MoveEffect(store: SharedStore.State, c: nat)
    requires SharedStore.Next(SERVER_SIZES, store, SharedStore.Move(c)).Some?
    ensures var store' := SharedStore.Next(SERVER_SIZES, store, SharedStore.Move(c)).value;
            && c < |store.clients| == |store'.clients| && !store.clients[c].Idle?
            && (forall d :: 0 <= d < |store.clients| && d != c ==> store'.clients[d] == store.clients[d])
            && (if |store'.log| > |store.log|
                then store'.clients[c].Idle? && |store'.log| == |store.log| + 1
                     && store'.log[..|store.log|] == store.log
                     && store'.log[|store.log|].client == c && store'.log[|store.log|].op == store.clients[c].op
                else store'.log == store.log && !store'.clients[c].Idle?
                     && store'.clients[c].op == store.clients[c].op)
  {
    hide SharedStore.Advance;
    var pc := store.clients[c];
    if SharedStore.Holds(pc) && !pc.Unlocking? {
      SharedStore.AdvanceSameOp(SERVER_SIZES, store.slots, pc);
    }
  }

  lemma WorkInv(slots: seq<Slot>, n: nat, s: State, a: Action)
    requires Inv(slots, n, s) && a.Work? && Next(s, a).Some?
    ensures Inv(slots, n, Next(s, a).value)
  {
    hide After, Request, StoreRun, AnsweredAt, SharedStore.Next;
    var s', c := Next(s, a).value, a.client;
    assert TaskOk(s, c);
    var acts :| StoreRun(slots, n, acts, s.store);
    StoreRunOn(slots, n, acts, s.store, SharedStore.Move(c));
    MoveEffect(s.store, c);
    assert StoreRun(slots, n, acts + [SharedStore.Move(c)], s'.store);
    forall d | 0 <= d < n ensures TaskOk(s', d) {
      assert TaskOk(s, d);
    }
    var m := |s.store.log|;
    if |s'.store.log| > m {
      var t := s.tasks[c].value;
      var step := Step(t.event, t.prior, s'.store.log[m].result);
      AnsweredNow(s.histories[c], step, s'.store.log[m]);
      assert AnsweredAt(s'.histories[c], |s.histories[c]|, s'.store.log[m]);
      forall i | 0 <= i < |s'.store.log| ensures EntryAnswered(s', i) {
        if i < m {
          assert s'.store.log[i] == s.store.log[i];
          assert EntryAnswered(s, i);
          RecordKeeps(s, c, step, i);
        }
      }
    } else {
      forall i | 0 <= i < |s'.store.log| ensures EntryAnswered(s', i) {
        assert EntryAnswered(s, i);
      }
    }
  }

  lemma {:induction false} ExecInv(slots: seq<Slot>, n: nat, actions: seq<Action>)
    requires Exec(Initial(slots, n), actions).Some?
    ensures Inv(slots, n, Exec(Initial(slots, n), actions).value)
  {
    hide Inv, Next, Initial;
    if actions == [] {
      InitialInv(slots, n);
    } else {
      var m := |actions| - 1;
      ExecInv(slots, n, actions[..m]);
      var s := Exec(Initial(slots, n), actions[..m]).value;
      if actions[m].Hear? {
        HearInv(slots, n, s, actions[m]);
      } else {
        WorkInv(slots, n, s, actions[m]);
      }
    }
  }

  // ----- Results -----

  /** Every operation in the store's log was asked for by a session that had heard a successful
      AUTH before, and has its result in that session. */
  lemma LoggedWasAuthorised(slots: seq<Slot>, n: nat, actions: seq<Action>, i: nat) returns (p: nat)
    requires Exec(Initial(slots, n), actions).Some?
    requires i < |Exec(Initial(slots, n), actions).value.store.log|
    ensures var s := Exec(Initial(slots, n), actions).value;
            var e := s.store.log[i];
            && e.client < |s.histories| && AnsweredAt(s.histories[e.client], p, e)
            && exists q :: 0 <= q < p && SuccessAt(s.histories[e.client], q)
  {
    hide Exec, Initial, AnsweredAt, StoreRun, TaskOk, SuccessAt;
    ExecInv(slots, n, actions);
    var s := Exec(Initial(slots, n), actions).value;
    assert EntryAnswered(s, i);
    var e := s.store.log[i];
    p :| AnsweredAt(s.histories[e.client], p, e);
    AskedAfterAuth(s.histories[e.client], p, e);
  }

  lemma AskedAfterAuth(history: seq<Step>, p: nat, e: SharedStore.Entry)
    requires AnsweredAt(history, p, e)
    ensures exists q :: 0 <= q < p && SuccessAt(history, q)
  {
    hide SuccessAt, After, Request;
    NoRequestBeforeAuth(history, p);
  }

  lemma KeysShort(slots: seq<Slot>, n: nat, actions: seq<Action>)
    requires Exec(Initial(slots, n), actions).Some?
    ensures ShortKeys(SERVER_SIZES, SharedStore.Ops(Exec(Initial(slots, n), actions).value.store.log))
  {
    hide Exec, Initial, StoreRun, TaskOk, EntryAnswered;
    ExecInv(slots, n, actions);
    var s := Exec(Initial(slots, n), actions).value;
    forall i | 0 <= i < |s.store.log| && s.store.log[i].op.PutOp?
      ensures |s.store.log[i].op.key| < SERVER_SIZES.key
    {
      KeyShort(s, i);
    }
  }

  lemma KeyShort(s: State, i: nat)
    requires i < |s.store.log| && EntryAnswered(s, i) && s.store.log[i].op.PutOp?
    ensures |s.store.log[i].op.key| < SERVER_SIZES.key
  {
    hide After, Request;
    var e := s.store.log[i];
    var history := s.histories[e.client];
    var p: nat :| AnsweredAt(history, p, e);
    RequestFits(After(history[..p]), history[p].event, history[p].prior);
  }

  /** Whatever the clients send and however they interleave, whenever the lock is free the store of
      the server stands for the bounded map of the logged operations. */
  lemma ServerActsAsMap(slots: seq<Slot>, n: nat, actions: seq<Action>)
    requires AllFree(slots) && |slots| == MAX_STORE && Exec(Initial(slots, n), actions).Some?
    requires Exec(Initial(slots, n), actions).value.store.holder.None?
    ensures var s := Exec(Initial(slots, n), actions).value.store;
            && Valid(SERVER_SIZES, s.slots)
            && MapOf(s.slots) == MapReplay(SERVER_SIZES, 128, SharedStore.Ops(s.log))
  {
    hide Exec, Initial, MapOf, Valid, SharedStore.Exec, SharedStore.Initial, MapReplay, TaskOk, EntryAnswered;
    ExecInv(slots, n, actions);
    KeysShort(slots, n, actions);
    var s := Exec(Initial(slots, n), actions).value;
    var acts :| StoreRun(slots, n, acts, s.store);
    SharedStore.ActsAsMap(SERVER_SIZES, slots, n, acts);
  }

  /** Across clients: after a PUT by one and a GET of the same key by another, with operations
      between them that spare the key, the PUT was answered OK PUT in any case, and the GET is
      answered with the value exactly when the store took it. */
  lemma PutThenGetAcross(slots: seq<Slot>, n: nat, actions: seq<Action>, i: nat, j: nat) returns (p: nat, q: nat)
    requires AllFree(slots) && Exec(Initial(slots, n), actions).Some?
    requires var log := Exec(Initial(slots, n), actions).value.store.log;
             && i < j < |log|
             && log[i].op.PutOp? && log[j].op == GetOp(log[i].op.key)
             && forall x :: i < x < j ==> Spares(log[x].op, log[i].op.key)
    ensures var s := Exec(Initial(slots, n), actions).value;
            var put, get := s.store.log[i], s.store.log[j];
            && put.client < |s.histories| && p < |s.histories[put.client]|
            && get.client < |s.histories| && q < |s.histories[get.client]|
            && put.result.Done?
            && RequestAt(s.histories[put.client], p) == Some(put.op)
            && RequestAt(s.histories[get.client], q) == Some(get.op)
            && RepliesAt(s.histories[put.client], p) == ["OK PUT"]
            && RepliesAt(s.histories[get.client], q) ==
                 [if put.result.ok then "OK GET " + put.op.value else "ERR GET not_found"]
  {
    hide Exec, Initial, SharedStore.Exec, SharedStore.Initial, TaskOk, AnsweredAt, RepliesAt, RequestAt;
    ExecInv(slots, n, actions);
    KeysShort(slots, n, actions);
    var s := Exec(Initial(slots, n), actions).value;
    var acts :| StoreRun(slots, n, acts, s.store);
    SharedStore.PutThenGet(SERVER_SIZES, slots, n, acts, i, j);
    assert EntryAnswered(s, i) && EntryAnswered(s, j);
    var put, get := s.store.log[i], s.store.log[j];
    p :| AnsweredAt(s.histories[put.client], p, put);
    q :| AnsweredAt(s.histories[get.client], q, get);
    PutAnswer(s.histories[put.client], p, put);
    GetAnswer(s.histories[get.client], q, get);
  }

  lemma {:induction false} PutAnswer(history: seq<Step>, p: nat, e: SharedStore.Entry)
    requires AnsweredAt(history, p, e) && e.op.PutOp?
    ensures p < |history| && RequestAt(history, p) == Some(e.op) && RepliesAt(history, p) == ["OK PUT"]
    ensures Cut(e.op.value, SERVER_SIZES.value) == e.op.value && |e.op.value| < SERVER_SIZES.value
  {
    hide After, ParseLine;
    RequestFits(After(history[..p]), history[p].event, history[p].prior);
  }

  lemma {:induction false} GetAnswer(history: seq<Step>, q: nat, e: SharedStore.Entry)
    requires AnsweredAt(history, q, e) && e.op.GetOp?
    requires e.result.Read? && (e.result.found.Some? ==> |e.result.found.value| < SERVER_SIZES.value)
    ensures q < |history| && RequestAt(history, q) == Some(e.op)
    ensures RepliesAt(history, q) ==
              [if e.result.found.Some? then "OK GET " + e.result.found.value else "ERR GET not_found"]
  {
    hide After, ParseLine;
  }
}
