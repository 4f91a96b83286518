/** What the clients of the server are told: under every interleaving each reply is the one that the
    map of the operations before it asks for. */
module ServerLaws {
  import opened CStrings
  import opened Options
  import opened KeyValueStore
  import opened Wire
  import opened Session
  import opened Server
  import SharedStore

  /** The map made by the operations logged before number i. */
  function MapBefore(slots: seq<Slot>, log: seq<SharedStore.Entry>, i: nat): map<string, string>
    requires i <= |log|
  {
    MapReplay(SERVER_SIZES, |slots|, SharedStore.Ops(log)[..i])
  }

  /** The replies to an operation when the map before it is m; a list names the count of its keys. */
  predicate Told(replies: seq<string>, op: Op, m: map<string, string>) {
    match op
    case PutOp(_, _) => replies == ["OK PUT"]
    case GetOp(k) => replies == [if k in m then "OK GET " + m[k] else "ERR GET not_found"]
    case DelOp(k) => replies == [if k in m then "OK DEL" else "ERR DEL not_found"]
    case ListOp(_) => |replies| == 1 && "OK LIST " <= replies[0]
  }

  /** What the result of an operation on the slots says of the map they stand for. */
  predicate ResultIs(r: Result, op: Op, m: map<string, string>) {
    match op
    case PutOp(_, _) => true
    case GetOp(k) => r == Read(if k in m then Some(m[k]) else None) && (k in m ==> |m[k]| < 400)
    case DelOp(k) => r == Done(k in m)
    case ListOp(_) => r.Listed?
  }

  lemma {:induction false} ToldBy(history: seq<Step>, p: nat, e: SharedStore.Entry, m: map<string, string>)
    requires AnsweredAt(history, p, e) && ResultIs(e.result, e.op, m)
    ensures p < |history| && RequestAt(history, p) == Some(e.op) && Told(RepliesAt(history, p), e.op, m)
  {
    hide After, ParseLine, RequestAt, RepliesAt;
    match e.op
    case PutOp(_, _) => PutAnswer(history, p, e);
    case GetOp(_) => GetAnswer(history, p, e);
    case DelOp(_) => DelAnswer(history, p, e);
    case ListOp(_) => ListReplied(history, p, e);
  }

  lemma {:induction false} DelAnswer(history: seq<Step>, p: nat, e: SharedStore.Entry)
    requires AnsweredAt(history, p, e) && e.op.DelOp? && e.result.Done?
    ensures p < |history| && RequestAt(history, p) == Some(e.op)
    ensures RepliesAt(history, p) == [if e.result.ok then "OK DEL" else "ERR DEL not_found"]
  {
    hide After, ParseLine;
  }

  lemma {:induction false} ListReplied(history: seq<Step>, p: nat, e: SharedStore.Entry)
    requires AnsweredAt(history, p, e) && e.op.ListOp? && e.result.Listed?
    ensures p < |history| && RequestAt(history, p) == Some(e.op)
    ensures |RepliesAt(history, p)| == 1 && "OK LIST " <= RepliesAt(history, p)[0]
  {
    hide After, ParseLine, Decimal;
  }

  lemma ResultInLog(slots: seq<Slot>, log: seq<SharedStore.Entry>, i: nat)
    requires AllFree(slots) && ShortKeys(SERVER_SIZES, SharedStore.Ops(log)) && i < |log|
    ensures ResultIs(SharedStore.Expected(SERVER_SIZES, slots, log, i), log[i].op, MapBefore(slots, log, i))
  {
    hide Replay, MapReplay, Valid, MapOf, Put, Get, Del, List;
    var ops := SharedStore.Ops(log);
    var before := Replay(SERVER_SIZES, slots, ops[..i]);
    ReplayRefines(SERVER_SIZES, slots, ops[..i]);
    match log[i].op
    case GetOp(k) =>
      GetRefines(before, k);
      ReadsFit(SERVER_SIZES, slots, ops[..i], k);
    case DelOp(k) => DelRefines(SERVER_SIZES, before, k);
    case _ =>
  }

  /** Whatever the clients send and however they interleave, every operation in the store's log was
      asked for at a step of its client's session, and that step was answered as the map of the
      operations logged before it asks. */
  lemma AnsweredAsTheMap(slots: seq<Slot>, n: nat, actions: seq<Action>, i: nat) returns (p: nat)
    requires AllFree(slots) && Exec(Initial(slots, n), actions).Some?
    requires i < |Exec(Initial(slots, n), actions).value.store.log|
    ensures var s := Exec(Initial(slots, n), actions).value;
            var e := s.store.log[i];
            && e.client < |s.histories| && p < |s.histories[e.client]|
            && RequestAt(s.histories[e.client], p) == Some(e.op)
            && Told(RepliesAt(s.histories[e.client], p), e.op, MapBefore(slots, s.store.log, i))
  {
    hide Exec, Initial, SharedStore.Exec, SharedStore.Initial, TaskOk, AnsweredAt, RepliesAt, RequestAt, Told,
         SharedStore.Sequential, SharedStore.Expected, MapBefore;
    ExecInv(slots, n, actions);
    KeysShort(slots, n, actions);
    var s := Exec(Initial(slots, n), actions).value;
    var acts :| StoreRun(slots, n, acts, s.store);
    SharedStore.Linearizable(SERVER_SIZES, slots, n, acts);
    assert EntryAnswered(s, i);
    var e := s.store.log[i];
    SharedStore.ResultAt(SERVER_SIZES, slots, s.store.log, i);
    ResultInLog(slots, s.store.log, i);
    p :| AnsweredAt(s.histories[e.client], p, e);
    ToldBy(s.histories[e.client], p, e, MapBefore(slots, s.store.log, i));
  }

  /** No operation from number i and before number j stores the key. */
  predicate NoPut(ops: seq<Op>, i: nat, j: nat, key: string) {
    forall x :: i <= x < j && x < |ops| && ops[x].PutOp? ==> ops[x].key != key
  }

  lemma {:induction false} StaysAbsent(z: Sizes, cap: nat, ops: seq<Op>, i: nat, j: nat, key: string)
    requires i < j <= |ops| && ops[i] == DelOp(key) && NoPut(ops, i, j, key)
    ensures key !in MapReplay(z, cap, ops[..j])
  {
    hide MapApply;
    var before := MapReplay(z, cap, ops[..j - 1]);
    assert ops[..j][..j - 1] == ops[..j - 1];
    assert MapReplay(z, cap, ops[..j]) == MapApply(z, cap, before, ops[j - 1]);
    if i < j - 1 {
      StaysAbsent(z, cap, ops, i, j - 1, key);
    }
    AbsentAfter(z, cap, before, ops[j - 1], key);
  }

  lemma AbsentAfter(z: Sizes, cap: nat, m: map<string, string>, op: Op, key: string)
    requires op == DelOp(key) || (key !in m && (op.PutOp? ==> op.key != key))
    ensures key !in MapApply(z, cap, m, op)
  {
  }

  /** Across clients: after a DEL by one, until somebody stores the key again, every GET of it is
      answered that it is not found, and every DEL of it too. */
  lemma DelThenGetAcross(slots: seq<Slot>, n: nat, actions: seq<Action>, i: nat, j: nat) returns (p: nat, q: nat)
    requires AllFree(slots) && Exec(Initial(slots, n), actions).Some?
    requires var log := Exec(Initial(slots, n), actions).value.store.log;
             && i < j < |log| && log[i].op.DelOp?
             && (log[j].op == GetOp(log[i].op.key) || log[j].op == DelOp(log[i].op.key))
             && NoPut(SharedStore.Ops(log), i, j, log[i].op.key)
    ensures var s := Exec(Initial(slots, n), actions).value;
            var del, next := s.store.log[i], s.store.log[j];
            && del.client < |s.histories| && p < |s.histories[del.client]|
            && next.client < |s.histories| && q < |s.histories[next.client]|
            && RequestAt(s.histories[del.client], p) == Some(del.op)
            && RequestAt(s.histories[next.client], q) == Some(next.op)
            && RepliesAt(s.histories[del.client], p) ==
                 [if del.op.key in MapBefore(slots, s.store.log, i) then "OK DEL" else "ERR DEL not_found"]
            && RepliesAt(s.histories[next.client], q) ==
                 [if next.op.GetOp? then "ERR GET not_found" else "ERR DEL not_found"]
  {
    hide Exec, Initial, RepliesAt, RequestAt, MapReplay;
    var s := Exec(Initial(slots, n), actions).value;
    p := AnsweredAsTheMap(slots, n, actions, i);
    q := AnsweredAsTheMap(slots, n, actions, j);
    StaysAbsent(SERVER_SIZES, |slots|, SharedStore.Ops(s.store.log), i, j, s.store.log[i].op.key);
  }

  // ----- No request is lost -----

  /** A step that asked for nothing, or whose operation stands in the log with its result. */
  ghost predicate StepLogged(s: State, c: nat, p: nat)
    requires c < |s.histories| && p < |s.histories[c]|
  {
    var op := RequestAt(s.histories[c], p);
    op.Some? ==> exists i :: LoggedAt(s.store.log, i, SharedStore.Entry(c, op.value, s.histories[c][p].result))
  }

  predicate LoggedAt(log: seq<SharedStore.Entry>, i: nat, e: SharedStore.Entry) {
    i < |log| && log[i] == e
  }

  ghost predicate AllLogged(s: State) {
    forall c, p :: 0 <= c < |s.histories| && 0 <= p < |s.histories[c]| ==> StepLogged(s, c, p)
  }

  lemma OldStep(history: seq<Step>, step: Step, p: nat)
    requires p < |history|
    ensures RequestAt(history + [step], p) == RequestAt(history, p)
  {
    hide After, Request;
    assert (history + [step])[..p] == history[..p];
  }

  lemma NewStep(history: seq<Step>, step: Step)
    ensures RequestAt(history + [step], |history|) == Request(After(history), step.event, step.prior)
  {
    hide After, Request;
    assert (history + [step])[..|history|] == history;
  }

  /** Recording a step in a history leaves the others logged, also in a longer log. */
  lemma RecordLogged(s: State, store: SharedStore.State, d: nat, step: Step, c: nat, p: nat)
    requires d < |s.histories| && d < |s.tasks| && c < |s.histories| && p < |s.histories[c]|
    requires s.store.log <= store.log && StepLogged(s, c, p)
    ensures StepLogged(Record(s.(store := store), d, step), c, p)
  {
    hide RequestAt;
    if c == d {
      OldStep(s.histories[c], step, p);
    }
    var op := RequestAt(s.histories[c], p);
    if op.Some? {
      var e := SharedStore.Entry(c, op.value, s.histories[c][p].result);
      var i: nat :| LoggedAt(s.store.log, i, e);
      var s' := Record(s.(store := store), d, step);
      assert s'.histories[c][p] == s.histories[c][p];
      assert LoggedAt(s'.store.log, i, e);
    }
  }

  lemma HearLogged(slots: seq<Slot>, n: nat, s: State, a: Action)
    requires Inv(slots, n, s) && AllLogged(s) && a.Hear? && Next(s, a).Some?
    ensures AllLogged(Next(s, a).value)
  {
    hide After, Request, RequestAt, StoreRun, EntryAnswered, TaskOk;
    var s', c := Next(s, a).value, a.client;
    if Request(After(s.histories[c]), a.event, a.prior).None? {
      var step := Step(a.event, a.prior, Done(false));
      NewStep(s.histories[c], step);
      forall d, p | 0 <= d < |s'.histories| && 0 <= p < |s'.histories[d]| ensures StepLogged(s', d, p) {
        if p < |s.histories[d]| {
          RecordLogged(s, s.store, c, step, d, p);
          assert s.(store := s.store) == s;
        }
      }
    } else {
      assert s'.store.log == s.store.log;
      forall d, p | 0 <= d < |s'.histories| && 0 <= p < |s'.histories[d]| ensures StepLogged(s', d, p) {
        assert StepLogged(s, d, p);
      }
    }
  }

  lemma WorkLogged(slots: seq<Slot>, n: nat, s: State, a: Action)
    requires Inv(slots, n, s) && AllLogged(s) && a.Work? && Next(s, a).Some?
    ensures AllLogged(Next(s, a).value)
  {
    hide After, Request, RequestAt, StoreRun, EntryAnswered, SharedStore.Next, StepLogged;
    var s', c := Next(s, a).value, a.client;
    assert TaskOk(s, c);
    MoveEffect(s.store, c);
    var m := |s.store.log|;
    if |s'.store.log| > m {
      var t := s.tasks[c].value;
      var step := Step(t.event, t.prior, s'.store.log[m].result);
      assert s' == Record(s.(store := s'.store), c, step);
      forall d, p | 0 <= d < |s'.histories| && 0 <= p < |s'.histories[d]| ensures StepLogged(s', d, p) {
        if p < |s.histories[d]| {
          RecordLogged(s, s'.store, c, step, d, p);
        } else {
          LastLogged(s, s', c, step, m);
        }
      }
    } else {
      forall d, p | 0 <= d < |s'.histories| && 0 <= p < |s'.histories[d]| ensures StepLogged(s', d, p) {
        SameLog(s, s', d, p);
      }
    }
  }

  lemma SameLog(s: State, s': State, c: nat, p: nat)
    requires s'.histories == s.histories && s'.store.log == s.store.log
    requires c < |s.histories| && p < |s.histories[c]| && StepLogged(s, c, p)
    ensures StepLogged(s', c, p)
  {
    hide RequestAt;
  }

  lemma LastLogged(s: State, s': State, c: nat, step: Step, m: nat)
    requires c < |s.histories| == |s'.histories| && s'.histories[c] == s.histories[c] + [step]
    requires m < |s'.store.log| && s'.store.log[m].client == c && s'.store.log[m].result == step.result
    requires Request(After(s.histories[c]), step.event, step.prior) == Some(s'.store.log[m].op)
    ensures StepLogged(s', c, |s.histories[c]|)
  {
    hide RequestAt, After, Request;
    NewStep(s.histories[c], step);
    var e := s'.store.log[m];
    assert e == SharedStore.Entry(c, e.op, s'.histories[c][|s.histories[c]|].result);
    assert RequestAt(s'.histories[c], |s.histories[c]|) == Some(e.op);
    assert LoggedAt(s'.store.log, m, e);
  }

  /** Every step of every session that asked the store for an operation has it in the log, with the
      result it was answered from. */
  lemma {:induction false} RequestsLogged(slots: seq<Slot>, n: nat, actions: seq<Action>)
    requires Exec(Initial(slots, n), actions).Some?
    ensures AllLogged(Exec(Initial(slots, n), actions).value)
  {
    hide Inv, Next;
    if actions != [] {
      var m := |actions| - 1;
      RequestsLogged(slots, n, actions[..m]);
      ExecInv(slots, n, actions[..m]);
      var s := Exec(Initial(slots, n), actions[..m]).value;
      if actions[m].Hear? {
        HearLogged(slots, n, s, actions[m]);
      } else {
        WorkLogged(slots, n, s, actions[m]);
      }
    }
  }
}
