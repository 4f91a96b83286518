/** The loop that serves one connection, in place: it behaves as the session does on the lines
    received, and leaves in the store what their operations make. */
module ClientHandler {
  import opened CStrings
  import opened Options
  import opened KeyValueStore
  import opened Wire
  import opened Session

  /** What an operation, if there is one, does to the store, and the result it gives. */
  function PerformOp(op: Option<Op>, slots: seq<Slot>): (r: (seq<Slot>, Result))
    ensures |r.0| == |slots|
  {
    match op
    case None => (slots, Done(false))
    case Some(o) => Apply(SERVER_SIZES, slots, o)
  }

  function Perform(client: Client, event: Received, prior: string, slots: seq<Slot>): (r: (seq<Slot>, Result))
    ensures |r.0| == |slots|
  {
    PerformOp(Request(client, event, prior), slots)
  }

  function SendReplies(replies: seq<string>): string {
    SendAll(replies, MAX_LINE)
  }

  /** The text left in the list buffer of the loop at each of its turns. */
  type Leftovers = nat -> string

  /** Serving from here to the end of the session: the steps taken and the slots left. */
  function Serve(client: Client, slots: seq<Slot>, input: string, faulty: bool, leftover: Leftovers, n: nat)
    : (r: (seq<Step>, seq<Slot>))
    ensures |r.1| == |slots|
    decreases |input|
  {
    if !client.open then ([], slots)
    else
      var (event, rest) := ReceiveLine(input, faulty, MAX_LINE);
      var (slots', result) := Perform(client, event, leftover(n), slots);
      var client' := Respond(client, event, result).0;
      if event.Line? then
        var (steps, last) := Serve(client', slots', rest, faulty, leftover, n + 1);
        ([Step(event, leftover(n), result)] + steps, last)
      else ([Step(event, leftover(n), result)], slots')
  }

  /** Everything sent over the steps of a session that goes on from a given client. */
  function Sent(client: Client, steps: seq<Step>): string
    decreases |steps|
  {
    if steps == [] then ""
    else
      var (client', replies) := Respond(client, steps[0].event, steps[0].result);
      SendReplies(replies) + Sent(client', steps[1..])
  }

  /** The client after the steps of a session that goes on from a given client. */
  function Later(client: Client, steps: seq<Step>): Client
    decreases |steps|
  {
    if steps == [] then client
    else Later(Respond(client, steps[0].event, steps[0].result).0, steps[1..])
  }

  /** The operations of a session that goes on from a given client, in order. */
  function Requests(client: Client, steps: seq<Step>): seq<Op>
    decreases |steps|
  {
    if steps == [] then []
    else
      var op := Request(client, steps[0].event, steps[0].prior);
      (if op.Some? then [op.value] else []) +
      Requests(Respond(client, steps[0].event, steps[0].result).0, steps[1..])
  }

  lemma {:induction false} LaterSnoc(client: Client, steps: seq<Step>, step: Step)
    ensures Later(client, steps + [step]) == Respond(Later(client, steps), step.event, step.result).0
    decreases |steps|
  {
    hide Respond;
    if steps == [] {
      assert [step][1..] == [];
      assert steps + [step] == [step];
    } else {
      LaterSnoc(Respond(client, steps[0].event, steps[0].result).0, steps[1..], step);
      assert (steps + [step])[1..] == steps[1..] + [step];
    }
  }

  /** A session begun as a new client is the one whose properties the session module states. */
  lemma {:induction false} LaterIsAfter(steps: seq<Step>)
    ensures Later(NEW_CLIENT, steps) == After(steps)
  {
    hide Respond;
    if steps != [] {
      var n := |steps| - 1;
      LaterIsAfter(steps[..n]);
      LaterSnoc(NEW_CLIENT, steps[..n], steps[n]);
      assert steps == steps[..n] + [steps[n]];
    }
  }

  lemma {:induction false} ReplayCons(z: Sizes, slots: seq<Slot>, op: Op, ops: seq<Op>)
    ensures Replay(z, slots, [op] + ops) == Replay(z, Apply(z, slots, op).0, ops)
  {
    hide Apply;
    if ops == [] {
      assert [op] + ops == [op];
    } else {
      var n := |ops| - 1;
      ReplayCons(z, slots, op, ops[..n]);
      assert ([op] + ops)[..n + 1] == [op] + ops[..n];
    }
  }

  /** Serving ends with the session closed and the store changed by the session's operations
      alone, in order. */
  lemma {:induction false} ServeEnds(client: Client, slots: seq<Slot>, input: string, faulty: bool,
                                     leftover: Leftovers, n: nat)
    ensures var (steps, last) := Serve(client, slots, input, faulty, leftover, n);
            && !Later(client, steps).open
            && last == Replay(SERVER_SIZES, slots, Requests(client, steps))
    decreases |input|
  {
    if client.open {
      hide ReceiveLine, Apply, ParseLine, Known, Reply;
      var (event, rest) := ReceiveLine(input, faulty, MAX_LINE);
      var (slots', result) := Perform(client, event, leftover(n), slots);
      var client' := Respond(client, event, result).0;
      var (steps, last) := Serve(client, slots, input, faulty, leftover, n);
      if event.Line? {
        ServeEnds(client', slots', rest, faulty, leftover, n + 1);
        var more := Serve(client', slots', rest, faulty, leftover, n + 1).0;
        assert steps[1..] == more;
        FirstRequest(client, event, leftover(n), result, slots, steps);
      } else {
        assert steps[1..] == [];
      }
    }
  }

  lemma FirstRequest(client: Client, event: Received, prior: string, result: Result, slots: seq<Slot>, steps: seq<Step>)
    requires steps != [] && steps[0] == Step(event, prior, result) && result == Perform(client, event, prior, slots).1
    ensures var client' := Respond(client, event, result).0;
            Replay(SERVER_SIZES, slots, Requests(client, steps)) ==
            Replay(SERVER_SIZES, Perform(client, event, prior, slots).0, Requests(client', steps[1..]))
  {
    hide Request, Respond, Apply;
    var ops := Requests(Respond(client, event, result).0, steps[1..]);
    match Request(client, event, prior)
    case None => assert [] + ops == ops;
    case Some(op) => ReplayCons(SERVER_SIZES, slots, op, ops);
  }

  /** The steps heard the lines in order, and last how they end, as far as they go. */
  predicate Follow(steps: seq<Step>, lines: seq<string>, end: Received, leftover: Leftovers, n: nat) {
    && |steps| <= |lines| + 1
    && forall i :: 0 <= i < |steps| ==>
         steps[i].prior == leftover(n + i) && steps[i].event == if i < |lines| then Line(lines[i]) else end
  }

  lemma FollowFirst(step: Step, steps: seq<Step>, line: string, lines: seq<string>, end: Received,
                    leftover: Leftovers, n: nat)
    requires Follow(steps, lines, end, leftover, n + 1) && step.event == Line(line) && step.prior == leftover(n)
    ensures Follow([step] + steps, [line] + lines, end, leftover, n)
  {
    var all := [step] + steps;
    forall i | 1 <= i < |all|
      ensures all[i].prior == leftover(n + i) && all[i].event == if i - 1 < |lines| then Line(lines[i - 1]) else end
    {
      assert all[i] == steps[i - 1] && n + i == n + 1 + (i - 1);
    }
  }

  lemma FollowEnd(step: Step, end: Received, leftover: Leftovers, n: nat)
    requires step.event == end && step.prior == leftover(n)
    ensures Follow([step], [], end, leftover, n)
  {
  }

  lemma NoneFollow(lines: seq<string>, end: Received, leftover: Leftovers, n: nat)
    ensures Follow([], lines, end, leftover, n)
  {
  }

  /** Serving hears the lines of the input one by one in order, and last how the input ends, until
      the session is closed. */
  lemma {:induction false} ServeHears(client: Client, slots: seq<Slot>, input: string, faulty: bool,
                                      leftover: Leftovers, n: nat)
    ensures var (lines, end) := ReceiveAll(input, faulty, 512);
            Follow(Serve(client, slots, input, faulty, leftover, n).0, lines, end, leftover, n)
    decreases |input|
  {
    if client.open {
      hide ReceiveLine, Perform, Respond, Follow;
      var (event, rest) := ReceiveLine(input, faulty, 512);
      var (slots', result) := Perform(client, event, leftover(n), slots);
      var step := Step(event, leftover(n), result);
      if event.Line? {
        var client' := Respond(client, event, result).0;
        ServeHears(client', slots', rest, faulty, leftover, n + 1);
        var (lines, end) := ReceiveAll(rest, faulty, 512);
        FollowFirst(step, Serve(client', slots', rest, faulty, leftover, n + 1).0, event.text, lines, end, leftover, n);
      } else {
        FollowEnd(step, event, leftover, n);
      }
    } else {
      NoneFollow(ReceiveAll(input, faulty, 512).0, ReceiveAll(input, faulty, 512).1, leftover, n);
    }
  }

  // ----- The loop -----

  method CheckCredentials(username: string, password: string) returns (ok: bool)
    ensures ok <==> (username == "alice" && password == "alicepass") || (username == "bob" && password == "bobpass")
    ensures ok == Known(username, password)
  {
    KnownExactly(username, password);
    ok := false;
    for i := 0 to |VALID_USERS|
      invariant !ok && forall j :: 0 <= j < i ==> VALID_USERS[j] != Credential(username, password)
    {
      if username == VALID_USERS[i].username && password == VALID_USERS[i].password {
        return true;
      }
    }
  }

  /** A command of an authenticated client. */
  method Execute(store: Store, c: Command, prior: string) returns (reply: string, ghost result: Result)
    requires c.cmd != "AUTH"
    modifies store.slots
    ensures (store.slots[..], result) == PerformOp(Operation(c, prior), old(store.slots[..]))
    ensures reply == Reply(c, result)
  {
    hide ParseLine, ValidToken, Put, Get, Del, List, Cut, Decimal;
    result := Done(false);
    if c.cmd == "PUT" {
      var goodKey := IsValidToken(c.arg1, MAX_KEY - 1);
      if !goodKey || |c.arg2| == 0 || |c.arg2| > MAX_VALUE - 1 {
        return "ERR PUT invalid_input", result;
      }
      var ok := store.PutKey(SERVER_SIZES, c.arg1, c.arg2);
      result := Done(ok);
      reply := "OK PUT";
    } else if c.cmd == "GET" {
      var goodKey := IsValidToken(c.arg1, MAX_KEY - 1);
      if !goodKey {
        return "ERR GET invalid_input", result;
      }
      var found := store.GetKey(c.arg1);
      result := Read(found);
      reply := if found.Some? then Cut("OK GET " + found.value, MAX_LINE) else "ERR GET not_found";
    } else if c.cmd == "DEL" {
      var goodKey := IsValidToken(c.arg1, MAX_KEY - 1);
      if !goodKey {
        return "ERR DEL invalid_input", result;
      }
      var ok := store.DelKey(c.arg1);
      result := Done(ok);
      reply := if ok then "OK DEL" else "ERR DEL not_found";
    } else if c.cmd == "LIST" {
      var count, text := store.ListKeys(SERVER_SIZES.list, prior);
      result := Listed(count, text);
      reply := Cut("OK LIST " + Decimal(count) + " " + text, MAX_LINE + 32);
    } else if c.cmd == "QUIT" {
      reply := "OK BYE";
    } else {
      reply := "ERR unknown_command";
    }
  }

  /** Everything sent when serving from here to the end of the session. */
  function ServedText(client: Client, slots: seq<Slot>, input: string, faulty: bool, leftover: Leftovers, n: nat)
    : string
  {
    Sent(client, Serve(client, slots, input, faulty, leftover, n).0)
  }

  lemma ServeLine(client: Client, slots: seq<Slot>, input: string, faulty: bool, leftover: Leftovers, n: nat)
    requires client.open
    ensures var (event, rest) := ReceiveLine(input, faulty, MAX_LINE);
            var (slots', result) := Perform(client, event, leftover(n), slots);
            var (client', replies) := Respond(client, event, result);
            if event.Line? then
              && Serve(client, slots, input, faulty, leftover, n).1 == Serve(client', slots', rest, faulty, leftover, n + 1).1
              && ServedText(client, slots, input, faulty, leftover, n) ==
                   SendReplies(replies) + ServedText(client', slots', rest, faulty, leftover, n + 1)
            else
              && Serve(client, slots, input, faulty, leftover, n).1 == slots
              && ServedText(client, slots, input, faulty, leftover, n) == SendReplies(replies)
  {
    hide ReceiveLine, Perform, Respond;
    var (event, rest) := ReceiveLine(input, faulty, MAX_LINE);
    var (slots', result) := Perform(client, event, leftover(n), slots);
    var (client', replies) := Respond(client, event, result);
    var steps := Serve(client, slots, input, faulty, leftover, n).0;
    if event.Line? {
      assert steps[1..] == Serve(client', slots', rest, faulty, leftover, n + 1).0;
    } else {
      assert steps[1..] == [] && Sent(client', []) == "";
      assert SendReplies(replies) + "" == SendReplies(replies);
      NothingPerformed(client, event, leftover(n), slots);
    }
  }

  lemma NothingPerformed(client: Client, event: Received, prior: string, slots: seq<Slot>)
    requires !event.Line?
    ensures Perform(client, event, prior, slots).0 == slots
  {
  }

  /** All that will have been sent, and the slots at the end, seen from the middle of serving. */
  ghost predicate Outlook(total: string, last: seq<Slot>, client: Client, slots: seq<Slot>, left: string,
                          sent: string, faulty: bool, leftover: Leftovers, n: nat)
  {
    total == sent + ServedText(client, slots, left, faulty, leftover, n) && last == Serve(client, slots, left, faulty, leftover, n).1
  }

  lemma OutlookAfter(total: string, last: seq<Slot>, client: Client, slots: seq<Slot>, left: string,
                     sent: string, faulty: bool, leftover: Leftovers, n: nat, event: Received, rest: string)
    requires client.open && Outlook(total, last, client, slots, left, sent, faulty, leftover, n)
    requires ReceiveLine(left, faulty, MAX_LINE) == (event, rest)
    ensures var (slots', result) := Perform(client, event, leftover(n), slots);
            var (client', replies) := Respond(client, event, result);
            Outlook(total, last, client', slots', rest, sent + SendReplies(replies), faulty, leftover, n + 1)
  {
    hide ReceiveLine, Perform, Respond, Serve, ServedText, SendReplies;
    ServeLine(client, slots, left, faulty, leftover, n);
    var (slots', result) := Perform(client, event, leftover(n), slots);
    var (client', replies) := Respond(client, event, result);
    var out := SendReplies(replies);
    if event.Line? {
      Regroup(sent, out, ServedText(client', slots', rest, faulty, leftover, n + 1));
    } else {
      NothingPerformed(client, event, leftover(n), slots);
      NotOpen(client, event, result);
      AtEnd(client', slots, rest, faulty, leftover, n + 1);
      Regroup(sent, out, "");
    }
  }

  lemma NotOpen(client: Client, event: Received, result: Result)
    requires !event.Line?
    ensures !Respond(client, event, result).0.open
  {
  }

  lemma Regroup(a: string, b: string, c: string)
    ensures a + (b + c) == (a + b) + c
  {
  }

  lemma OutlookBegins(client: Client, slots: seq<Slot>, left: string, sent: string, faulty: bool,
                      leftover: Leftovers, n: nat)
    ensures Outlook(sent + ServedText(client, slots, left, faulty, leftover, n), Serve(client, slots, left, faulty, leftover, n).1,
                    client, slots, left, sent, faulty, leftover, n)
  {
  }

  lemma OutlookEnds(total: string, last: seq<Slot>, client: Client, slots: seq<Slot>, left: string,
                    sent: string, faulty: bool, leftover: Leftovers, n: nat)
    requires !client.open && Outlook(total, last, client, slots, left, sent, faulty, leftover, n)
    ensures total == sent && last == slots
  {
    AtEnd(client, slots, left, faulty, leftover, n);
    assert sent + "" == sent;
  }

  lemma AtEnd(client: Client, slots: seq<Slot>, left: string, faulty: bool, leftover: Leftovers, n: nat)
    requires !client.open
    ensures ServedText(client, slots, left, faulty, leftover, n) == "" && Serve(client, slots, left, faulty, leftover, n).1 == slots
  {
  }

  lemma OneReply(a: string)
    ensures SendReplies([a]) == SendForm(a, MAX_LINE)
  {
    hide SendForm;
    var sent := SendForm(a, MAX_LINE);
    assert [a][1..] == [] && SendAll([], MAX_LINE) == "";
    assert sent + "" == sent;
  }

  lemma NoReply(sent: string)
    ensures sent + SendReplies([]) == sent
  {
  }

  lemma TwoReplies(a: string, b: string)
    ensures SendReplies([a] + [b]) == SendForm(a, MAX_LINE) + SendForm(b, MAX_LINE)
  {
    hide SendForm;
    OneReply(b);
    assert ([a] + [b])[1..] == [b];
  }

  /** Answers one line, and says what became of the session. */
  method HandleLine(conn: Connection, store: Store, text: string, prior: string,
                    authenticated: bool, attempts: nat, user: string)
    returns (isOpen: bool, authenticated': bool, attempts': nat, user': string)
    modifies conn`sent, store.slots
    ensures var client := Client(true, authenticated, attempts, user);
            var (slots, result) := Perform(client, Line(text), prior, old(store.slots[..]));
            var (client', replies) := Respond(client, Line(text), result);
            && store.slots[..] == slots
            && conn.sent == old(conn.sent) + SendReplies(replies)
            && Client(isOpen, authenticated', attempts', user') == client'
  {
    hide SendReplies, SendForm, ParseLine, Known, Reply, Operation;
    var c := ParseLine(text);
    isOpen, authenticated', attempts', user' := true, authenticated, attempts, user;
    if c.cmd == "AUTH" {
      assert Operation(c, prior) == None by { AuthIsNoOperation(c, prior); }
      if authenticated {
        conn.SendLine("ERR already_authenticated");
        OneReply("ERR already_authenticated");
        return;
      }
      var ok := CheckCredentials(c.arg1, c.arg2);
      if ok {
        authenticated', user' := true, c.arg1;
        conn.SendLine("OK AUTH");
        OneReply("OK AUTH");
      } else {
        attempts' := attempts + 1;
        conn.SendLine("ERR AUTH invalid_credentials");
        OneReply("ERR AUTH invalid_credentials");
        if attempts' >= MAX_AUTH_ATTEMPTS {
          conn.SendLine("ERR too_many_attempts_closing");
          TwoReplies("ERR AUTH invalid_credentials", "ERR too_many_attempts_closing");
          isOpen := false;
        }
      }
    } else if !authenticated {
      conn.SendLine("ERR not_authenticated");
      OneReply("ERR not_authenticated");
    } else {
      var reply, result := Execute(store, c, prior);
      conn.SendLine(reply);
      OneReply(reply);
      isOpen := c.cmd != "QUIT";
    }
  }

  lemma AuthIsNoOperation(c: Command, prior: string)
    requires c.cmd == "AUTH"
    ensures Operation(c, prior) == None
  {
  }

  /** Serves a connection until its session ends, while no other client changes the store. */
  method HandleClient(conn: Connection, store: Store, leftover: Leftovers)
    requires conn.Valid()
    modifies conn, store.slots
    ensures var (steps, last) := Serve(NEW_CLIENT, old(store.slots[..]), old(conn.Left()), conn.faulty, leftover, 0);
            && conn.sent == old(conn.sent) + Sent(NEW_CLIENT, steps)
            && store.slots[..] == last
  {
    hide Serve, Sent, Outlook, SendReplies, SendForm, Login, Reply, ParseLine, Operation, Receive, CText;
    var line := new char[MAX_LINE](_ => '\0');
    var isOpen, authenticated, attempts, user := true, false, 0, "";
    var n: nat := 0;
    ghost var total := conn.sent + ServedText(NEW_CLIENT, store.slots[..], conn.Left(), conn.faulty, leftover, 0);
    ghost var last := Serve(NEW_CLIENT, store.slots[..], conn.Left(), conn.faulty, leftover, 0).1;
    OutlookBegins(NEW_CLIENT, store.slots[..], conn.Left(), conn.sent, conn.faulty, leftover, 0);
    while isOpen
      invariant conn.Valid()
      invariant Outlook(total, last, Client(isOpen, authenticated, attempts, user), store.slots[..],
                        conn.Left(), conn.sent, conn.faulty, leftover, n)
      decreases isOpen, |conn.input| - conn.pos
    {
      ghost var left := conn.Left();
      ghost var event := ReceiveLine(left, conn.faulty, MAX_LINE).0;
      OutlookAfter(total, last, Client(true, authenticated, attempts, user), store.slots[..], left,
                   conn.sent, conn.faulty, leftover, n, event, ReceiveLine(left, conn.faulty, MAX_LINE).1);
      var status := conn.RecvLine(line);
      if status > 0 {
        isOpen, authenticated, attempts, user :=
          HandleLine(conn, store, CText(line[..]), leftover(n), authenticated, attempts, user);
      } else {
        NoReply(conn.sent);
        if status < 0 {
          conn.SendLine("ERR protocol_violation");
          OneReply("ERR protocol_violation");
        }
        isOpen := false;
      }
      n := n + 1;
    }
    OutlookEnds(total, last, Client(false, authenticated, attempts, user), store.slots[..], conn.Left(),
                conn.sent, conn.faulty, leftover, n);
  }
}
