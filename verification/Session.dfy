/** The session of one client: what each received line asks of the store and is answered. */
module Session {
  import opened CStrings
  import opened Options
  import opened KeyValueStore
  import opened Wire

  datatype Credential = Credential(username: string, password: string)

  const VALID_USERS: seq<Credential> := [Credential("alice", "alicepass"), Credential("bob", "bobpass")]
  const MAX_AUTH_ATTEMPTS: nat := 3
  const MAX_KEY: nat := SERVER_SIZES.key
  const MAX_VALUE: nat := SERVER_SIZES.value

  datatype Client = Client(open: bool, authenticated: bool, attempts: nat, user: string)

  const NEW_CLIENT := Client(true, false, 0, "")

  // ----- One line -----

  function ParseLine(text: string): Command {
    Parse(text, MAX_KEY - 1, MAX_VALUE - 1)
  }

  predicate Known(username: string, password: string) {
    exists i :: 0 <= i < |VALID_USERS| && VALID_USERS[i] == Credential(username, password)
  }

  /** The users of the demonstration are these two. */
  lemma KnownExactly(username: string, password: string)
    ensures Known(username, password) <==>
              || (username == "alice" && password == "alicepass")
              || (username == "bob" && password == "bobpass")
  {
    assert VALID_USERS[0] == Credential("alice", "alicepass") && VALID_USERS[1] == Credential("bob", "bobpass");
  }

  predicate GoodKey(key: string) {
    ValidToken(key, MAX_KEY - 1)
  }

  predicate GoodPut(c: Command) {
    GoodKey(c.arg1) && 1 <= |c.arg2| <= MAX_VALUE - 1
  }

  /** The store operation a command of an authenticated client leads to. A list is written into a
      buffer in which the text prior was left. */
  function Operation(c: Command, prior: string): Option<Op> {
    if c.cmd == "PUT" && GoodPut(c) then Some(PutOp(c.arg1, c.arg2))
    else if c.cmd == "GET" && GoodKey(c.arg1) then Some(GetOp(c.arg1))
    else if c.cmd == "DEL" && GoodKey(c.arg1) then Some(DelOp(c.arg1))
    else if c.cmd == "LIST" then Some(ListOp(prior))
    else None
  }

  /** The store operation an event leads to. */
  function Request(client: Client, event: Received, prior: string): Option<Op> {
    if client.open && client.authenticated && event.Line? then Operation(ParseLine(event.text), prior) else None
  }

  function Digit(d: nat): char
    requires d < 10
  {
    "0123456789"[d]
  }

  function Decimal(n: nat): (s: string)
    ensures s != ""
  {
    if n < 10 then [Digit(n)] else Decimal(n / 10) + [Digit(n % 10)]
  }

  function ListReply(count: nat, text: string): string {
    Cut("OK LIST " + Decimal(count) + " " + text, MAX_LINE + 32)
  }

  /** The reply to a command of an authenticated client; an operation's result is used only by
      the commands that perform it, and a store that failed is answered like one that did not. */
  function Reply(c: Command, result: Result): string {
    if c.cmd == "PUT" then
      if GoodPut(c) then "OK PUT" else "ERR PUT invalid_input"
    else if c.cmd == "GET" then
      if !GoodKey(c.arg1) then "ERR GET invalid_input"
      else if result.Read? && result.found.Some? then Cut("OK GET " + result.found.value, MAX_LINE)
      else "ERR GET not_found"
    else if c.cmd == "DEL" then
      if !GoodKey(c.arg1) then "ERR DEL invalid_input"
      else if result == Done(true) then "OK DEL" else "ERR DEL not_found"
    else if c.cmd == "LIST" then
      if result.Listed? then ListReply(result.count, result.text) else ListReply(0, "")
    else if c.cmd == "QUIT" then "OK BYE"
    else "ERR unknown_command"
  }

  function Login(client: Client, c: Command): (Client, seq<string>) {
    if client.authenticated then (client, ["ERR already_authenticated"])
    else if Known(c.arg1, c.arg2) then (client.(authenticated := true, user := c.arg1), ["OK AUTH"])
    else
      var n := client.attempts + 1;
      var refused := ["ERR AUTH invalid_credentials"];
      if n >= MAX_AUTH_ATTEMPTS then
        (client.(attempts := n, open := false), refused + ["ERR too_many_attempts_closing"])
      else (client.(attempts := n), refused)
  }

  /** The client after an event and the replies sent, given the result of its operation. */
  function Respond(client: Client, event: Received, result: Result): (Client, seq<string>) {
    if !client.open then (client, [])
    else
      match event
      case Closed => (client.(open := false), [])
      case Violation => (client.(open := false), ["ERR protocol_violation"])
      case Line(text) =>
        var c := ParseLine(text);
        if c.cmd == "AUTH" then Login(client, c)
        else if !client.authenticated then (client, ["ERR not_authenticated"])
        else (client.(open := c.cmd != "QUIT"), [Reply(c, result)])
  }

  // ----- Runs -----

  /** An event, the text left in its list buffer, and the result that the store, shared with other
      clients, gave to it. */
  datatype Step = Step(event: Received, prior: string, result: Result)

  function After(steps: seq<Step>): Client {
    if steps == [] then NEW_CLIENT
    else
      var n := |steps| - 1;
      Respond(After(steps[..n]), steps[n].event, steps[n].result).0
  }

  function RepliesAt(steps: seq<Step>, i: nat): seq<string>
    requires i < |steps|
  {
    Respond(After(steps[..i]), steps[i].event, steps[i].result).1
  }

  function RequestAt(steps: seq<Step>, i: nat): Option<Op>
    requires i < |steps|
  {
    Request(After(steps[..i]), steps[i].event, steps[i].prior)
  }

  /** The line at i is an AUTH command that the session still heard. */
  predicate AuthAt(steps: seq<Step>, i: nat)
    requires i < |steps|
  {
    After(steps[..i]).open && steps[i].event.Line? && Parse(steps[i].event.text, 63, 399).cmd == "AUTH"
  }

  /** It has the name and the password of one of the two users. */
  predicate SuccessAt(steps: seq<Step>, i: nat)
    requires i < |steps|
  {
    && AuthAt(steps, i)
    && var c := Parse(steps[i].event.text, 63, 399);
       (c.arg1 == "alice" && c.arg2 == "alicepass") || (c.arg1 == "bob" && c.arg2 == "bobpass")
  }

  predicate FailureAt(steps: seq<Step>, i: nat)
    requires i < |steps|
  {
    AuthAt(steps, i) && !SuccessAt(steps, i) && !After(steps[..i]).authenticated
  }

  lemma AfterSnoc(steps: seq<Step>, n: nat)
    requires n < |steps|
    ensures After(steps[..n + 1]) == Respond(After(steps[..n]), steps[n].event, steps[n].result).0
  {
    assert steps[..n + 1][..n] == steps[..n];
  }

  /** A session is authenticated exactly when it heard a successful AUTH; so once authenticated
      it stays so. */
  lemma {:induction false} AuthenticatedExactly(steps: seq<Step>, n: nat)
    requires n <= |steps|
    ensures After(steps[..n]).authenticated <==> exists i :: 0 <= i < n && SuccessAt(steps, i)
  {
    hide Known, Parse, Reply;
    if n > 0 {
      AuthenticatedExactly(steps, n - 1);
      AfterSnoc(steps, n - 1);
      LoginKnown(steps[n - 1].event);
      assert SuccessAt(steps, n - 1) ==> After(steps[..n]).authenticated;
      if After(steps[..n]).authenticated && !After(steps[..n - 1]).authenticated {
        assert SuccessAt(steps, n - 1);
      }
    }
  }

  lemma LoginKnown(event: Received)
    ensures event.Line? ==>
              var c := Parse(event.text, 63, 399);
              && ParseLine(event.text) == c
              && (Known(c.arg1, c.arg2) <==>
                    (c.arg1 == "alice" && c.arg2 == "alicepass") || (c.arg1 == "bob" && c.arg2 == "bobpass"))
  {
    hide Parse, Known;
    if event.Line? {
      var c := Parse(event.text, 63, 399);
      KnownExactly(c.arg1, c.arg2);
    }
  }

  /** No line asks anything of the store before a successful AUTH. */
  lemma NoRequestBeforeAuth(steps: seq<Step>, n: nat)
    requires n < |steps| && RequestAt(steps, n).Some?
    ensures exists i :: 0 <= i < n && SuccessAt(steps, i)
  {
    hide After, SuccessAt;
    AuthenticatedExactly(steps, n);
  }

  function Failures(steps: seq<Step>, n: nat): nat
    requires n <= |steps|
  {
    if n == 0 then 0 else Failures(steps, n - 1) + if FailureAt(steps, n - 1) then 1 else 0
  }

  /** The attempts counted are the failed AUTH lines; there are never more than three, and the
      session is closed as soon as there are three. */
  lemma {:induction false} FailedAttempts(steps: seq<Step>, n: nat)
    requires n <= |steps|
    ensures var c := After(steps[..n]);
            && c.attempts == Failures(steps, n) <= 3
            && (c.attempts == 3 ==> !c.open)
  {
    hide Known, Parse, Reply;
    if n > 0 {
      FailedAttempts(steps, n - 1);
      AfterSnoc(steps, n - 1);
      LoginKnown(steps[n - 1].event);
    }
  }

  /** Each event heard is answered by one reply, except that a disconnection has none and the
      third failed AUTH has two. */
  lemma ReplyCount(steps: seq<Step>, n: nat)
    requires n < |steps|
    ensures |RepliesAt(steps, n)| ==
              if !After(steps[..n]).open || steps[n].event.Closed? then 0
              else if FailureAt(steps, n) && Failures(steps, n + 1) == 3 then 2
              else 1
  {
    hide Known, Parse, Reply, After;
    FailedAttempts(steps, n);
    LoginKnown(steps[n].event);
  }

  /** Events heard, other than a disconnection. */
  function Heard(steps: seq<Step>, n: nat): nat
    requires n <= |steps|
  {
    if n == 0 then 0
    else Heard(steps, n - 1) +
         if After(steps[..n - 1]).open && !steps[n - 1].event.Closed? then 1 else 0
  }

  function TotalReplies(steps: seq<Step>, n: nat): nat
    requires n <= |steps|
  {
    if n == 0 then 0 else TotalReplies(steps, n - 1) + |RepliesAt(steps, n - 1)|
  }

  /** Over a whole session there is one reply for each event heard, and one more exactly when it
      was closed for too many failed attempts. */
  lemma {:induction false} RepliesBalance(steps: seq<Step>, n: nat)
    requires n <= |steps|
    ensures TotalReplies(steps, n) ==
              Heard(steps, n) + if Failures(steps, n) == 3 then 1 else 0
  {
    hide Respond, After, Parse, RepliesAt;
    if n > 0 {
      RepliesBalance(steps, n - 1);
      ReplyCount(steps, n - 1);
      FailedAttempts(steps, n - 1);
      FailedAttempts(steps, n);
    }
  }

  /** Every operation asked of the store has a key, and a value, that the slots hold whole. */
  lemma RequestFits(client: Client, event: Received, prior: string)
    requires Request(client, event, prior).Some?
    ensures var op := Request(client, event, prior).value;
            && (!op.ListOp? ==> 1 <= |op.key| < 64)
            && (op.PutOp? ==> 1 <= |op.value| < 400 && Cut(op.value, SERVER_SIZES.value) == op.value)
  {
    hide ParseLine;
  }

  /** A well-formed PUT is answered the same whether or not the store took it; a GET that comes
      next gives the value exactly when the key was there or a slot was free. */
  lemma OkPutMeans(client: Client, text: string, prior: string, slots: seq<Slot>)
    requires Request(client, Line(text), prior).Some? && Request(client, Line(text), prior).value.PutOp?
    requires Valid(SERVER_SIZES, slots)
    ensures var op := Request(client, Line(text), prior).value;
            var (after, result) := Apply(SERVER_SIZES, slots, op);
            && Respond(client, Line(text), result).1 == ["OK PUT"]
            && (Get(after, op.key) == Some(op.value) <==>
                  op.key in MapOf(slots) || |MapOf(slots)| < |slots| )
  {
    hide ParseLine, MapOf, Put, Get, Valid;
    var op := Request(client, Line(text), prior).value;
    RequestFits(client, Line(text), prior);
    var (after, ok) := Put(SERVER_SIZES, slots, op.key, op.value);
    PutRefines(SERVER_SIZES, slots, op.key, op.value);
    GetRefines(after, op.key);
  }

  /** So a client can be told OK PUT for a value that is nowhere: one slot, in use for another key. */
  lemma OkPutWhenFull()
    ensures var slots, client := [Slot("a", "x", true)], Client(true, true, 0, "alice");
            var text := "PUT b y";
            && Request(client, Line(text), "") == Some(PutOp("b", "y"))
            && var (after, result) := Apply(SERVER_SIZES, slots, PutOp("b", "y"));
               Respond(client, Line(text), result).1 == ["OK PUT"] && Get(after, "b") == None
  {
    hide ParseLine, Put, Get;
    PutLine();
    FullSlot();
  }

  lemma PutLine()
    ensures ParseLine("PUT b y") == Command("PUT", "b", "y")
  {
    hide Parse;
    assert IsWord("PUT", 63) && IsWord("b", 63) && IsText("y", 399);
    ParseExactly("PUT", "b", "y", 63, 399);
    assert Printed("PUT", "b", "y") == "PUT b y";
  }

  lemma FullSlot()
    ensures var slots := [Slot("a", "x", true)];
            Put(SERVER_SIZES, slots, "b", "y") == (slots, false) && Get(slots, "b") == None
  {
    hide Cut;
  }

  /** Every reply other than a list has at most 512 characters, as long as values fit their
      slots, and so goes out with its newline. */
  lemma RepliesFit(client: Client, event: Received, result: Result, i: nat)
    requires i < |Respond(client, event, result).1|
    requires result.Read? && result.found.Some? ==> |result.found.value| < 400
    requires result.Listed? ==> !(event.Line? && ParseLine(event.text).cmd == "LIST")
    ensures |Respond(client, event, result).1[i]| <= 512
  {
    hide Known, ParseLine, GoodPut, GoodKey;
    assert |Decimal(0)| == 1;
  }

  /** The slots of eight different keys of 63 characters. */
  function LongKeys(n: nat): (slots: seq<Slot>)
    requires n <= 8
    ensures |slots| == n
    ensures forall i :: 0 <= i < n ==> slots[i].used && |slots[i].key| == 63 && slots[i].key[62] == Digit(i)
  {
    seq(n, i requires 0 <= i < 8 => Slot(seq(62, _ => 'k') + [Digit(i)], "v", true))
  }

  /** The reply to a list, when the text prior was left in its buffer. */
  function ListAnswer(slots: seq<Slot>, prior: string): string {
    var (count, text) := Listing(slots, SERVER_SIZES.list, prior);
    ListReply(count, text)
  }

  /** A list reply is short enough for its newline exactly when the store's keys, joined, leave
      room; with no key in use it is the text left in the buffer that counts. */
  lemma ListAnswerFits(slots: seq<Slot>, prior: string)
    ensures |ListAnswer(slots, prior)| <= 512 <==>
              var n := Used(slots);
              9 + |Decimal(n)| + (if n == 0 then |prior| else |Joined(slots)|) <= 512
  {
    hide Decimal, Joined, List;
    ListMeans(slots, SERVER_SIZES.list);
    NothingListed(slots, SERVER_SIZES.list);
  }

  /** The store decides the reply to a list exactly when some slot is in use: with none, the reply
      shows what was left in the buffer. */
  lemma ListAnswerDecided(slots: seq<Slot>)
    ensures (forall p, q :: ListAnswer(slots, p) == ListAnswer(slots, q)) <==> Used(slots) > 0
  {
    hide List, Used;
    NothingListed(slots, SERVER_SIZES.list);
    ListDecided(slots, SERVER_SIZES.list);
    if Used(slots) == 0 {
      LeftoverShown(slots);
    }
  }

  /** On a store with no key, the reply is OK LIST 0 and the leftover text. */
  lemma LeftoverShown(slots: seq<Slot>)
    requires Used(slots) == 0
    ensures ListAnswer(slots, "") == "OK LIST 0 " + "" && ListAnswer(slots, "x") == "OK LIST 0 " + "x"
    ensures ListAnswer(slots, "") != ListAnswer(slots, "x")
  {
    NothingListed(slots, SERVER_SIZES.list);
    ZeroReply("");
    ZeroReply("x");
    hide List, Used, ListReply;
    assert |ListAnswer(slots, "")| != |ListAnswer(slots, "x")|;
  }

  lemma ZeroReply(prior: string)
    requires |prior| <= 1
    ensures ListReply(0, prior) == "OK LIST 0 " + prior
  {
    var head := "OK LIST " + Decimal(0) + " ";
    assert Decimal(0) == "0";
    assert head == "OK LIST 0 ";
    assert |head + prior| < MAX_LINE + 32;
    assert ListReply(0, prior) == Cut(head + prior, MAX_LINE + 32);
    assert Cut(head + prior, MAX_LINE + 32) == head + prior;
  }

  /** A list reply can be longer: its newline is then cut off. */
  lemma LongList(prior: string)
    ensures Valid(SERVER_SIZES, LongKeys(8))
    ensures |ListAnswer(LongKeys(8), prior)| > 512
  {
    hide LongKeys, Joined, ListAnswer, Used, Decimal;
    var slots := LongKeys(8);
    JoinedLength(slots, 63);
    LongUsed(slots);
    ListAnswerFits(slots, prior);
  }

  lemma {:induction false} LongUsed(slots: seq<Slot>)
    requires forall i :: 0 <= i < |slots| ==> slots[i].used
    ensures Used(slots) == |slots|
  {
    if slots != [] {
      LongUsed(slots[1..]);
    }
  }

  lemma {:induction false} JoinedLength(slots: seq<Slot>, n: nat)
    requires forall i :: 0 <= i < |slots| ==> slots[i].used && |slots[i].key| == n
    ensures |Joined(slots)| == |slots| * (n + 1)
  {
    if slots != [] {
      JoinedLength(slots[1..], n);
      assert |slots| * (n + 1) == |slots[1..]| * (n + 1) + n + 1;
    }
  }
}
