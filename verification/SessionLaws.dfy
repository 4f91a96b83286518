/** What a client is told and what its lines do to the map of the store, line by line, stated with
    the texts of the protocol themselves. */
module SessionLaws {
  import opened CStrings
  import opened Options
  import opened KeyValueStore
  import opened Wire
  import opened Session
  import opened ClientHandler

  /** What a token may be: 1 to 63 characters, none of them a control character. */
  predicate Token(s: string) {
    1 <= |s| <= 63 && forall i :: 0 <= i < |s| ==> 32 <= s[i] as int && s[i] as int != 127
  }

  /** One line heard: the client and the slots after it, and the replies. */
  function Turn(client: Client, text: string, prior: string, slots: seq<Slot>): (Client, seq<Slot>, seq<string>) {
    var (after, result) := Perform(client, Line(text), prior, slots);
    var (client', replies) := Respond(client, Line(text), result);
    (client', after, replies)
  }

  predicate Hearing(client: Client, text: string, cmd: string) {
    client.open && client.authenticated && Parse(text, 63, 399).cmd == cmd
  }

  // ----- Before a client is known -----

  /** The name and the password of a user. */
  predicate Credentials(username: string, password: string) {
    (username == "alice" && password == "alicepass") || (username == "bob" && password == "bobpass")
  }

  /** From a client not yet known a line is answered, and changes the client, as follows; it never
      touches the store. */
  lemma StrangerTurn(client: Client, text: string, prior: string, slots: seq<Slot>)
    requires client.open && !client.authenticated
    ensures var c, n := Parse(text, 63, 399), client.attempts + 1;
            Turn(client, text, prior, slots) ==
              if c.cmd != "AUTH" then (client, slots, ["ERR not_authenticated"])
              else if Credentials(c.arg1, c.arg2) then (Client(true, true, client.attempts, c.arg1), slots, ["OK AUTH"])
              else if n < 3 then (Client(true, false, n, client.user), slots, ["ERR AUTH invalid_credentials"])
              else (Client(false, false, n, client.user), slots,
                    ["ERR AUTH invalid_credentials", "ERR too_many_attempts_closing"])
  {
    hide Parse, Known, Reply;
    var c := Parse(text, 63, 399);
    KnownExactly(c.arg1, c.arg2);
    var refused, closing := "ERR AUTH invalid_credentials", "ERR too_many_attempts_closing";
    assert [refused] + [closing] == [refused, closing];
  }

  /** A known client that sends AUTH again stays the one it is. */
  lemma AuthAgain(client: Client, text: string, prior: string, slots: seq<Slot>)
    requires Hearing(client, text, "AUTH")
    ensures Turn(client, text, prior, slots) == (client, slots, ["ERR already_authenticated"])
  {
    hide Parse, Known, Reply;
  }

  /** Over a whole session: the client is authenticated exactly when it sent, while the session was
      open, a line with the name and the password of a user. */
  lemma LoggedInExactly(steps: seq<Step>, n: nat)
    requires n <= |steps|
    ensures After(steps[..n]).authenticated <==>
              exists i :: 0 <= i < n && After(steps[..i]).open && LoginLine(steps[i].event)
  {
    hide Parse, After;
    AuthenticatedExactly(steps, n);
    assert forall i :: 0 <= i < n ==> (SuccessAt(steps, i) <==> After(steps[..i]).open && LoginLine(steps[i].event));
  }

  predicate LoginLine(event: Received) {
    event.Line? && var c := Parse(event.text, 63, 399); c.cmd == "AUTH" && Credentials(c.arg1, c.arg2)
  }

  /** Such lines are, for a user and password printed with single spaces, these two and no others. */
  lemma LoginPrinted(username: string, password: string)
    requires IsWord(username, 63) && IsText(password, 399)
    ensures LoginLine(Line("AUTH " + username + " " + password)) <==> Credentials(username, password)
  {
    hide Parse;
    assert IsWord("AUTH", 63);
    ParseExactly("AUTH", username, password, 63, 399);
    assert Printed("AUTH", username, password) == "AUTH " + username + " " + password;
  }

  // ----- Commands of a known client -----

  /** PUT: stored whole when the key is there or a slot is free; answered alike when it is not. */
  lemma PutTurn(client: Client, text: string, prior: string, slots: seq<Slot>)
    requires Hearing(client, text, "PUT") && Valid(SERVER_SIZES, slots)
    ensures var c, m := Parse(text, 63, 399), MapOf(slots);
            var good := Token(c.arg1) && c.arg2 != "";
            var (client', after, replies) := Turn(client, text, prior, slots);
            && client' == client
            && replies == [if good then "OK PUT" else "ERR PUT invalid_input"]
            && Valid(SERVER_SIZES, after)
            && MapOf(after) == if good && (c.arg1 in m || |m| < |slots|) then m[c.arg1 := c.arg2] else m
  {
    hide Parse, MapOf, Valid, Put;
    var c := Parse(text, 63, 399);
    ArgumentsFit(text);
    if Token(c.arg1) && c.arg2 != "" {
      PutRefines(SERVER_SIZES, slots, c.arg1, c.arg2);
      assert Cut(c.arg2, 400) == c.arg2;
    }
  }

  lemma ArgumentsFit(text: string)
    ensures var c := Parse(text, 63, 399);
            && ParseLine(text) == c && |c.arg2| <= 399 && (GoodKey(c.arg1) <==> Token(c.arg1))
  {
    hide SkipSpaces, Word, Text;
  }

  /** GET: the value of the key, as far as 511 characters go, or that there is none. */
  lemma GetTurn(client: Client, text: string, prior: string, slots: seq<Slot>)
    requires Hearing(client, text, "GET")
    ensures var key, m := Parse(text, 63, 399).arg1, MapOf(slots);
            Turn(client, text, prior, slots) ==
              (client, slots,
               [if !Token(key) then "ERR GET invalid_input"
                else if key !in m then "ERR GET not_found"
                else if |m[key]| <= 504 then "OK GET " + m[key]
                else "OK GET " + m[key][..504]])
  {
    hide Parse, MapOf, Get;
    var key, m := Parse(text, 63, 399).arg1, MapOf(slots);
    ArgumentsFit(text);
    GetRefines(slots, key);
    if key in m {
      CutAnswer(m[key]);
    }
  }

  lemma CutAnswer(value: string)
    ensures Cut("OK GET " + value, 512) == if |value| <= 504 then "OK GET " + value else "OK GET " + value[..504]
  {
    assert |"OK GET "| == 7;
    assert |value| > 504 ==> ("OK GET " + value)[..511] == "OK GET " + value[..504];
  }

  /** DEL: the key is not in the map afterwards, and the reply tells whether it was there. */
  lemma DelTurn(client: Client, text: string, prior: string, slots: seq<Slot>)
    requires Hearing(client, text, "DEL") && Valid(SERVER_SIZES, slots)
    ensures var key, m := Parse(text, 63, 399).arg1, MapOf(slots);
            var (client', after, replies) := Turn(client, text, prior, slots);
            && client' == client
            && replies == [if !Token(key) then "ERR DEL invalid_input"
                           else if key in m then "OK DEL"
                           else "ERR DEL not_found"]
            && Valid(SERVER_SIZES, after)
            && MapOf(after) == if Token(key) then m - {key} else m
  {
    hide Parse, MapOf, Valid, Del;
    var key := Parse(text, 63, 399).arg1;
    ArgumentsFit(text);
    if Token(key) {
      DelRefines(SERVER_SIZES, slots, key);
    }
  }

  /** QUIT, and whatever is no command. */
  lemma OtherTurn(client: Client, text: string, prior: string, slots: seq<Slot>)
    requires client.open && client.authenticated
    requires Parse(text, 63, 399).cmd !in {"AUTH", "PUT", "GET", "DEL", "LIST"}
    ensures Turn(client, text, prior, slots) ==
              if Parse(text, 63, 399).cmd == "QUIT" then (client.(open := false), slots, ["OK BYE"])
              else (client, slots, ["ERR unknown_command"])
  {
    hide Parse;
  }

  /** The end of the connection closes the session in silence, and what is no line with one reply;
      a closed session hears nothing. */
  lemma NoLineTurn(client: Client, result: Result)
    requires client.open
    ensures Respond(client, Closed, result) == (client.(open := false), [])
    ensures Respond(client, Violation, result) == (client.(open := false), ["ERR protocol_violation"])
    ensures forall event, r :: Respond(client.(open := false), event, r) == (client.(open := false), [])
  {
    hide Login, Reply;
  }

  // ----- LIST -----

  /** The pieces of a text that end in a space, without it. */
  function Pieces(text: string): seq<string> {
    if text == "" then []
    else if text[0] == ' ' then [""] + Pieces(text[1..])
    else
      var rest := Pieces(text[1..]);
      if rest == [] then [] else [[text[0]] + rest[0]] + rest[1..]
  }

  /** The keys in use, in slot order. */
  function UsedKeys(slots: seq<Slot>): seq<string> {
    if slots == [] then []
    else (if slots[0].used then [slots[0].key] else []) + UsedKeys(slots[1..])
  }

  predicate NoSpaces(slots: seq<Slot>) {
    forall i :: 0 <= i < |slots| && slots[i].used ==> ' ' !in slots[i].key
  }

  lemma {:induction false} FirstPiece(key: string, rest: string)
    requires ' ' !in key
    ensures Pieces(key + " " + rest) == [key] + Pieces(rest)
  {
    var text := key + " " + rest;
    if key == "" {
      assert text[1..] == rest;
    } else {
      FirstPiece(key[1..], rest);
      assert text[1..] == key[1..] + " " + rest;
      assert [key[0]] + key[1..] == key;
    }
  }

  lemma {:induction false} NoPiece(text: string)
    requires ' ' !in text
    ensures Pieces(text) == []
  {
    if text != "" {
      NoPiece(text[1..]);
    }
  }

  /** The keys in use are read back from what a list shows, in slot order, as long as they fit; and
      then their number is the count. When they do not fit, the list shows all but one of the keys
      it counts whole. */
  lemma {:induction false} ListedKeys(slots: seq<Slot>, room: nat)
    requires room >= 1 && NoSpaces(slots)
    ensures var (count, text) := List(slots, room);
            && Pieces(text) <= UsedKeys(slots) && |UsedKeys(slots)| == Used(slots)
            && (if |Joined(slots)| < room then Pieces(text) == UsedKeys(slots) && count == |Pieces(text)|
                else count == |Pieces(text)| + 1)
  {
    if slots != [] {
      var rest := slots[1..];
      assert forall i :: 0 <= i < |rest| ==> rest[i] == slots[i + 1];
      if !slots[0].used {
        ListedKeys(rest, room);
        assert [] + UsedKeys(rest) == UsedKeys(rest);
      } else {
        var key := slots[0].key;
        var piece := key + " ";
        if |piece| >= room {
          assert piece[..room - 1] == key[..room - 1];
          NoPiece(key[..room - 1]);
          UsedCounted(rest);
        } else {
          ListedKeys(rest, room - |piece|);
          FirstPiece(key, List(rest, room - |piece|).1);
        }
      }
    }
  }

  lemma {:induction false} UsedCounted(slots: seq<Slot>)
    ensures |UsedKeys(slots)| == Used(slots)
  {
    if slots != [] {
      UsedCounted(slots[1..]);
    }
  }

  function ValueOf(digits: string): int {
    if digits == "" then 0 else 10 * ValueOf(digits[..|digits| - 1]) + digits[|digits| - 1] as int - 48
  }

  /** A count is written in decimal: digits only, the first no zero unless it is the number. */
  lemma {:induction false} DecimalMeans(n: nat)
    ensures var s := Decimal(n);
            && ValueOf(s) == n
            && (forall i :: 0 <= i < |s| ==> 48 <= s[i] as int <= 57)
            && (n > 0 ==> s[0] != '0')
  {
    DigitValue(n % 10);
    var s := Decimal(n);
    if n < 10 {
      assert s[..0] == "";
    } else {
      DecimalMeans(n / 10);
      assert s[..|s| - 1] == Decimal(n / 10);
    }
  }

  lemma DigitValue(d: nat)
    requires d < 10
    ensures Digit(d) as int == 48 + d
  {
    assert d == 0 || d == 1 || d == 2 || d == 3 || d == 4 || d == 5 || d == 6 || d == 7 || d == 8 || d == 9;
  }

  /** LIST changes nothing. Its reply has, after the count, the keys in use with a space after each,
      cut to 511 characters, and is cut to 543; with no key in use it has what the list buffer held
      before. */
  lemma ListTurn(client: Client, text: string, prior: string, slots: seq<Slot>)
    requires Hearing(client, text, "LIST")
    ensures var keys, count := Joined(slots), List(slots, 512).0;
            var shown := if count == 0 then prior else if |keys| < 512 then keys else keys[..511];
            var reply := "OK LIST " + Decimal(count) + " " + shown;
            && (count == 0 <==> Used(slots) == 0)
            && (|keys| < 512 ==> count == Used(slots))
            && Turn(client, text, prior, slots) ==
                 (client, slots, [if |reply| <= 543 then reply else reply[..543]])
  {
    hide Parse, List, Joined, Decimal, Used, Put, Get, Del;
    ListMeans(slots, 512);
    NothingListed(slots, 512);
  }
}
