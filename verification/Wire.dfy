/** Lines on a connection and the commands printed on them: framing and parsing undo sending
    and printing. */
module Wire {

  const MAX_LINE: nat := 512

  /** The first position of c in s, or the length of s. */
  function IndexOf(s: string, c: char): (r: nat)
    ensures r <= |s| && (r < |s| ==> s[r] == c)
    ensures forall j :: 0 <= j < r ==> s[j] != c
  {
    if s == "" then 0
    else if s[0] == c then 0
    else
      var rest := s[1..];
      assert forall j :: 1 <= j < |s| ==> s[j] == rest[j - 1];
      1 + IndexOf(rest, c)
  }

  /** A buffer read as a C string: up to its first NUL. */
  function CText(s: string): (r: string)
    ensures r <= s && '\0' !in r && (|r| < |s| ==> s[|r|] == '\0')
  {
    s[..IndexOf(s, '\0')]
  }

  // ----- Lines -----

  /** What a receiver makes of its input: a line, the end of the connection, or an error. */
  datatype Received = Line(text: string) | Closed | Violation

  /** The form in which a message goes out, from a buffer of max + 2 characters. */
  function SendForm(msg: string, max: nat): (r: string)
    ensures |r| <= max + 1
  {
    var whole := CText(msg) + "\n";
    if |whole| <= max + 1 then whole else whole[..max + 1]
  }

  /** The status of receiving one line into a buffer of max characters, the characters before
      its newline, and the input left over. */
  function Receive(input: string, faulty: bool, max: nat): (r: (int, string, string))
    requires max >= 1
    ensures |r.2| <= |input| && (r.0 > 0 ==> |r.2| < |input| && r.0 == |r.1|)
  {
    var e := IndexOf(input, '\n');
    var failed: int := -1;
    if e < |input| && e < max - 1 then (e as int, input[..e], input[e + 1..])
    else if |input| < max - 1 then (if faulty then failed else 0, "", "")
    else (failed, "", input[max - 1..])
  }

  function DropReturn(raw: string): (r: string)
    ensures r <= raw
  {
    if raw != "" && raw[|raw| - 1] == '\r' then raw[..|raw| - 1] else raw
  }

  function Interpret(status: int, raw: string): Received {
    if status > 0 then Line(CText(DropReturn(raw))) else if status == 0 then Closed else Violation
  }

  function ReceiveLine(input: string, faulty: bool, max: nat): (r: (Received, string))
    requires max >= 1
    ensures |r.1| <= |input| && (r.0.Line? ==> |r.1| < |input|)
  {
    var (status, raw, rest) := Receive(input, faulty, max);
    (Interpret(status, raw), rest)
  }

  /** A message that goes through whole. */
  predicate Framable(msg: string, max: nat) {
    && 1 <= |msg| <= max - 2
    && '\n' !in msg && '\0' !in msg
    && msg[|msg| - 1] != '\r'
  }

  lemma IndexOfFirst(s: string, c: char, rest: string)
    requires c !in s
    ensures IndexOf(s + [c] + rest, c) == |s|
  {
    var t := s + [c] + rest;
    assert t[|s|] == c && forall j :: 0 <= j < |s| ==> t[j] == s[j];
  }

  lemma NoIndex(s: string, c: char)
    requires c !in s
    ensures IndexOf(s, c) == |s|
  {
  }

  /** Whatever follows on the connection, the first line received is the message sent exactly
      when the message is framable, and then exactly the rest is left. */
  lemma FramingExactly(msg: string, rest: string, faulty: bool, max: nat)
    requires max >= 1
    ensures var (first, left) := ReceiveLine(SendForm(msg, max) + rest, faulty, max);
            && (first == Line(msg) <==> Framable(msg, max))
            && (Framable(msg, max) ==> left == rest)
  {
    hide IndexOf;
    if Framable(msg, max) {
      Framed(msg, rest, faulty, max);
    } else if ReceiveLine(SendForm(msg, max) + rest, faulty, max).0 == Line(msg) {
      OnlyFramable(msg, rest, faulty, max);
    }
  }

  lemma Framed(msg: string, rest: string, faulty: bool, max: nat)
    requires Framable(msg, max)
    ensures ReceiveLine(SendForm(msg, max) + rest, faulty, max) == (Line(msg), rest)
  {
    hide IndexOf;
    NoIndex(msg, '\0');
    IndexOfFirst(msg, '\n', rest);
    var input := SendForm(msg, max) + rest;
    assert input == msg + "\n" + rest;
    assert input[..|msg|] == msg && input[|msg| + 1..] == rest;
    assert DropReturn(msg) == msg && CText(msg) == msg;
  }

  lemma OnlyFramable(msg: string, rest: string, faulty: bool, max: nat)
    requires max >= 1 && ReceiveLine(SendForm(msg, max) + rest, faulty, max).0 == Line(msg)
    ensures Framable(msg, max)
  {
    hide IndexOf, ReceiveLine, CText, DropReturn;
    var input := SendForm(msg, max) + rest;
    LineRead(input, faulty, max, msg);
    var e := IndexOf(input, '\n');
    forall j | 0 <= j < |msg| ensures msg[j] != '\n' {
      assert msg[j] == input[..e][j] == input[j];
    }
    WholeText(msg);
    IndexOfFirst(msg, '\n', rest);
    assert input == msg + "\n" + rest;
    assert input[..e] == msg;
    KeptReturn(msg);
  }

  /** A line received is what precedes the first newline, less a carriage return, up to a NUL. */
  lemma LineRead(input: string, faulty: bool, max: nat, msg: string)
    requires max >= 1 && ReceiveLine(input, faulty, max).0 == Line(msg)
    ensures var e := IndexOf(input, '\n');
            && 0 < e < |input| && e < max - 1
            && msg == CText(DropReturn(input[..e])) && msg <= input[..e] && '\0' !in msg
  {
    var e := IndexOf(input, '\n');
    var received := Receive(input, faulty, max);
    StatusMeans(input, faulty, max);
    InterpretLine(received.0, received.1);
    hide IndexOf, CText, DropReturn, Receive, Interpret;
    assert ReceiveLine(input, faulty, max).0 == Interpret(received.0, received.1);
    TextWithin(received.1);
  }

  /** The status is positive exactly when a newline ends a line that is not empty and fits. */
  lemma StatusMeans(input: string, faulty: bool, max: nat)
    requires max >= 1
    ensures var e, received := IndexOf(input, '\n'), Receive(input, faulty, max);
            && (received.0 > 0 <==> 0 < e < |input| && e < max - 1)
            && (received.0 > 0 ==> received.1 == input[..e])
  {
    hide IndexOf;
  }

  lemma InterpretLine(status: int, raw: string)
    ensures Interpret(status, raw).Line? <==> status > 0
    ensures status > 0 ==> Interpret(status, raw) == Line(CText(DropReturn(raw)))
  {
  }

  lemma TextWithin(raw: string)
    ensures var msg := CText(DropReturn(raw)); msg <= raw && '\0' !in msg
  {
    hide CText, DropReturn;
    var d := DropReturn(raw);
    assert |CText(d)| <= |d| <= |raw|;
  }

  lemma WholeText(msg: string)
    requires '\0' !in msg
    ensures CText(msg) == msg
  {
    NoIndex(msg, '\0');
  }

  lemma KeptReturn(msg: string)
    requires msg != "" && CText(DropReturn(msg)) == msg
    ensures msg[|msg| - 1] != '\r'
  {
  }

  /** The messages one after the other as sent. */
  function SendAll(msgs: seq<string>, max: nat): string {
    if msgs == [] then "" else SendForm(msgs[0], max) + SendAll(msgs[1..], max)
  }

  /** All lines received before the connection ends, and how it ends. */
  function ReceiveAll(input: string, faulty: bool, max: nat): (seq<string>, Received)
    requires max >= 1
    decreases |input|
  {
    var (first, rest) := ReceiveLine(input, faulty, max);
    if first.Line? then
      var (lines, end) := ReceiveAll(rest, faulty, max);
      ([first.text] + lines, end)
    else ([], first)
  }

  predicate AllFramable(msgs: seq<string>, max: nat) {
    forall i :: 0 <= i < |msgs| ==> Framable(msgs[i], max)
  }

  /** A stream of messages is received message by message exactly when each is framable. */
  lemma {:induction false} StreamExactly(msgs: seq<string>, max: nat)
    requires max >= 2
    ensures ReceiveAll(SendAll(msgs, max), false, max) == (msgs, Closed) <==> AllFramable(msgs, max)
  {
    hide ReceiveLine, SendForm, Framable;
    if msgs == [] {
      NothingReceived(max);
    } else {
      var tail := SendAll(msgs[1..], max);
      FramingExactly(msgs[0], tail, false, max);
      StreamExactly(msgs[1..], max);
      assert msgs == [msgs[0]] + msgs[1..];
      SplitFramable(msgs, max);
    }
  }

  lemma NothingReceived(max: nat)
    requires max >= 2
    ensures ReceiveLine("", false, max).0 == Closed
  {
  }

  lemma SplitFramable(msgs: seq<string>, max: nat)
    requires msgs != []
    ensures AllFramable(msgs, max) <==> Framable(msgs[0], max) && AllFramable(msgs[1..], max)
  {
    hide Framable;
    if Framable(msgs[0], max) && AllFramable(msgs[1..], max) {
      forall i | 0 <= i < |msgs| ensures Framable(msgs[i], max) {
        assert i > 0 ==> msgs[i] == msgs[1..][i - 1];
      }
    }
  }

  /** An empty line is taken for the end of the connection, whatever follows it. */
  lemma EmptyLineCloses(rest: string, faulty: bool, max: nat)
    requires max >= 2
    ensures ReceiveLine("\n" + rest, faulty, max) == (Closed, rest)
  {
    assert ("\n" + rest)[1..] == rest;
  }

  /** A message goes out with its newline exactly when it has at most max characters. */
  lemma NewlineSent(msg: string, max: nat)
    requires '\n' !in msg && '\0' !in msg
    ensures '\n' in SendForm(msg, max) <==> |msg| <= max
  {
    NoIndex(msg, '\0');
    var whole := msg + "\n";
    assert whole[|msg|] == '\n';
    assert forall j :: 0 <= j < |msg| ==> whole[j] == msg[j];
    if |msg| <= max {
      assert SendForm(msg, max) == whole;
    }
  }

  // ----- Commands -----

  datatype Command = Command(cmd: string, arg1: string, arg2: string)

  predicate IsSpace(c: char) {
    c == ' ' || 9 <= c as int <= 13
  }

  function SkipSpaces(s: string): (r: string)
    ensures r == "" || !IsSpace(r[0])
    ensures |r| <= |s| && s[|s| - |r|..] == r
    ensures forall i :: 0 <= i < |s| - |r| ==> IsSpace(s[i])
  {
    if s != "" && IsSpace(s[0]) then SkipSpaces(s[1..]) else s
  }

  /** The characters read for a word of at most max. */
  function Word(s: string, max: nat): (r: string)
    ensures r <= s && |r| <= max && forall i :: 0 <= i < |r| ==> !IsSpace(r[i])
    ensures |r| < |s| && |r| < max ==> IsSpace(s[|r|])
  {
    if max == 0 || s == "" || IsSpace(s[0]) then "" else [s[0]] + Word(s[1..], max - 1)
  }

  /** The characters read for a text of at most max that ends at a newline. */
  function Text(s: string, max: nat): (r: string)
    ensures r <= s && |r| <= max && '\n' !in r
    ensures |r| < |s| && |r| < max ==> s[|r|] == '\n'
  {
    if max == 0 || s == "" || s[0] == '\n' then "" else [s[0]] + Text(s[1..], max - 1)
  }

  /** Reads two words of at most word characters and the text after them. */
  function Parse(line: string, word: nat, text: nat): Command {
    var s1 := SkipSpaces(line);
    var cmd := Word(s1, word);
    var s2 := SkipSpaces(s1[|cmd|..]);
    var arg1 := Word(s2, word);
    Command(cmd, arg1, Text(SkipSpaces(s2[|arg1|..]), text))
  }

  predicate IsWord(s: string, word: nat) {
    1 <= |s| <= word && forall i :: 0 <= i < |s| ==> !IsSpace(s[i])
  }

  predicate IsText(s: string, text: nat) {
    |s| <= text && '\n' !in s && (s == "" || !IsSpace(s[0]))
  }

  function Printed(cmd: string, key: string, value: string): string {
    cmd + " " + key + " " + value
  }

  lemma {:induction false} WordEnds(s: string, rest: string, word: nat)
    requires IsWord(s, word) && rest != "" && IsSpace(rest[0])
    ensures Word(s + rest, word) == s
  {
    hide IsSpace;
    var t := s[1..];
    assert (s + rest)[1..] == t + rest && (s + rest)[0] == s[0];
    assert s == [s[0]] + t;
    if t == "" {
      assert t + rest == rest;
    } else {
      WordEnds(t, rest, word - 1);
    }
  }

  lemma {:induction false} TextWhole(s: string, text: nat)
    requires |s| <= text && '\n' !in s
    ensures Text(s, text) == s
  {
    if s != "" {
      TextWhole(s[1..], text - 1);
      assert s == [s[0]] + s[1..];
    }
  }

  /** After a word and one space, parsing goes on with what follows. */
  lemma NextWord(s: string, rest: string, word: nat)
    requires IsWord(s, word)
    ensures var line := s + " " + rest;
            SkipSpaces(line) == line && Word(line, word) == s && SkipSpaces(line[|s|..]) == SkipSpaces(rest)
  {
    var line := s + " " + rest;
    assert line == s + (" " + rest);
    WordEnds(s, " " + rest, word);
    assert line[0] == s[0];
    assert line[|s|..] == " " + rest;
    assert (" " + rest)[1..] == rest;
  }

  lemma PrintedParts(cmd: string, key: string, value: string)
    ensures Printed(cmd, key, value) == cmd + " " + (key + " " + value)
  {
  }

  /** A word and a word give back, whatever the value: the value without leading spaces, up to
      its first newline and cut to the size of its field. */
  lemma ParsePrinted(cmd: string, key: string, value: string, word: nat, text: nat)
    requires IsWord(cmd, word) && IsWord(key, word)
    ensures Parse(Printed(cmd, key, value), word, text) ==
              Command(cmd, key, Text(SkipSpaces(value), text))
  {
    hide IsSpace, Word, SkipSpaces, IsWord, Text, Printed;
    var rest := key + " " + value;
    PrintedParts(cmd, key, value);
    NextWord(cmd, rest, word);
    NextWord(key, value, word);
    var line := cmd + " " + rest;
    assert SkipSpaces(line[|cmd|..]) == rest;
    assert SkipSpaces(rest[|key|..]) == SkipSpaces(value);
  }

  /** A word, or two words, alone leave the other fields empty. */
  lemma ParseShort(cmd: string, key: string, word: nat, text: nat)
    requires IsWord(cmd, word) && IsWord(key, word)
    ensures Parse(cmd, word, text) == Command(cmd, "", "")
    ensures Parse(cmd + " " + key, word, text) == Command(cmd, key, "")
  {
    hide IsSpace, SkipSpaces, Word;
    NextWord(cmd, key, word);
    OnlyWord(cmd, word);
    OnlyWord(key, word);
  }

  lemma OnlyWord(s: string, word: nat)
    requires IsWord(s, word)
    ensures SkipSpaces(s) == s && Word(s, word) == s && s[|s|..] == "" && SkipSpaces("") == ""
    ensures Word("", word) == ""
  {
    hide IsSpace;
    WordAlone(s, word);
    SkipNothing(s);
    assert s != "" && !IsSpace(s[0]);
  }

  lemma {:induction false} WordAlone(s: string, word: nat)
    requires |s| <= word && forall i :: 0 <= i < |s| ==> !IsSpace(s[i])
    ensures Word(s, word) == s
  {
    hide IsSpace;
    if s != "" {
      WordAlone(s[1..], word - 1);
      assert s == [s[0]] + s[1..];
    }
  }

  lemma {:induction false} SkipNothing(s: string)
    ensures SkipSpaces(s) == s <==> s == "" || !IsSpace(s[0])
  {
  }

  /** A printed command parses back to itself exactly when its key is a word that fits and its
      value is a text that fits and does not begin with a space. */
  lemma ParseExactly(cmd: string, key: string, value: string, word: nat, text: nat)
    requires IsWord(cmd, word) && key != ""
    ensures Parse(Printed(cmd, key, value), word, text) == Command(cmd, key, value)
       <==> IsWord(key, word) && IsText(value, text)
  {
    hide Word, SkipSpaces;
    var parsed := Parse(Printed(cmd, key, value), word, text);
    if IsWord(key, word) {
      ParsePrinted(cmd, key, value, word, text);
      SkipNothing(value);
      if IsText(value, text) {
        TextWhole(value, text);
      } else if Text(SkipSpaces(value), text) == value {
        SkipShorter(value, text);
      }
    }
  }

  lemma SkipShorter(value: string, text: nat)
    requires Text(SkipSpaces(value), text) == value
    ensures IsText(value, text)
  {
    var s := SkipSpaces(value);
    assert |value| <= |s| <= |value|;
    assert s == value[0..];
  }

  /** A longer value is cut without notice. */
  lemma LongValueCut()
    ensures var value := seq(400, _ => 'x');
            Parse(Printed("PUT", "k", value), 63, 399) == Command("PUT", "k", value[..399])
  {
    hide Parse;
    var value := seq(400, _ => 'x');
    assert IsWord("PUT", 63) && IsWord("k", 63);
    ParsePrinted("PUT", "k", value, 63, 399);
    SkipNothing(value);
    assert Text(value, 399) == value[..399];
  }

  /** A store request that fits is what the server reads off the connection. */
  lemma RequestArrives(key: string, value: string, rest: string, faulty: bool)
    requires IsWord(key, 63) && IsText(value, 399) && value != ""
    requires '\0' !in key && '\0' !in value && value[|value| - 1] != '\r'
    ensures var (first, left) := ReceiveLine(SendForm(Printed("PUT", key, value), MAX_LINE) + rest, faulty, MAX_LINE);
            first.Line? && Parse(first.text, 63, 399) == Command("PUT", key, value) && left == rest
  {
    hide Parse, ReceiveLine;
    var msg := Printed("PUT", key, value);
    assert IsWord("PUT", 63);
    ParseExactly("PUT", key, value, 63, 399);
    PrintedFramable(key, value);
    FramingExactly(msg, rest, faulty, MAX_LINE);
  }

  lemma PrintedFramable(key: string, value: string)
    requires IsWord(key, 63) && IsText(value, 399) && value != ""
    requires '\0' !in key && '\0' !in value && value[|value| - 1] != '\r'
    ensures Framable(Printed("PUT", key, value), MAX_LINE)
  {
    var msg := Printed("PUT", key, value);
    assert msg[|msg| - 1] == value[|value| - 1];
    forall j | 0 <= j < |msg| ensures msg[j] != '\n' && msg[j] != '\0' {
      if 4 <= j < 4 + |key| {
        assert msg[j] == key[j - 4];
        assert !IsSpace(key[j - 4]);
      } else if j >= 5 + |key| {
        assert msg[j] == value[j - 5 - |key|];
      }
    }
  }

  // ----- The connection in place -----

  /** One end of a connection: all the input there will be, whether it ends in an error, how
      much of it was read, and everything sent. */
  class Connection {
    const input: string
    const faulty: bool
    var pos: nat
    var sent: string

    constructor (input: string, faulty: bool)
      ensures this.input == input && this.faulty == faulty && pos == 0 && sent == ""
    {
      this.input, this.faulty, pos, sent := input, faulty, 0, "";
    }

    ghost predicate Valid()
      reads this
    {
      pos <= |input|
    }

    ghost function Left(): string
      requires Valid()
      reads this
    {
      input[pos..]
    }

    /** One character, if there is one: status 1, or 0 at the end, or -1 on an error. */
    method Recv() returns (status: int, c: char)
      requires Valid()
      modifies this`pos
      ensures Valid()
      ensures if old(Left()) != "" then status == 1 && [c] + Left() == old(Left())
              else status == (if faulty then -1 else 0) && Left() == ""
    {
      c := ' ';
      if pos < |input| {
        status, c := 1, input[pos];
        pos := pos + 1;
      } else {
        status := if faulty then -1 else 0;
      }
    }

    /** Prints the message and a newline into a buffer of MAX_LINE + 2 characters, as far as it
        goes, and sends the C string that is then in the buffer. */
    method SendLine(msg: string)
      modifies this`sent
      ensures sent == old(sent) + SendForm(msg, MAX_LINE)
    {
      var buf := new char[MAX_LINE + 2](_ => '\0');
      var end := PrintLine(buf, msg);
      ghost var form := SendForm(msg, MAX_LINE);
      FormText(msg);
      assert forall j :: 0 <= j < end ==> buf[j] == form[j] && form[j] != '\0';
      var i := 0;
      while i < buf.Length && buf[i] != '\0'
        invariant 0 <= i <= end == |form| < buf.Length && buf[end] == '\0'
        invariant forall j :: 0 <= j < end ==> buf[j] == form[j] && form[j] != '\0'
        invariant sent == old(sent) + form[..i]
      {
        assert form[..i + 1] == form[..i] + [form[i]];
        sent := sent + [buf[i]];
        i := i + 1;
      }
      assert form[..|form|] == form;
    }

    /** Reads up to a newline into the buffer, which then holds the line as a C string. */
    method RecvLine(outLine: array<char>) returns (n: int)
      requires Valid() && outLine.Length >= 1
      modifies this`pos, outLine
      ensures Valid()
      ensures var (status, raw, rest) := Receive(old(Left()), faulty, outLine.Length);
              && n == status && Left() == rest
              && (n > 0 ==> CText(outLine[..]) == CText(DropReturn(raw)))
    {
      hide IndexOf, Receive, CText, DropReturn;
      ghost var start := Left();
      var p := 0;
      while p < outLine.Length - 1
        invariant Valid() && 0 <= p < outLine.Length && p <= |start|
        invariant '\n' !in start[..p] && outLine[..p] == start[..p] && Left() == start[p..]
      {
        var status, c := Recv();
        if status != 1 {
          InputEnds(start, faulty, outLine.Length, p);
          return status;
        }
        assert start[p..][0] == c && start[p..][1..] == start[p + 1..];
        if c == '\n' {
          LineEnds(start, faulty, outLine.Length, p);
          Terminate(outLine, p);
          return p;
        }
        outLine[p] := c;
        p := p + 1;
      }
      BufferFull(start, faulty, outLine.Length);
      return -1;
    }
  }

  /** Copies the message up to its NUL and a newline into the buffer, never past its last place,
      and puts a NUL there. */
  method PrintLine(buf: array<char>, msg: string) returns (end: nat)
    requires buf.Length >= 1
    modifies buf
    ensures end < buf.Length && buf[end] == '\0'
    ensures var whole := CText(msg) + "\n";
            buf[..end] == if |whole| < buf.Length then whole else whole[..buf.Length - 1]
  {
    hide CText;
    ghost var whole := CText(msg) + "\n";
    end := 0;
    while end < buf.Length - 1 && end < |msg| && msg[end] != '\0'
      invariant 0 <= end <= |msg| && end < buf.Length && buf[..end] == msg[..end] && '\0' !in msg[..end]
    {
      buf[end] := msg[end];
      end := end + 1;
    }
    TextSoFar(msg, end);
    if end < buf.Length - 1 {
      buf[end] := '\n';
      end := end + 1;
      assert buf[..end] == whole;
    }
    buf[end] := '\0';
  }

  /** A string without NUL up to n reads on from there. */
  lemma TextSoFar(msg: string, n: nat)
    requires n <= |msg| && '\0' !in msg[..n]
    ensures n <= |CText(msg)| && CText(msg)[..n] == msg[..n]
    ensures n == |msg| || msg[n] == '\0' ==> CText(msg) == msg[..n]
  {
    assert forall j :: 0 <= j < n ==> msg[j] == msg[..n][j] && msg[j] != '\0';
  }

  lemma FormText(msg: string)
    ensures '\0' !in SendForm(msg, MAX_LINE)
  {
    hide CText;
  }

  lemma InputEnds(input: string, faulty: bool, max: nat, p: nat)
    requires max >= 1 && p == |input| < max - 1 && '\n' !in input[..p]
    ensures Receive(input, faulty, max) == (if faulty then -1 else 0, "", "")
  {
    assert input[..p] == input;
  }

  lemma LineEnds(input: string, faulty: bool, max: nat, p: nat)
    requires p < |input| && p < max - 1 && '\n' !in input[..p] && input[p] == '\n'
    ensures Receive(input, faulty, max) == (p as int, input[..p], input[p + 1..])
  {
    IndexOfFirst(input[..p], '\n', input[p + 1..]);
    assert input == input[..p] + ['\n'] + input[p + 1..];
  }

  lemma BufferFull(input: string, faulty: bool, max: nat)
    requires max >= 1 && max - 1 <= |input| && '\n' !in input[..max - 1]
    ensures Receive(input, faulty, max) == (-1, "", input[max - 1..])
  {
    var e := IndexOf(input, '\n');
    assert forall j :: 0 <= j < max - 1 ==> input[j] == input[..max - 1][j];
  }

  /** Ends the line at p, and drops a carriage return before the end. */
  method Terminate(outLine: array<char>, p: nat)
    requires p < outLine.Length
    modifies outLine
    ensures CText(outLine[..]) == CText(DropReturn(old(outLine[..p])))
  {
    hide CText;
    ghost var raw := outLine[..p];
    outLine[p] := '\0';
    if p > 0 && outLine[p - 1] == '\r' {
      outLine[p - 1] := '\0';
    }
    TextInBuffer(outLine[..], raw);
  }

  /** The buffer with a NUL after the line, or in place of its final carriage return. */
  lemma TextInBuffer(buffer: string, raw: string)
    requires |raw| < |buffer| && buffer[|DropReturn(raw)|] == '\0'
    requires forall i :: 0 <= i < |DropReturn(raw)| ==> buffer[i] == raw[i]
    ensures CText(buffer) == CText(DropReturn(raw))
  {
    var s := DropReturn(raw);
    var i, j := IndexOf(buffer, '\0'), IndexOf(s, '\0');
    assert forall x :: 0 <= x < |s| ==> buffer[x] == s[x];
    assert i == j;
  }

  // ----- Tokens -----

  predicate Control(c: char) {
    c as int < 32 || c as int == 127
  }

  predicate ValidToken(s: string, max: nat) {
    1 <= |s| <= max && forall i :: 0 <= i < |s| ==> !Control(s[i])
  }

  method IsValidToken(s: string, max: nat) returns (ok: bool)
    ensures ok <==> 1 <= |s| <= max && forall i :: 0 <= i < |s| ==> 32 <= s[i] as int && s[i] as int != 127
    ensures ok == ValidToken(s, max)
  {
    if |s| == 0 || |s| > max {
      return false;
    }
    for i := 0 to |s|
      invariant forall j :: 0 <= j < i ==> !Control(s[j])
    {
      if s[i] as int < 32 || s[i] as int == 127 {
        return false;
      }
    }
    return true;
  }
}
