/** What goes over a connection of the server, in characters: the lines it sends, how it reads any
    line, and the commands it reads however they are spaced. */
module WireLaws {
  import opened Wire

  // ----- Lines -----

  /** A message goes out with a newline after it, and no more than 513 characters of that. */
  lemma SentText(msg: string)
    requires '\0' !in msg
    ensures SendForm(msg, MAX_LINE) == if |msg| <= 512 then msg + "\n" else msg[..513]
  {
    NoIndex(msg, '\0');
    assert |msg| > 512 ==> (msg + "\n")[..513] == msg[..513];
  }

  /** So the server reads the message that was sent exactly when it has 1 to 510 characters, no
      newline and no NUL, and no carriage return at its end. */
  lemma ServerFraming(msg: string, rest: string, faulty: bool)
    ensures ReceiveLine(SendForm(msg, MAX_LINE) + rest, faulty, MAX_LINE).0 == Line(msg) <==>
              1 <= |msg| <= 510 && '\n' !in msg && '\0' !in msg && msg[|msg| - 1] != '\r'
  {
    hide ReceiveLine;
    FramingExactly(msg, rest, faulty, MAX_LINE);
  }

  /** A line that ends in a carriage return and a newline reads as what precedes both, exactly when
      that has at most 509 characters; an empty one, unlike an empty line without the carriage
      return, does not end the session. */
  lemma ReturnAndNewline(msg: string, rest: string, faulty: bool)
    requires '\n' !in msg && '\0' !in msg
    ensures var received := ReceiveLine(msg + "\r\n" + rest, faulty, MAX_LINE);
            && (received.0 == Line(msg) <==> |msg| <= 509)
            && (|msg| <= 509 ==> received.1 == rest)
            && (|msg| > 509 ==> received.0 == Violation)
  {
    hide IndexOf;
    var raw, input := msg + "\r", msg + "\r\n" + rest;
    assert input == raw + ['\n'] + rest;
    IndexOfFirst(raw, '\n', rest);
    assert input[..|raw|] == raw && input[|raw| + 1..] == rest;
    assert DropReturn(raw) == msg by { assert raw[|msg|] == '\r' && raw[..|msg|] == msg; }
    WholeText(msg);
  }

  /** Input that goes on for 511 characters without a newline is an error, and those characters
      are gone; input that ends before is the end of the connection. */
  lemma NoNewline(input: string, faulty: bool)
    requires |input| >= 511 ==> '\n' !in input[..511]
    requires |input| < 511 ==> '\n' !in input
    ensures ReceiveLine(input, faulty, MAX_LINE) ==
              if |input| >= 511 then (Violation, input[511..])
              else if faulty then (Violation, "")
              else (Closed, "")
  {
    var e := IndexOf(input, '\n');
    assert |input| >= 511 ==> forall j :: 0 <= j < 511 ==> input[j] == input[..511][j];
  }

  // ----- Commands -----

  /** The characters that separate words: the space, and the tab, newline, vertical tab, form feed
      and carriage return, characters 9 to 13. */
  lemma Separators(c: char)
    ensures IsSpace(c) <==> c as int in {9, 10, 11, 12, 13, 32}
  {
  }

  predicate Spaces(s: string) {
    forall i :: 0 <= i < |s| ==> IsSpace(s[i])
  }

  lemma SpacesSkipped(spaces: string, s: string)
    requires Spaces(spaces) && (s == "" || !IsSpace(s[0]))
    ensures SkipSpaces(spaces + s) == s
  {
    hide IsSpace;
    var t, r := spaces + s, SkipSpaces(spaces + s);
    assert forall i :: 0 <= i < |spaces| ==> IsSpace(t[i]);
    assert r != "" ==> r[0] == t[|t| - |r|];
    assert s != "" ==> t[|spaces|] == s[0];
    assert t[|spaces|..] == s;
  }

  lemma WordRead(s: string, rest: string, word: nat)
    requires IsWord(s, word) && (rest == "" || IsSpace(rest[0]))
    ensures Word(s + rest, word) == s && (s + rest)[|s|..] == rest
  {
    if rest == "" {
      assert s + rest == s;
      OnlyWord(s, word);
    } else {
      WordEnds(s, rest, word);
    }
  }

  /** A command reads the same with any separators before it and between its words. */
  lemma ParseSpaced(a: string, cmd: string, b: string, key: string, c: string, value: string, word: nat, text: nat)
    requires Spaces(a) && Spaces(b) && Spaces(c) && b != "" && c != ""
    requires IsWord(cmd, word) && IsWord(key, word) && IsText(value, text)
    ensures Parse(a + (cmd + (b + (key + (c + value)))), word, text) == Command(cmd, key, value)
  {
    hide IsSpace, SkipSpaces, Word, Text;
    var s1, s2 := cmd + (b + (key + (c + value))), key + (c + value);
    assert s1[0] == cmd[0] && s2[0] == key[0] && (b + s2)[0] == b[0] && (c + value)[0] == c[0];
    SpacesSkipped(a, s1);
    WordRead(cmd, b + s2, word);
    SpacesSkipped(b, s2);
    WordRead(key, c + value, word);
    SpacesSkipped(c, value);
    TextWhole(value, text);
  }
}
