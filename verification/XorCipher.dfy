/** The XOR stream cipher keyed by the hash of a passphrase, and hexadecimal text. */
module XorCipher {
  import opened Bytes
  import opened Options
  import Sha256Spec
  import Sha256

  /** The bytes XORed with the repeating key, from key position start. */
  function XorFrom(bytes: seq<Byte>, key: seq<Byte>, start: nat): (r: seq<Byte>)
    requires key != []
    ensures |r| == |bytes|
  {
    seq(|bytes|, i requires 0 <= i < |bytes| => XorByte(bytes[i], key[(start + i) % |key|]))
  }

  function Xor(bytes: seq<Byte>, key: seq<Byte>): (r: seq<Byte>)
    requires key != []
    ensures |r| == |bytes|
  {
    XorFrom(bytes, key, 0)
  }

  function XorByte(a: Byte, b: Byte): Byte {
    a ^ b
  }

  lemma XorByteTwice(a: Byte, b: Byte)
    ensures XorByte(XorByte(a, b), b) == a
  {
  }

  lemma XorByteCancels(a: Byte, b: Byte, c: Byte)
    requires XorByte(a, b) == XorByte(a, c)
    ensures b == c
  {
  }

  /** The cipher undoes itself. */
  lemma XorTwice(bytes: seq<Byte>, key: seq<Byte>)
    requires key != []
    ensures Xor(Xor(bytes, key), key) == bytes
  {
    hide XorByte;
    forall i | 0 <= i < |bytes| ensures Xor(Xor(bytes, key), key)[i] == bytes[i] {
      XorByteTwice(bytes[i], key[i % |key|]);
    }
  }

  /** Zero bytes are ciphered to the key, repeated. */
  lemma XorOfZeros(n: nat, key: seq<Byte>, i: nat)
    requires key != [] && i < n
    ensures Xor(Zeros(n), key)[i] == key[i % |key|]
  {
    hide XorByte;
    ZeroShows(key[i % |key|]);
  }

  lemma ZeroShows(k: Byte)
    ensures XorByte(0, k) == k
  {
  }

  /** Text and ciphertext differ in the bits of the key, repeated. */
  lemma XorShowsKey(bytes: seq<Byte>, key: seq<Byte>, i: nat)
    requires key != [] && i < |bytes|
    ensures Xor(bytes, key)[i] ^ bytes[i] == key[i % |key|]
  {
    hide XorByte;
    ByteShows(bytes[i], key[i % |key|]);
  }

  lemma ByteShows(b: Byte, k: Byte)
    ensures XorByte(b, k) ^ b == k
  {
  }

  /** Ciphering a prefix gives a prefix of the ciphertext. */
  lemma XorPrefix(bytes: seq<Byte>, key: seq<Byte>, n: nat)
    requires key != [] && n <= |bytes|
    ensures Xor(bytes[..n], key) == Xor(bytes, key)[..n]
  {
    hide XorByte;
  }

  /** Ciphering goes on through a concatenation at the key position reached. */
  lemma XorConcat(a: seq<Byte>, b: seq<Byte>, key: seq<Byte>)
    requires key != []
    ensures Xor(a + b, key) == Xor(a, key) + XorFrom(b, key, |a|)
  {
    hide XorByte;
    var whole, parts := Xor(a + b, key), Xor(a, key) + XorFrom(b, key, |a|);
    forall i | 0 <= i < |whole| ensures whole[i] == parts[i] {
      if i >= |a| {
        assert parts[i] == XorFrom(b, key, |a|)[i - |a|];
      }
    }
  }

  /** The key read from position start agrees with the key read from its beginning. */
  ghost predicate KeyRepeats(key: seq<Byte>, start: nat, n: nat)
    requires key != []
  {
    forall i :: 0 <= i < n ==> KeyAt(key, start + i) == KeyAt(key, i)
  }

  function KeyAt(key: seq<Byte>, i: nat): Byte
    requires key != []
  {
    key[i % |key|]
  }

  /** Ciphering two pieces apart, each from the beginning of the key, is ciphering them together
      exactly when the key repeats at the joint. */
  lemma JoinExactly(a: seq<Byte>, b: seq<Byte>, key: seq<Byte>)
    requires key != []
    ensures Xor(a, key) + Xor(b, key) == Xor(a + b, key) <==> KeyRepeats(key, |a|, |b|)
  {
    hide Xor, XorFrom, KeyRepeats;
    XorConcat(a, b, key);
    RestartExactly(b, key, |a|);
    SameTail(Xor(a, key), Xor(b, key), XorFrom(b, key, |a|));
  }

  lemma SameTail(front: seq<Byte>, x: seq<Byte>, y: seq<Byte>)
    ensures front + x == front + y <==> x == y
  {
    assert (front + x)[|front|..] == x && (front + y)[|front|..] == y;
  }

  lemma RestartExactly(b: seq<Byte>, key: seq<Byte>, start: nat)
    requires key != []
    ensures Xor(b, key) == XorFrom(b, key, start) <==> KeyRepeats(key, start, |b|)
  {
    hide XorByte;
    var apart, onward := Xor(b, key), XorFrom(b, key, start);
    if apart == onward {
      forall i | 0 <= i < |b| ensures KeyAt(key, start + i) == KeyAt(key, i) {
        assert apart[i] == onward[i];
        XorByteCancels(b[i], KeyAt(key, i), KeyAt(key, start + i));
      }
    }
    if KeyRepeats(key, start, |b|) {
      forall i | 0 <= i < |b| ensures apart[i] == onward[i] {
        assert KeyAt(key, start + i) == KeyAt(key, i);
      }
    }
  }

  // ----- The cipher under a passphrase that may be missing -----

  /** Byte i of what is XORed in: nothing without a passphrase. */
  function StreamByte(passphrase: Option<seq<Byte>>, i: nat): Byte {
    match passphrase
    case None => 0
    case Some(p) => KeyAt(Sha256Spec.Sha256(p), i)
  }

  function Ciphered(bytes: seq<Byte>, passphrase: Option<seq<Byte>>): (r: seq<Byte>)
    ensures |r| == |bytes|
  {
    match passphrase
    case None => bytes
    case Some(p) => Xor(bytes, Sha256Spec.Sha256(p))
  }

  lemma CipheredAt(bytes: seq<Byte>, passphrase: Option<seq<Byte>>, i: nat)
    requires i < |bytes|
    ensures Ciphered(bytes, passphrase)[i] == XorByte(bytes[i], StreamByte(passphrase, i))
  {
    hide Sha256Spec.Sha256;
    XorNothing(bytes[i]);
    hide XorByte;
  }

  lemma XorNothing(b: Byte)
    ensures XorByte(b, 0) == b
  {
  }

  /** For n bytes the passphrase gives what the key gives from position start. */
  ghost predicate StreamFits(key: seq<Byte>, start: nat, passphrase: Option<seq<Byte>>, n: nat)
    requires key != []
  {
    forall i :: 0 <= i < n ==> KeyAt(key, start + i) == StreamByte(passphrase, i)
  }

  /** Bytes ciphered with a passphrase are ciphered with the key exactly when the two give the same
      for as many bytes. */
  lemma CipheredExactly(bytes: seq<Byte>, key: seq<Byte>, start: nat, passphrase: Option<seq<Byte>>)
    requires key != []
    ensures Ciphered(bytes, passphrase) == XorFrom(bytes, key, start)
       <==> StreamFits(key, start, passphrase, |bytes|)
  {
    hide XorByte, StreamByte, Ciphered;
    var given, wanted := Ciphered(bytes, passphrase), XorFrom(bytes, key, start);
    forall i | 0 <= i < |bytes|
      ensures given[i] == wanted[i] <==> KeyAt(key, start + i) == StreamByte(passphrase, i)
    {
      CipheredAt(bytes, passphrase, i);
      if given[i] == wanted[i] {
        XorByteCancels(bytes[i], KeyAt(key, start + i), StreamByte(passphrase, i));
      }
    }
    if given == wanted {
      forall i | 0 <= i < |bytes| ensures KeyAt(key, start + i) == StreamByte(passphrase, i) {
        assert given[i] == wanted[i];
      }
    }
  }

  /** Bytes ciphered with the key are restored by a passphrase exactly when the two give the same. */
  lemma RestoredExactly(bytes: seq<Byte>, key: seq<Byte>, passphrase: Option<seq<Byte>>)
    requires key != []
    ensures Ciphered(Xor(bytes, key), passphrase) == bytes <==> StreamFits(key, 0, passphrase, |bytes|)
  {
    hide XorByte, StreamByte, Ciphered;
    var back := Ciphered(Xor(bytes, key), passphrase);
    forall i | 0 <= i < |bytes|
      ensures back[i] == bytes[i] <==> KeyAt(key, 0 + i) == StreamByte(passphrase, i)
    {
      CipheredAt(Xor(bytes, key), passphrase, i);
      XorByteBack(bytes[i], KeyAt(key, i), StreamByte(passphrase, i));
    }
    if back == bytes {
      forall i | 0 <= i < |bytes| ensures KeyAt(key, 0 + i) == StreamByte(passphrase, i) {
        assert back[i] == bytes[i];
      }
    }
  }

  lemma XorByteBack(b: Byte, k: Byte, l: Byte)
    ensures XorByte(XorByte(b, k), l) == b <==> k == l
  {
    hide XorByte;
    XorByteTwice(b, k);
    if XorByte(XorByte(b, k), l) == b {
      XorByteCancels(XorByte(b, k), k, l);
    }
  }

  /** No key makes an aligned joint fail, and an unaligned one fails for some key. */
  lemma JoinForEveryKey(a: seq<Byte>, b: seq<Byte>)
    ensures (forall key: seq<Byte> :: |key| == 32 ==> Xor(a, key) + Xor(b, key) == Xor(a + b, key))
       <==> (|a| % 32 == 0 || b == [])
  {
    if |a| % 32 == 0 || b == [] {
      forall key: seq<Byte> | |key| == 32 ensures Xor(a, key) + Xor(b, key) == Xor(a + b, key) {
        AlignedRepeats(key, |a|, |b|);
        JoinExactly(a, b, key);
      }
    } else {
      var key: seq<Byte> := [1] + Zeros(31);
      JoinExactly(a, b, key);
      assert KeyAt(key, |a| + 0) != KeyAt(key, 0);
    }
  }

  lemma AlignedRepeats(key: seq<Byte>, start: nat, n: nat)
    requires |key| == 32 && (start % 32 == 0 || n == 0)
    ensures KeyRepeats(key, start, n)
  {
  }

  /** Ciphers the first len bytes of the buffer in place. */
  method XorInPlace(buffer: array<Byte>, len: nat, passphrase: seq<Byte>)
    requires len <= buffer.Length
    modifies buffer
    ensures buffer[..len] == Xor(old(buffer[..len]), Sha256Spec.Sha256(passphrase))
    ensures buffer[len..] == old(buffer[len..])
  {
    hide XorByte, Sha256Spec.Sha256;
    var key := new Byte[32](_ => 0);
    Sha256.Hash(passphrase, key);
    for i := 0 to len
      invariant key[..] == Sha256Spec.Sha256(passphrase)
      invariant forall j :: i <= j < buffer.Length ==> buffer[j] == old(buffer[j])
      invariant forall j :: 0 <= j < i ==> buffer[j] == XorByte(old(buffer[j]), key[j % 32])
    {
      buffer[i] := XorByte(buffer[i], key[i % 32]);
    }
  }

  // ----- Hexadecimal text -----

  function HexDigit(n: Byte): char
    requires n < 16
  {
    "0123456789abcdef"[n as int]
  }

  function HighNibble(b: Byte): (n: Byte)
    ensures n < 16
  {
    b >> 4
  }

  function LowNibble(b: Byte): (n: Byte)
    ensures n < 16
  {
    b & 0xf
  }

  /** The two digits of a byte. */
  function Digits(b: Byte): (text: string)
    ensures |text| == 2
  {
    [HexDigit(HighNibble(b)), HexDigit(LowNibble(b))]
  }

  function Hex(bytes: seq<Byte>): (text: string)
    ensures |text| == 2 * |bytes|
  {
    if bytes == [] then ""
    else
      var n := |bytes| - 1;
      Hex(bytes[..n]) + Digits(bytes[n])
  }

  function DigitValue(c: char): Byte {
    if c == '0' then 0 else if c == '1' then 1 else if c == '2' then 2 else if c == '3' then 3
    else if c == '4' then 4 else if c == '5' then 5 else if c == '6' then 6 else if c == '7' then 7
    else if c == '8' then 8 else if c == '9' then 9 else if c == 'a' then 10 else if c == 'b' then 11
    else if c == 'c' then 12 else if c == 'd' then 13 else if c == 'e' then 14 else 15
  }

  /** The bytes a text of digit pairs stands for. */
  function Unhex(text: string): seq<Byte> {
    if |text| < 2 then []
    else
      var n := |text| - 2;
      Unhex(text[..n]) + [Join(DigitValue(text[n]), DigitValue(text[n + 1]))]
  }

  function Join(high: Byte, low: Byte): Byte {
    (high << 4) | low
  }

  lemma JoinNibbles(b: Byte)
    ensures Join(HighNibble(b), LowNibble(b)) == b
  {
  }

  lemma DigitRoundTrip(n: Byte)
    requires n < 16
    ensures DigitValue(HexDigit(n)) == n
  {
    assert n == 0 || n == 1 || n == 2 || n == 3 || n == 4 || n == 5 || n == 6 || n == 7
        || n == 8 || n == 9 || n == 10 || n == 11 || n == 12 || n == 13 || n == 14 || n == 15;
  }

  /** The bytes are read back from their text, so different bytes have different texts. */
  lemma {:induction false} UnhexHex(bytes: seq<Byte>)
    ensures Unhex(Hex(bytes)) == bytes
  {
    hide Unhex, Hex, Digits;
    if bytes == [] {
      HexNothing();
    } else {
      var n := |bytes| - 1;
      UnhexHex(bytes[..n]);
      HexNext(bytes[..n], bytes[n]);
      UnhexNext(Hex(bytes[..n]), bytes[n]);
      assert bytes == bytes[..n] + [bytes[n]];
    }
  }

  lemma UnhexNext(text: string, b: Byte)
    ensures Unhex(text + Digits(b)) == Unhex(text) + [b]
  {
    hide DigitValue, HexDigit, Join, HighNibble, LowNibble;
    assert (text + Digits(b))[..|text|] == text;
    DigitRoundTrip(HighNibble(b));
    DigitRoundTrip(LowNibble(b));
    JoinNibbles(b);
  }

  lemma HexNext(bytes: seq<Byte>, b: Byte)
    ensures Hex(bytes + [b]) == Hex(bytes) + Digits(b)
  {
    hide Digits;
    assert (bytes + [b])[..|bytes|] == bytes;
  }

  lemma HexNothing()
    ensures Hex([]) == "" && Unhex("") == []
  {
  }

  /** Eight bytes that need every digit. */
  lemma HexExample()
    ensures Hex([0x01, 0x23, 0x45, 0x67, 0x89, 0xab, 0xcd, 0xef]) == "0123456789abcdef"
  {
    var two: seq<Byte>, four: seq<Byte>, six: seq<Byte> :=
      [0x01, 0x23], [0x01, 0x23, 0x45, 0x67], [0x01, 0x23, 0x45, 0x67, 0x89, 0xab];
    HexNothing();
    assert Digits(0x01) + Digits(0x23) == "0123" && Digits(0x45) + Digits(0x67) == "4567";
    assert Digits(0x89) + Digits(0xab) == "89ab" && Digits(0xcd) + Digits(0xef) == "cdef";
    hide Hex, Digits;
    HexPair([], 0x01, 0x23, "0123");
    HexPair(two, 0x45, 0x67, "4567");
    HexPair(four, 0x89, 0xab, "89ab");
    HexPair(six, 0xcd, 0xef, "cdef");
    assert [] + two == two && two + [0x45, 0x67] == four && four + [0x89, 0xab] == six;
    assert six + [0xcd, 0xef] == [0x01, 0x23, 0x45, 0x67, 0x89, 0xab, 0xcd, 0xef];
    assert "" + "0123" + "4567" + "89ab" + "cdef" == "0123456789abcdef";
  }

  lemma HexPair(bytes: seq<Byte>, b: Byte, c: Byte, text: string)
    requires Digits(b) + Digits(c) == text
    ensures Hex(bytes + [b, c]) == Hex(bytes) + text
  {
    hide Digits, Hex;
    HexNext(bytes, b);
    HexNext(bytes + [b], c);
    assert bytes + [b] + [c] == bytes + [b, c];
  }

  /** Writes the digits of all bytes and a terminating NUL. */
  method BytesToHex(bytes: seq<Byte>, outHex: array<char>)
    requires 2 * |bytes| < outHex.Length
    modifies outHex
    ensures outHex[..2 * |bytes|] == Hex(bytes) && outHex[2 * |bytes|] == '\0'
    ensures outHex[2 * |bytes| + 1..] == old(outHex[2 * |bytes| + 1..])
  {
    hide HexDigit, HighNibble, LowNibble, Hex;
    HexNothing();
    assert bytes[..0] == [];
    for i := 0 to |bytes|
      invariant outHex[..2 * i] == Hex(bytes[..i])
      invariant forall j :: 2 * i <= j < outHex.Length ==> outHex[j] == old(outHex[j])
    {
      var p, b := 2 * i, bytes[i];
      var high, low := HexDigit(HighNibble(b)), HexDigit(LowNibble(b));
      ghost var before := outHex[..p];
      HexNext(bytes[..i], b);
      assert bytes[..i + 1] == bytes[..i] + [b];
      outHex[p], outHex[p + 1] := high, low;
      assert outHex[..p + 2] == before + Digits(b);
    }
    assert bytes[..|bytes|] == bytes;
    outHex[2 * |bytes|] := '\0';
  }
}
