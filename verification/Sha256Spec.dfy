/** The hash of FIPS 180-4 as functions: padding, compression and digest of a whole message. */
module Sha256Spec {
  import opened Bytes

  type Word = bv32

  /** Eight words in a row. */
  datatype Row = Row(w0: Word, w1: Word, w2: Word, w3: Word, w4: Word, w5: Word, w6: Word, w7: Word)

  function Part(r: Row, j: nat): Word {
    if j == 0 then r.w0 else if j == 1 then r.w1 else if j == 2 then r.w2 else if j == 3 then r.w3
    else if j == 4 then r.w4 else if j == 5 then r.w5 else if j == 6 then r.w6 else r.w7
  }

  /** The constants of section 4.2.2 of FIPS 180-4, eight in a row. */
  function K(row: nat): Row {
    if row == 0 then Row(0x428a2f98, 0x71374491, 0xb5c0fbcf, 0xe9b5dba5, 0x3956c25b, 0x59f111f1, 0x923f82a4, 0xab1c5ed5)
    else if row == 1 then Row(0xd807aa98, 0x12835b01, 0x243185be, 0x550c7dc3, 0x72be5d74, 0x80deb1fe, 0x9bdc06a7, 0xc19bf174)
    else if row == 2 then Row(0xe49b69c1, 0xefbe4786, 0x0fc19dc6, 0x240ca1cc, 0x2de92c6f, 0x4a7484aa, 0x5cb0a9dc, 0x76f988da)
    else if row == 3 then Row(0x983e5152, 0xa831c66d, 0xb00327c8, 0xbf597fc7, 0xc6e00bf3, 0xd5a79147, 0x06ca6351, 0x14292967)
    else if row == 4 then Row(0x27b70a85, 0x2e1b2138, 0x4d2c6dfc, 0x53380d13, 0x650a7354, 0x766a0abb, 0x81c2c92e, 0x92722c85)
    else if row == 5 then Row(0xa2bfe8a1, 0xa81a664b, 0xc24b8b70, 0xc76c51a3, 0xd192e819, 0xd6990624, 0xf40e3585, 0x106aa070)
    else if row == 6 then Row(0x19a4c116, 0x1e376c08, 0x2748774c, 0x34b0bcb5, 0x391c0cb3, 0x4ed8aa4a, 0x5b9cca4f, 0x682e6ff3)
    else Row(0x748f82ee, 0x78a5636f, 0x84c87814, 0x8cc70208, 0x90befffa, 0xa4506ceb, 0xbef9a3f7, 0xc67178f2)
  }

  /** Section 5.3.3 of FIPS 180-4. */
  const INITIAL: seq<Word> := [
    0x6a09e667, 0xbb67ae85, 0x3c6ef372, 0xa54ff53a, 0x510e527f, 0x9b05688c, 0x1f83d9ab, 0x5be0cd19
  ]

  // ----- Sections 2.2.2 and 4.1.2 of FIPS 180-4: functions on words -----

  /** Addition modulo 2^32, of two, four and five words. */
  function Add(x: Word, y: Word): Word {
    x + y
  }

  function AddFour(p: Word, q: Word, r: Word, s: Word): Word {
    p + q + r + s
  }

  function AddFive(p: Word, q: Word, r: Word, s: Word, t: Word): Word {
    p + q + r + s + t
  }

  function Ch(x: Word, y: Word, z: Word): Word {
    (x & y) ^ (!x & z)
  }

  function Maj(x: Word, y: Word, z: Word): Word {
    (x & y) ^ (x & z) ^ (y & z)
  }

  function BigSigma0(x: Word): Word {
    x.RotateRight(2) ^ x.RotateRight(13) ^ x.RotateRight(22)
  }

  function BigSigma1(x: Word): Word {
    x.RotateRight(6) ^ x.RotateRight(11) ^ x.RotateRight(25)
  }

  function SmallSigma0(x: Word): Word {
    x.RotateRight(7) ^ x.RotateRight(18) ^ (x >> 3)
  }

  function SmallSigma1(x: Word): Word {
    x.RotateRight(17) ^ x.RotateRight(19) ^ (x >> 10)
  }

  // ----- Section 6.2.2 of FIPS 180-4: one block -----

  /** Four bytes as a word, first byte most significant. */
  function WordOf(a: Byte, b: Byte, c: Byte, d: Byte): Word {
    (a as Word * 0x1000000) + (b as Word * 0x10000) + (c as Word * 0x100) + d as Word
  }

  /** Word number |w| of the message schedule, from the words w before it. */
  function NextWord(block: seq<Byte>, w: seq<Word>): Word
    requires |block| == 64 && |w| < 64
  {
    var t := |w|;
    if t < 16 then WordOf(block[4 * t], block[4 * t + 1], block[4 * t + 2], block[4 * t + 3])
    else AddFour(SmallSigma1(w[t - 2]), w[t - 7], SmallSigma0(w[t - 15]), w[t - 16])
  }

  /** The first t words of the message schedule. */
  function Schedule(block: seq<Byte>, t: nat): (w: seq<Word>)
    requires |block| == 64 && t <= 64
    ensures |w| == t
  {
    if t == 0 then []
    else
      var w := Schedule(block, t - 1);
      w + [NextWord(block, w)]
  }

  /** The eight working variables. */
  datatype Vars = Vars(a: Word, b: Word, c: Word, d: Word, e: Word, f: Word, g: Word, h: Word)

  function Round(v: Vars, k: Word, w: Word): Vars {
    var t1 := AddFive(v.h, BigSigma1(v.e), Ch(v.e, v.f, v.g), k, w);
    var t2 := Add(BigSigma0(v.a), Maj(v.a, v.b, v.c));
    Vars(Add(t1, t2), v.a, v.b, v.c, Add(v.d, t1), v.e, v.f, v.g)
  }

  function RoundConstant(t: nat): Word
    requires t < 64
  {
    Part(K(t / 8), t % 8)
  }

  /** The working variables after t rounds. */
  function Rounds(v: Vars, w: seq<Word>, t: nat): Vars
    requires t <= |w| == 64
  {
    if t == 0 then v else Round(Rounds(v, w, t - 1), RoundConstant(t - 1), w[t - 1])
  }

  function VarsOf(h: seq<Word>): Vars
    requires |h| == 8
  {
    Vars(h[0], h[1], h[2], h[3], h[4], h[5], h[6], h[7])
  }

  function AddVars(h: seq<Word>, v: Vars): (r: seq<Word>)
    requires |h| == 8
    ensures |r| == 8
  {
    [Add(h[0], v.a), Add(h[1], v.b), Add(h[2], v.c), Add(h[3], v.d),
     Add(h[4], v.e), Add(h[5], v.f), Add(h[6], v.g), Add(h[7], v.h)]
  }

  function Compress(h: seq<Word>, block: seq<Byte>): (r: seq<Word>)
    requires |h| == 8 && |block| == 64
    ensures |r| == 8
  {
    var w := Schedule(block, 64);
    AddVars(h, Rounds(VarsOf(h), w, |w|))
  }

  // ----- Sections 5.2.1 and 6.2: all blocks -----

  function HashBlocks(h: seq<Word>, bytes: seq<Byte>): (r: seq<Word>)
    requires |h| == 8 && |bytes| % 64 == 0
    ensures |r| == 8
  {
    if bytes == [] then h
    else
      var n := |bytes| - 64;
      Compress(HashBlocks(h, bytes[..n]), bytes[n..])
  }

  // ----- Section 5.1.1: padding -----

  const TWO_TO_64: nat := 0x1_0000_0000_0000_0000

  /** The number of zero bytes between the end mark and the length. */
  function PadZeros(length: nat): nat {
    (55 - length) % 64
  }

  /** The length field counts bits; the code keeps that count modulo 2^64. */
  function Pad(m: seq<Byte>): seq<Byte> {
    m + [0x80] + Zeros(PadZeros(|m|)) + BigEndian(8 * |m| % TWO_TO_64, 8)
  }

  // ----- Section 6.2: digest -----

  function WordByte(x: Word, i: nat): Byte
    requires i < 4
  {
    if i == 0 then ((x >> 24) & 0xff) as Byte
    else if i == 1 then ((x >> 16) & 0xff) as Byte
    else if i == 2 then ((x >> 8) & 0xff) as Byte
    else (x & 0xff) as Byte
  }

  /** The hash words as bytes, most significant byte of each word first. */
  function Digest(h: seq<Word>): (d: seq<Byte>)
    ensures |d| == 4 * |h|
  {
    seq(4 * |h|, i requires 0 <= i < 4 * |h| => WordByte(h[i / 4], i % 4))
  }

  function Sha256(m: seq<Byte>): (d: seq<Byte>)
    ensures |d| == 32
  {
    PadAligned(m);
    Digest(HashBlocks(INITIAL, Pad(m)))
  }

  // ----- Properties -----

  lemma PadAligned(m: seq<Byte>)
    ensures |Pad(m)| == |m| + 9 + PadZeros(|m|) && |Pad(m)| % 64 == 0
  {
    hide PadZeros, BigEndian;
    PadFills(|m|);
  }

  lemma PadFills(n: nat)
    ensures (n + 9 + PadZeros(n)) % 64 == 0
  {
    var q := (55 - n) / 64;
    assert 55 - n == 64 * q + PadZeros(n);
    assert n + 9 + PadZeros(n) == 64 * (1 - q);
  }

  /** The padding uses the fewest zero bytes that fill the last block. */
  lemma PadLeast(m: seq<Byte>, z: nat)
    requires (|m| + 1 + z + 8) % 64 == 0
    ensures PadZeros(|m|) <= z
  {
  }

  function StripZeros(s: seq<Byte>): seq<Byte> {
    if s != [] && s[|s| - 1] == 0 then StripZeros(s[..|s| - 1]) else s
  }

  /** The message a padded string stands for: what precedes the end mark. */
  function Unpad(p: seq<Byte>): seq<Byte>
    requires |p| >= 8
  {
    var s := StripZeros(p[..|p| - 8]);
    if s == [] then [] else s[..|s| - 1]
  }

  lemma {:induction false} StripAdded(s: seq<Byte>, z: nat)
    requires s != [] && s[|s| - 1] != 0
    ensures StripZeros(s + Zeros(z)) == s
  {
    if z == 0 {
      assert s + Zeros(0) == s;
    } else {
      StripAdded(s, z - 1);
      assert (s + Zeros(z))[..|s| + z - 1] == s + Zeros(z - 1);
    }
  }

  /** The message is recovered from its padding, whatever its length. */
  lemma UnpadPad(m: seq<Byte>)
    ensures |Pad(m)| >= 8 && Unpad(Pad(m)) == m
  {
    hide PadZeros, BigEndian;
    var z, p, marked := PadZeros(|m|), Pad(m), m + [0x80];
    assert p[..|p| - 8] == marked + Zeros(z);
    StripAdded(marked, z);
  }

  /** Two different messages never pad to the same blocks. */
  lemma PadInjective(m: seq<Byte>, m': seq<Byte>)
    requires Pad(m) == Pad(m')
    ensures m == m'
  {
    UnpadPad(m);
    UnpadPad(m');
  }

  /** Every word of the hash is read back from its four bytes of the digest. */
  lemma DigestWords(h: seq<Word>, j: nat)
    requires j < |h|
    ensures var d := Digest(h); WordOf(d[4 * j], d[4 * j + 1], d[4 * j + 2], d[4 * j + 3]) == h[j]
  {
    WordBytes(h[j]);
  }

  lemma WordBytes(x: Word)
    ensures WordOf(WordByte(x, 0), WordByte(x, 1), WordByte(x, 2), WordByte(x, 3)) == x
  {
  }

  lemma HashBlocksLast(h: seq<Word>, a: seq<Byte>, block: seq<Byte>)
    requires |h| == 8 && |a| % 64 == 0 && |block| == 64
    ensures HashBlocks(h, a + block) == Compress(HashBlocks(h, a), block)
  {
    hide Compress;
    assert (a + block)[..|a|] == a && (a + block)[|a|..] == block;
  }
}
