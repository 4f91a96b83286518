/** Two things the hash of FIPS 180-4 must satisfy, stated without the functions that define it: the
    length field holds the length, and the rounds of a block can be undone. */
module Sha256Laws {
  import opened Bytes
  import opened Sha256Spec

  // ----- The length field -----

  /** Bytes read as a number in base 256, most significant first. */
  function Value(s: seq<Byte>): nat {
    if s == [] then 0 else 256 * Value(s[..|s| - 1]) + s[|s| - 1] as nat
  }

  function Power(k: nat): nat {
    if k == 0 then 1 else 256 * Power(k - 1)
  }

  lemma LowByteValue(n: nat)
    ensures LowByte(n) as nat == n % 256
  {
    var b := ByteOf(n % 256);
    AsNumberAndBack(b);
  }

  /** The byte of a number, reached by counting. */
  lemma {:induction false} ByteOf(m: nat) returns (b: Byte)
    requires m < 256
    ensures b as nat == m
  {
    if m == 0 {
      b := 0;
    } else {
      b := ByteOf(m - 1);
      OneMore(b);
      b := b + 1;
    }
  }

  lemma OneMore(b: Byte)
    requires b as nat < 255
    ensures (b + 1) as nat == b as nat + 1
  {
  }

  lemma AsNumberAndBack(b: Byte)
    ensures (b as nat) as Byte == b
  {
  }

  lemma {:induction false} BigEndianValue(n: nat, k: nat)
    requires n < Power(k)
    ensures Value(BigEndian(n, k)) == n
  {
    if k > 0 {
      hide LowByte;
      BigEndianValue(n / 256, k - 1);
      LowByteValue(n);
      assert BigEndian(n, k)[..k - 1] == BigEndian(n / 256, k - 1);
    }
  }

  lemma EightBytes()
    ensures Power(8) == 0x1_0000_0000_0000_0000
  {
    assert Power(4) == 0x1_0000_0000;
    assert Power(6) == 0x1_0000_0000_0000;
  }

  /** The last eight bytes of a padded message hold its length in bits, modulo 2^64; so for every
      message below 2^61 bytes they hold its length. */
  lemma LengthField(m: seq<Byte>)
    ensures |Pad(m)| >= 8
    ensures Value(Pad(m)[|Pad(m)| - 8..]) == 8 * |m| % 0x1_0000_0000_0000_0000
    ensures |m| < 0x2000_0000_0000_0000 ==> Value(Pad(m)[|Pad(m)| - 8..]) == 8 * |m|
  {
    hide BigEndian, PadZeros, Power, Value;
    var n := 8 * |m| % 0x1_0000_0000_0000_0000;
    EightBytes();
    BigEndianValue(n, 8);
    assert Pad(m)[|Pad(m)| - 8..] == BigEndian(n, 8);
  }

  /** After the message come the bit 1 and zeros, up to the length. */
  lemma EndMark(m: seq<Byte>)
    ensures |Pad(m)| >= |m| + 9 && Pad(m)[..|m|] == m && Pad(m)[|m|] == 0x80
    ensures forall i :: |m| < i < |Pad(m)| - 8 ==> Pad(m)[i] == 0
  {
    hide BigEndian, PadZeros;
    var p := m + [0x80] + Zeros(PadZeros(|m|));
    assert forall i :: |m| < i < |p| ==> p[i] == 0;
    assert Pad(m)[..|p|] == p;
  }

  // ----- One block undone -----

  function Minus(x: Word, y: Word): Word {
    x - y
  }

  function MinusFour(p: Word, q: Word, r: Word, s: Word, t: Word): Word {
    p - q - r - s - t
  }

  lemma TakeBack(x: Word, y: Word)
    ensures Minus(Add(x, y), x) == y && Minus(Add(x, y), y) == x
  {
    TakeBackSum(x, y);
    hide Minus;
    assert Add(x, y) == x + y;
  }

  lemma TakeBackSum(x: Word, y: Word)
    ensures Minus(x + y, x) == y && Minus(x + y, y) == x
  {
  }

  lemma TakeBackFour(p: Word, q: Word, r: Word, s: Word, t: Word)
    ensures MinusFour(AddFive(p, q, r, s, t), q, r, s, t) == p
  {
    TakeBackFourSum(p, q, r, s, t);
    hide MinusFour;
    assert AddFive(p, q, r, s, t) == p + q + r + s + t;
  }

  lemma TakeBackFourSum(p: Word, q: Word, r: Word, s: Word, t: Word)
    ensures MinusFour(p + q + r + s + t, q, r, s, t) == p
  {
  }

  /** The working variables before a round. */
  function Unround(v: Vars, k: Word, w: Word): Vars {
    var t1 := Minus(v.a, Add(BigSigma0(v.b), Maj(v.b, v.c, v.d)));
    Vars(v.b, v.c, v.d, Minus(v.e, t1), v.f, v.g, v.h,
         MinusFour(t1, BigSigma1(v.f), Ch(v.f, v.g, v.h), k, w))
  }

  lemma UnroundRound(v: Vars, k: Word, w: Word)
    ensures Unround(Round(v, k, w), k, w) == v
  {
    hide BigSigma0, BigSigma1, Ch, Maj, Add, AddFive, Minus, MinusFour;
    var t1 := AddFive(v.h, BigSigma1(v.e), Ch(v.e, v.f, v.g), k, w);
    TakeBack(t1, Add(BigSigma0(v.a), Maj(v.a, v.b, v.c)));
    TakeBack(v.d, t1);
    TakeBackFour(v.h, BigSigma1(v.e), Ch(v.e, v.f, v.g), k, w);
  }

  function Unrounds(v: Vars, w: seq<Word>, t: nat): Vars
    requires t <= |w| == 64
    decreases t
  {
    if t == 0 then v else Unrounds(Unround(v, RoundConstant(t - 1), w[t - 1]), w, t - 1)
  }

  lemma {:induction false} UnroundsRounds(v: Vars, w: seq<Word>, t: nat)
    requires t <= |w| == 64
    ensures Unrounds(Rounds(v, w, t), w, t) == v
  {
    if t > 0 {
      hide Round, Unround, RoundConstant;
      UnroundRound(Rounds(v, w, t - 1), RoundConstant(t - 1), w[t - 1]);
      UnroundsRounds(v, w, t - 1);
    }
  }

  /** The hash words after a block less those before it. */
  function Gained(h: seq<Word>, r: seq<Word>): Vars
    requires |h| == |r| == 8
  {
    Vars(Minus(r[0], h[0]), Minus(r[1], h[1]), Minus(r[2], h[2]), Minus(r[3], h[3]),
         Minus(r[4], h[4]), Minus(r[5], h[5]), Minus(r[6], h[6]), Minus(r[7], h[7]))
  }

  /** What a block adds to the hash words, with its rounds run backwards, is the hash words before
      it: so no block forgets the blocks before. */
  lemma CompressUndone(h: seq<Word>, block: seq<Byte>)
    requires |h| == 8 && |block| == 64
    ensures Unrounds(Gained(h, Compress(h, block)), Schedule(block, 64), 64)
            == Vars(h[0], h[1], h[2], h[3], h[4], h[5], h[6], h[7])
  {
    var start, w := Vars(h[0], h[1], h[2], h[3], h[4], h[5], h[6], h[7]), Schedule(block, 64);
    UnroundsRounds(start, w, 64);
    hide Rounds, Unrounds, Schedule, Add, Minus;
    var v := Rounds(start, w, 64);
    TakeBack(h[0], v.a);
    TakeBack(h[1], v.b);
    TakeBack(h[2], v.c);
    TakeBack(h[3], v.d);
    TakeBack(h[4], v.e);
    TakeBack(h[5], v.f);
    TakeBack(h[6], v.g);
    TakeBack(h[7], v.h);
    assert Gained(h, Compress(h, block)) == v;
  }

  /** A block that adds the same to two hash states found them the same. */
  lemma BlockKeepsDifference(h: seq<Word>, h': seq<Word>, block: seq<Byte>)
    requires |h| == |h'| == 8 && |block| == 64
    requires Gained(h, Compress(h, block)) == Gained(h', Compress(h', block))
    ensures h == h'
  {
    hide Compress, Unrounds, Schedule, Gained;
    CompressUndone(h, block);
    CompressUndone(h', block);
    assert forall i :: 0 <= i < 8 ==> h[i] == h'[i];
  }
}
