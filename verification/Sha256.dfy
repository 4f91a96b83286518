/** The streaming implementation: a 64-byte buffer, a running bit count and a two-branch
    finish, proved to compute the hash of the whole message. */
module Sha256 {
  import opened Bytes
  import opened Sha256Spec

  // ----- The context as a value -----

  /** Hash words so far, bytes not yet hashed, and bits hashed modulo 2^64. */
  datatype Ctx = Ctx(state: seq<Word>, pending: seq<Byte>, bitlen: nat)

  predicate Ok(c: Ctx) {
    |c.state| == 8 && |c.pending| < 64
  }

  function Start(): (c: Ctx)
    ensures Ok(c)
  {
    Ctx(INITIAL, [], 0)
  }

  function AbsorbByte(c: Ctx, b: Byte): (r: Ctx)
    requires Ok(c)
    ensures Ok(r)
  {
    var p := c.pending + [b];
    if |p| == 64 then Ctx(Compress(c.state, p), [], (c.bitlen + 512) % TWO_TO_64)
    else c.(pending := p)
  }

  function Absorb(c: Ctx, bytes: seq<Byte>): (r: Ctx)
    requires Ok(c)
    ensures Ok(r)
  {
    if bytes == [] then c
    else
      var n := |bytes| - 1;
      AbsorbByte(Absorb(c, bytes[..n]), bytes[n])
  }

  function AbsorbAll(c: Ctx, chunks: seq<seq<Byte>>): (r: Ctx)
    requires Ok(c)
    ensures Ok(r)
  {
    if chunks == [] then c
    else
      var n := |chunks| - 1;
      Absorb(AbsorbAll(c, chunks[..n]), chunks[n])
  }

  /** The length field: bits hashed and bits pending. */
  function LengthField(c: Ctx): (f: seq<Byte>)
    ensures |f| == 8
  {
    BigEndian((c.bitlen + 8 * |c.pending|) % TWO_TO_64, 8)
  }

  /** The hash words after the last block, or the last two when the length does not fit. */
  function FinishState(c: Ctx): (h: seq<Word>)
    requires Ok(c)
    ensures |h| == 8
  {
    var marked := c.pending + [0x80];
    if |c.pending| < 56 then
      Compress(c.state, marked + Zeros(56 - |marked|) + LengthField(c))
    else
      Compress(Compress(c.state, marked + Zeros(64 - |marked|)), Zeros(56) + LengthField(c))
  }

  function Flatten(chunks: seq<seq<Byte>>): seq<Byte> {
    if chunks == [] then []
    else Flatten(chunks[..|chunks| - 1]) + chunks[|chunks| - 1]
  }

  // ----- It computes the hash of the whole message -----

  lemma {:induction false} AbsorbAppend(c: Ctx, a: seq<Byte>, b: seq<Byte>)
    requires Ok(c)
    ensures Absorb(c, a + b) == Absorb(Absorb(c, a), b)
  {
    if b == [] {
      assert a + b == a;
    } else {
      hide AbsorbByte;
      var n := |b| - 1;
      AbsorbAppend(c, a, b[..n]);
      assert (a + b)[..|a| + n] == a + b[..n];
    }
  }

  /** The part of a message that fills whole blocks. */
  function Whole(n: nat): (f: nat)
    ensures f <= n && n - f < 64 && f % 64 == 0
  {
    n - n % 64
  }

  lemma WholeNext(n: nat)
    ensures Whole(n + 1) == if n - Whole(n) == 63 then n + 1 else Whole(n)
  {
  }

  lemma ModAdd(a: nat, b: nat)
    ensures (a % TWO_TO_64 + b) % TWO_TO_64 == (a + b) % TWO_TO_64
  {
  }

  /** After any message the context holds the hash of its whole blocks, its remaining
      bytes, and its count of hashed bits. */
  lemma {:induction false} AbsorbMeans(m: seq<Byte>)
    ensures var f := Whole(|m|);
            Absorb(Start(), m) == Ctx(HashBlocks(INITIAL, m[..f]), m[f..], 8 * f % TWO_TO_64)
  {
    hide Compress, HashBlocks, Whole;
    if m == [] {
      NoBlocks();
      assert m[..0] == [] && m[0..] == [];
    } else {
      var n := |m| - 1;
      var f, front := Whole(n), m[..n];
      AbsorbMeans(front);
      WholeNext(n);
      assert front[f..] + [m[n]] == m[f..];
      assert front[..f] == m[..f];
      if n - f == 63 {
        assert m == m[..f] + m[f..];
        HashBlocksLast(INITIAL, m[..f], m[f..]);
        ModAdd(8 * f, 512);
        assert m[..n + 1] == m && m[n + 1..] == [];
      }
    }
  }

  lemma NoBlocks()
    ensures HashBlocks(INITIAL, []) == INITIAL
  {
  }

  lemma PadZerosOf(n: nat)
    ensures var p := n - Whole(n);
            PadZeros(n) == if p < 56 then 55 - p else 119 - p
  {
  }

  /** The last block when the length fits into it. */
  function LastBlock(p: seq<Byte>, length: seq<Byte>): (b: seq<Byte>)
    requires |p| < 56 && |length| == 8
    ensures |b| == 64
  {
    var marked := p + [0x80];
    marked + Zeros(56 - |marked|) + length
  }

  /** The last two blocks when it does not. */
  function MarkBlock(p: seq<Byte>): (b: seq<Byte>)
    requires 56 <= |p| < 64
    ensures |b| == 64
  {
    var marked := p + [0x80];
    marked + Zeros(64 - |marked|)
  }

  function LengthOf(m: seq<Byte>): (f: seq<Byte>)
    ensures |f| == 8
  {
    BigEndian(8 * |m| % TWO_TO_64, 8)
  }

  lemma PadShort(m: seq<Byte>)
    requires |m| - Whole(|m|) < 56
    ensures var f := Whole(|m|); Pad(m) == m[..f] + LastBlock(m[f..], LengthOf(m))
  {
    hide BigEndian, PadZeros, Whole;
    PadZerosOf(|m|);
    var f := Whole(|m|);
    assert m == m[..f] + m[f..];
  }

  lemma PadLong(m: seq<Byte>)
    requires |m| - Whole(|m|) >= 56
    ensures var f := Whole(|m|);
            Pad(m) == (m[..f] + MarkBlock(m[f..])) + (Zeros(56) + LengthOf(m))
  {
    hide BigEndian, PadZeros, Whole;
    PadZerosOf(|m|);
    var f := Whole(|m|);
    assert m == m[..f] + m[f..];
    assert Zeros(PadZeros(|m|)) == Zeros(63 - |m[f..]|) + Zeros(56);
  }

  /** The context counts the whole message. */
  lemma LengthCounted(m: seq<Byte>)
    ensures LengthField(Absorb(Start(), m)) == LengthOf(m)
  {
    hide HashBlocks, BigEndian, Absorb, Whole;
    AbsorbMeans(m);
    var f := Whole(|m|);
    ModAdd(8 * f, 8 * |m[f..]|);
  }

  lemma FinishBlocks(c: Ctx)
    requires Ok(c)
    ensures FinishState(c) ==
              if |c.pending| < 56 then Compress(c.state, LastBlock(c.pending, LengthField(c)))
              else Compress(Compress(c.state, MarkBlock(c.pending)), Zeros(56) + LengthField(c))
  {
    hide Compress, LengthField;
  }

  /** Finishing after any message gives the hash words of its padding. */
  lemma FinishIsHash(m: seq<Byte>)
    ensures |Pad(m)| % 64 == 0
    ensures FinishState(Absorb(Start(), m)) == HashBlocks(INITIAL, Pad(m))
  {
    hide Compress, HashBlocks, Pad, Absorb, Whole, LengthOf, LengthField, FinishState, LastBlock, MarkBlock, Zeros;
    PadAligned(m);
    AbsorbMeans(m);
    LengthCounted(m);
    var f, length := Whole(|m|), LengthOf(m);
    var blocks, p := m[..f], m[f..];
    FinishBlocks(Absorb(Start(), m));
    if |p| < 56 {
      PadShort(m);
      HashBlocksLast(INITIAL, blocks, LastBlock(p, length));
    } else {
      PadLong(m);
      HashBlocksLast(INITIAL, blocks, MarkBlock(p));
      HashBlocksLast(INITIAL, blocks + MarkBlock(p), Zeros(56) + length);
    }
  }

  lemma {:induction false} AbsorbAllFlattens(c: Ctx, chunks: seq<seq<Byte>>)
    requires Ok(c)
    ensures AbsorbAll(c, chunks) == Absorb(c, Flatten(chunks))
  {
    if chunks != [] {
      var n := |chunks| - 1;
      AbsorbAllFlattens(c, chunks[..n]);
      AbsorbAppend(c, Flatten(chunks[..n]), chunks[n]);
    }
  }

  /** However a message is cut into updates, the digest is the hash of the message. */
  lemma Streaming(chunks: seq<seq<Byte>>)
    ensures Digest(FinishState(AbsorbAll(Start(), chunks))) == Sha256Spec.Sha256(Flatten(chunks))
  {
    AbsorbAllFlattens(Start(), chunks);
    FinishIsHash(Flatten(chunks));
  }

  // ----- The macros of the implementation -----

  function EP0(x: Word): Word {
    ((x >> 2) | (x << 30)) ^ ((x >> 13) | (x << 19)) ^ ((x >> 22) | (x << 10))
  }

  function EP1(x: Word): Word {
    ((x >> 6) | (x << 26)) ^ ((x >> 11) | (x << 21)) ^ ((x >> 25) | (x << 7))
  }

  function SIG0(x: Word): Word {
    ((x >> 7) | (x << 25)) ^ ((x >> 18) | (x << 14)) ^ (x >> 3)
  }

  function SIG1(x: Word): Word {
    ((x >> 17) | (x << 15)) ^ ((x >> 19) | (x << 13)) ^ (x >> 10)
  }

  lemma MacrosRotate(x: Word)
    ensures EP0(x) == BigSigma0(x) && EP1(x) == BigSigma1(x)
    ensures SIG0(x) == SmallSigma0(x) && SIG1(x) == SmallSigma1(x)
  {
  }

  function Load(a: Byte, b: Byte, c: Byte, d: Byte): Word {
    (a as Word << 24) | (b as Word << 16) | (c as Word << 8) | d as Word
  }

  lemma LoadIsWord(a: Byte, b: Byte, c: Byte, d: Byte)
    ensures Load(a, b, c, d) == WordOf(a, b, c, d)
  {
  }

  lemma LoadedWord(block: seq<Byte>, w: seq<Word>)
    requires |block| == 64 && |w| < 16
    ensures var t := |w|;
            Load(block[4 * t], block[4 * t + 1], block[4 * t + 2], block[4 * t + 3]) == NextWord(block, w)
  {
    var t := |w|;
    hide Load, WordOf;
    LoadIsWord(block[4 * t], block[4 * t + 1], block[4 * t + 2], block[4 * t + 3]);
  }

  lemma ExtendedWord(block: seq<Byte>, w: seq<Word>)
    requires |block| == 64 && 16 <= |w| < 64
    ensures var t := |w|;
            AddFour(SIG1(w[t - 2]), w[t - 7], SIG0(w[t - 15]), w[t - 16]) == NextWord(block, w)
  {
    hide AddFour, SIG0, SIG1, SmallSigma0, SmallSigma1, EP0, EP1, BigSigma0, BigSigma1;
    MacrosRotate(w[|w| - 2]);
    MacrosRotate(w[|w| - 15]);
  }

  lemma NoRounds(v: Vars, w: seq<Word>)
    requires |w| == 64
    ensures Rounds(v, w, 0) == v
  {
  }

  lemma OneRound(v: Vars, w: seq<Word>, t: nat)
    requires t < |w| == 64
    ensures Rounds(v, w, t + 1) == Round(Rounds(v, w, t), RoundConstant(t), w[t])
  {
    hide Round, RoundConstant;
  }

  lemma RoundIs(v: Vars, k: Word, w: Word)
    ensures var t1, t2 := AddFive(v.h, EP1(v.e), Ch(v.e, v.f, v.g), k, w), Add(EP0(v.a), Maj(v.a, v.b, v.c));
            Round(v, k, w) == Vars(Add(t1, t2), v.a, v.b, v.c, Add(v.d, t1), v.e, v.f, v.g)
  {
    hide Add, AddFive, SIG0, SIG1, SmallSigma0, SmallSigma1, EP0, EP1, BigSigma0, BigSigma1, Ch, Maj;
    MacrosRotate(v.e);
    MacrosRotate(v.a);
  }

  lemma EightBytes(n: nat)
    ensures forall i :: 0 <= i < 8 ==> BigEndian(n, 8)[i] == LowByte(ShiftBytes(n, 7 - i))
  {
    hide LowByte, BigEndian, ShiftBytes;
    forall i | 0 <= i < 8 ensures BigEndian(n, 8)[i] == LowByte(ShiftBytes(n, 7 - i)) {
      BigEndianByte(n, 8, 7 - i);
    }
  }

  // ----- The context in place -----

  class Sha256Ctx {
    const data: array<Byte>
    var datalen: nat
    var bitlen: nat
    const state: array<Word>

    ghost predicate Sized() {
      data.Length == 64 && state.Length == 8
    }

    ghost predicate Valid()
      reads this
    {
      Sized() && datalen < 64
    }

    ghost function Value(): (c: Ctx)
      requires Valid()
      reads this, data, state
      ensures Ok(c)
    {
      Ctx(state[..], data[..datalen], bitlen)
    }

    constructor Init()
      ensures Valid() && Value() == Start() && fresh(data) && fresh(state)
    {
      data := new Byte[64](_ => 0);
      state := new Word[8](i requires 0 <= i < 8 => INITIAL[i]);
      datalen, bitlen := 0, 0;
      new;
      assert state[..] == INITIAL;
    }

    /** Compresses the 64 bytes of the buffer into the state. */
    method Transform()
      requires Sized()
      modifies state
      ensures state[..] == Compress(old(state[..]), data[..])
    {
      var m := MessageSchedule();
      var v := RunRounds(m);
      AddBack(v);
      hide AddVars, Rounds, Schedule;
    }

    method MessageSchedule() returns (m: array<Word>)
      requires Sized()
      ensures fresh(m) && m.Length == 64 && m[..] == Schedule(data[..], 64)
    {
      hide AddFour, NextWord, SIG0, SIG1, Load;
      m := new Word[64](_ => 0);
      var i := 0;
      while i < 16
        invariant 0 <= i <= 16 && m[..i] == Schedule(data[..], i)
      {
        m[i] := Load(data[4 * i], data[4 * i + 1], data[4 * i + 2], data[4 * i + 3]);
        LoadedWord(data[..], m[..i]);
        assert m[..i + 1] == m[..i] + [m[i]];
        i := i + 1;
      }
      while i < 64
        invariant 16 <= i <= 64 && m[..i] == Schedule(data[..], i)
      {
        ghost var w := m[..i];
        m[i] := AddFour(SIG1(m[i - 2]), m[i - 7], SIG0(m[i - 15]), m[i - 16]);
        ExtendedWord(data[..], w);
        assert m[..i + 1] == w + [m[i]];
        i := i + 1;
      }
      assert m[..64] == m[..];
    }

    method RunRounds(m: array<Word>) returns (v: Vars)
      requires Sized() && m.Length == 64
      ensures v == Rounds(VarsOf(state[..]), m[..], |m[..]|)
    {
      hide Add, AddFive, Round, Rounds, RoundConstant, Ch, Maj, EP0, EP1;
      var a, b, c, d := state[0], state[1], state[2], state[3];
      var e, f, g, h := state[4], state[5], state[6], state[7];
      ghost var start := VarsOf(state[..]);
      NoRounds(start, m[..]);
      for i := 0 to 64
        invariant Vars(a, b, c, d, e, f, g, h) == Rounds(start, m[..], i)
      {
        OneRound(start, m[..], i);
        RoundIs(Vars(a, b, c, d, e, f, g, h), RoundConstant(i), m[i]);
        var t1 := AddFive(h, EP1(e), Ch(e, f, g), RoundConstant(i), m[i]);
        var t2 := Add(EP0(a), Maj(a, b, c));
        h := g; g := f; f := e; e := Add(d, t1);
        d := c; c := b; b := a; a := Add(t1, t2);
      }
      v := Vars(a, b, c, d, e, f, g, h);
    }

    method AddBack(v: Vars)
      requires Sized()
      modifies state
      ensures state[..] == AddVars(old(state[..]), v)
    {
      hide Add;
      state[0], state[1], state[2], state[3] :=
        Add(state[0], v.a), Add(state[1], v.b), Add(state[2], v.c), Add(state[3], v.d);
      state[4], state[5], state[6], state[7] :=
        Add(state[4], v.e), Add(state[5], v.f), Add(state[6], v.g), Add(state[7], v.h);
    }

    /** Takes the input in, byte by byte. */
    method Update(input: seq<Byte>)
      requires Valid()
      modifies this, data, state
      ensures Valid() && Value() == Absorb(old(Value()), input)
    {
      hide Compress;
      ghost var start := Value();
      for i := 0 to |input|
        invariant Valid() && Value() == Absorb(start, input[..i])
      {
        ghost var before := Value();
        data[datalen] := input[i];
        assert data[..datalen + 1] == before.pending + [input[i]];
        datalen := datalen + 1;
        if datalen == 64 {
          assert data[..64] == data[..];
          Transform();
          bitlen := (bitlen + 512) % TWO_TO_64;
          datalen := 0;
        }
        assert input[..i + 1][..i] == input[..i];
      }
      assert input[..|input|] == input;
    }

    /** Pads, hashes the last one or two blocks and writes out the digest. */
    method Final(hash: array<Byte>)
      requires Valid() && hash.Length == 32 && hash != data
      modifies this, data, state, hash
      ensures hash[..] == Digest(FinishState(old(Value())))
    {
      hide Compress, BigEndian, Digest;
      ghost var c := Value();
      var i := datalen;
      data[i] := 0x80;
      i := i + 1;
      if datalen < 56 {
        ZeroFill(i, 56);
        assert data[..56] == c.pending + [0x80] + Zeros(55 - datalen);
      } else {
        ZeroFill(i, 64);
        assert data[..] == c.pending + [0x80] + Zeros(63 - datalen);
        Transform();
        ZeroFill(0, 56);
        assert data[..56] == Zeros(56);
      }
      bitlen := (bitlen + datalen * 8) % TWO_TO_64;
      WriteLength();
      assert data[..] == data[..56] + LengthField(c);
      Transform();
      WriteDigest(hash);
    }

    method ZeroFill(from: nat, to: nat)
      requires Valid() && from <= to <= 64
      modifies data
      ensures data[..from] == old(data[..from]) && data[to..] == old(data[to..])
      ensures data[from..to] == Zeros(to - from)
    {
      for i := from to to
        invariant data[..from] == old(data[..from]) && data[to..] == old(data[to..])
        invariant forall j :: from <= j < i ==> data[j] == 0
      {
        data[i] := 0;
      }
    }

    /** The low eight bytes of the bit count, most significant first. */
    method WriteLength()
      requires Valid()
      modifies data
      ensures data[..56] == old(data[..56]) && data[56..] == BigEndian(bitlen, 8)
    {
      hide LowByte, BigEndian, ShiftBytes;
      ghost var length := BigEndian(bitlen, 8);
      EightBytes(bitlen);
      WriteLowHalf(length);
      data[59] := LowByte(ShiftBytes(bitlen, 4));
      data[58] := LowByte(ShiftBytes(bitlen, 5));
      data[57] := LowByte(ShiftBytes(bitlen, 6));
      data[56] := LowByte(ShiftBytes(bitlen, 7));
      assert data[..56] == old(data[..56]);
      assert forall i :: 0 <= i < 8 ==> data[56 + i] == length[i];
    }

    method WriteLowHalf(ghost length: seq<Byte>)
      requires Valid() && length == BigEndian(bitlen, 8)
      modifies data
      ensures data[..60] == old(data[..60])
      ensures forall i :: 4 <= i < 8 ==> data[56 + i] == length[i]
    {
      hide LowByte, BigEndian, ShiftBytes;
      EightBytes(bitlen);
      data[63] := LowByte(ShiftBytes(bitlen, 0));
      data[62] := LowByte(ShiftBytes(bitlen, 1));
      data[61] := LowByte(ShiftBytes(bitlen, 2));
      data[60] := LowByte(ShiftBytes(bitlen, 3));
    }

    method WriteDigest(hash: array<Byte>)
      requires Valid() && hash.Length == 32 && hash != data
      modifies hash
      ensures hash[..] == Digest(state[..])
    {
      for i := 0 to 4
        invariant forall p :: 0 <= p < 32 && p % 4 < i ==> hash[p] == WordByte(state[p / 4], p % 4)
      {
        for j := 0 to 8
          invariant forall p :: 0 <= p < 32 && (p % 4 < i || (p % 4 == i && p / 4 < j)) ==>
                      hash[p] == WordByte(state[p / 4], p % 4)
        {
          hash[i + j * 4] := WordByte(state[j], i);
        }
      }
    }
  }

  method Hash(input: seq<Byte>, outHash: array<Byte>)
    requires outHash.Length == 32
    modifies outHash
    ensures outHash[..] == Sha256Spec.Sha256(input)
  {
    hide Absorb, FinishState, Digest;
    var ctx := new Sha256Ctx.Init();
    ctx.Update(input);
    ctx.Final(outHash);
    FinishIsHash(input);
  }
}
