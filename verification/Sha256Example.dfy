/** The one-block example that NIST publishes for SHA-256, the message "abc", worked through the
    definition eight words and eight rounds at a time: the digest comes out as published. */
module Sha256Example {
  import opened Bytes
  import opened Sha256Spec

  const ABC: seq<Byte> := [0x61, 0x62, 0x63]

  // ----- The published words -----

  const W0 := Row(0x61626380, 0x00000000, 0x00000000, 0x00000000, 0x00000000, 0x00000000, 0x00000000, 0x00000000)
  const W1 := Row(0x00000000, 0x00000000, 0x00000000, 0x00000000, 0x00000000, 0x00000000, 0x00000000, 0x00000018)
  const W2 := Row(0x61626380, 0x000f0000, 0x7da86405, 0x600003c6, 0x3e9d7b78, 0x0183fc00, 0x12dcbfdb, 0xe2e2c38e)
  const W3 := Row(0xc8215c1a, 0xb73679a2, 0xe5bc3909, 0x32663c5b, 0x9d209d67, 0xec8726cb, 0x702138a4, 0xd3b7973b)
  const W4 := Row(0x93f5997f, 0x3b68ba73, 0xaff4ffc1, 0xf10a5c62, 0x0a8b3996, 0x72af830a, 0x9409e33e, 0x24641522)
  const W5 := Row(0x9f47bf94, 0xf0a64f5a, 0x3e246a79, 0x27333ba3, 0x0c4763f2, 0x840abf27, 0x7a290d5d, 0x065c43da)
  const W6 := Row(0xfb3e89cb, 0xcc7617db, 0xb9e66c34, 0xa9993667, 0x84badedd, 0xc21462bc, 0x1487472c, 0xb20f7a99)
  const W7 := Row(0xef57b9cd, 0xebe6b238, 0x9fe3095e, 0x78bc8d4b, 0xa43fcf15, 0x668b2ff8, 0xeeaba2cc, 0x12b1edeb)

  /** The working variable a after each round, from the four values before the first. */
  const A0 := Row(0x00000000, 0x00000000, 0x00000000, 0x00000000, 0xa54ff53a, 0x3c6ef372, 0xbb67ae85, 0x6a09e667)
  const A1 := Row(0x5d6aebcd, 0x5a6ad9ad, 0xc8c347a7, 0xd550f666, 0x04409a6a, 0x2b4209f5, 0xe5030380, 0x85a07b5f)
  const A2 := Row(0x8e04ecb9, 0x8c87346b, 0x4798a3f4, 0xf71fc5a9, 0x87912990, 0xd932eb16, 0xc0645fde, 0xb0fa238e)
  const A3 := Row(0x21da9a9b, 0xc2fbd9d1, 0xfe777bbf, 0xe1f20c33, 0x9dc68b63, 0xc2606d6d, 0xa7a3623f, 0xc5d53d8d)
  const A4 := Row(0x1c2c2838, 0xcde8037d, 0xb62ec4bc, 0x77d37528, 0x363482c9, 0xa0060b30, 0xea992a22, 0x73b33bf5)
  const A5 := Row(0x98e12507, 0xfe604df5, 0xa9a7738c, 0x65a0cfe4, 0x41a65cb1, 0x34df1604, 0x6dc57a8a, 0x79ea687a)
  const A6 := Row(0xd6670766, 0xdf46652f, 0x17aa0dfe, 0x9d4baf93, 0x26628815, 0x72ab4b91, 0xa14c14b0, 0x4172328d)
  const A7 := Row(0x05757ceb, 0xf11bfaa8, 0x7a0508a1, 0x886e7a22, 0x101fd28f, 0xf5702fdb, 0x3ec45cdb, 0x38cc9913)
  const A8 := Row(0xfcd1887b, 0xc062d46f, 0xffb70472, 0xb6ae8fff, 0xb85e2ce9, 0x04d24d6c, 0xd39a2165, 0x506e3058)

  /** The working variable e, likewise. */
  const E0 := Row(0x00000000, 0x00000000, 0x00000000, 0x00000000, 0x5be0cd19, 0x1f83d9ab, 0x9b05688c, 0x510e527f)
  const E1 := Row(0xfa2a4622, 0x78ce7989, 0xf92939eb, 0x24e00850, 0x43ada245, 0x714260ad, 0x9b27a401, 0x0c657a79)
  const E2 := Row(0x32ca2d8c, 0x1cc92596, 0x436b23e8, 0x816fd6e9, 0x1e578218, 0x745a48de, 0x0b92f20c, 0x07590dcd)
  const E3 := Row(0x8034229c, 0x846ee454, 0xcc899961, 0xb0638179, 0x8ada8930, 0xe1257970, 0x49f5114a, 0xaa47c347)
  const E4 := Row(0x2823ef91, 0x14383d8e, 0xc74c6516, 0xedffbff8, 0x6112a3b7, 0xade79437, 0x0109ab3a, 0xba591112)
  const E5 := Row(0x9cd9f5f6, 0x59249dd3, 0x085f3833, 0xf4b002d6, 0x0772a26b, 0xa507a53d, 0xf0781bc8, 0x1efbc0a0)
  const E6 := Row(0x26352d63, 0x838b2711, 0xdecd4715, 0xfda24c2e, 0xa80f11f0, 0xb7755da1, 0xd57b94a9, 0xfecf0bc6)
  const E7 := Row(0xbd714038, 0x6e5c390c, 0x52f1ccf7, 0x49231c1e, 0x529e7d00, 0x9f4787c3, 0xe50e1b4f, 0x54cb266b)
  const E8 := Row(0x9b5e906c, 0x7e44008e, 0x6d83bfc6, 0xb21bad3d, 0x961f4894, 0x948d25b6, 0xfb121210, 0x5ef50f24)

  const DIGEST_WORDS: seq<Word> := [
    0xba7816bf, 0x8f01cfea, 0x414140de, 0x5dae2223, 0xb00361a3, 0x96177a9c, 0xb410ff61, 0xf20015ad
  ]

  // ----- Eight words of the schedule -----

  /** The sum that gives a word of the schedule from those 2, 7, 15 and 16 places before it. */
  function Sum(p: Word, q: Word, r: Word, s: Word): Word {
    AddFour(SmallSigma1(p), q, SmallSigma0(r), s)
  }

  /** Row n follows from the rows p and q before it. */
  predicate SumsOk(p: Row, q: Row, n: Row) {
    && n.w0 == Sum(q.w6, q.w1, p.w1, p.w0) && n.w1 == Sum(q.w7, q.w2, p.w2, p.w1)
    && n.w2 == Sum(n.w0, q.w3, p.w3, p.w2) && n.w3 == Sum(n.w1, q.w4, p.w4, p.w3)
    && n.w4 == Sum(n.w2, q.w5, p.w5, p.w4) && n.w5 == Sum(n.w3, q.w6, p.w6, p.w5)
    && n.w6 == Sum(n.w4, q.w7, p.w7, p.w6) && n.w7 == Sum(n.w5, n.w0, q.w0, p.w7)
  }

  /** The row stands in the sequence from position t. */
  predicate RowAt(w: seq<Word>, t: nat, r: Row) {
    && t + 8 <= |w|
    && w[t] == r.w0 && w[t + 1] == r.w1 && w[t + 2] == r.w2 && w[t + 3] == r.w3
    && w[t + 4] == r.w4 && w[t + 5] == r.w5 && w[t + 6] == r.w6 && w[t + 7] == r.w7
  }

  /** A word of the schedule follows from the words before it. */
  lemma {:induction false} ScheduleRule(block: seq<Byte>, n: nat, t: nat)
    requires |block| == 64 && t < n <= 64
    ensures Schedule(block, n)[t] == NextWord(block, Schedule(block, n)[..t])
  {
    hide NextWord;
    var front := Schedule(block, n - 1);
    if t < n - 1 {
      ScheduleRule(block, n - 1, t);
      assert Schedule(block, n)[..t] == front[..t];
    } else {
      assert Schedule(block, n)[..t] == front;
    }
  }

  lemma LaterWord(block: seq<Byte>, t: nat)
    requires |block| == 64 && 16 <= t < 64
    ensures var w := Schedule(block, 64); w[t] == Sum(w[t - 2], w[t - 7], w[t - 15], w[t - 16])
  {
    hide AddFour, SmallSigma0, SmallSigma1;
    ScheduleRule(block, 64, t);
    hide Schedule;
  }

  lemma EightWords(block: seq<Byte>, t: nat, p: Row, q: Row, n: Row)
    requires |block| == 64 && 16 <= t <= 56
    requires RowAt(Schedule(block, 64), t - 16, p) && RowAt(Schedule(block, 64), t - 8, q) && SumsOk(p, q, n)
    ensures RowAt(Schedule(block, 64), t, n)
  {
    hide Schedule, Sum;
    LaterWord(block, t);
    LaterWord(block, t + 1);
    LaterWord(block, t + 2);
    LaterWord(block, t + 3);
    LaterWord(block, t + 4);
    LaterWord(block, t + 5);
    LaterWord(block, t + 6);
    LaterWord(block, t + 7);
  }

  // ----- Eight rounds -----

  /** The new values of e and a from the four last of each, the newest first. */
  function NewE(a4: Word, e1: Word, e2: Word, e3: Word, e4: Word, k: Word, w: Word): Word {
    Add(a4, AddFive(e4, BigSigma1(e1), Ch(e1, e2, e3), k, w))
  }

  function NewA(a1: Word, a2: Word, a3: Word, e1: Word, e2: Word, e3: Word, e4: Word, k: Word, w: Word): Word {
    Add(AddFive(e4, BigSigma1(e1), Ch(e1, e2, e3), k, w), Add(BigSigma0(a1), Maj(a1, a2, a3)))
  }

  /** Row a of the working variable a follows from the rows p and q of a and e before it. */
  predicate RowAOk(p: Row, q: Row, a: Row, e: Row, k: Row, w: Row) {
    && a.w0 == NewA(p.w7, p.w6, p.w5, q.w7, q.w6, q.w5, q.w4, k.w0, w.w0)
    && a.w1 == NewA(a.w0, p.w7, p.w6, e.w0, q.w7, q.w6, q.w5, k.w1, w.w1)
    && a.w2 == NewA(a.w1, a.w0, p.w7, e.w1, e.w0, q.w7, q.w6, k.w2, w.w2)
    && a.w3 == NewA(a.w2, a.w1, a.w0, e.w2, e.w1, e.w0, q.w7, k.w3, w.w3)
    && a.w4 == NewA(a.w3, a.w2, a.w1, e.w3, e.w2, e.w1, e.w0, k.w4, w.w4)
    && a.w5 == NewA(a.w4, a.w3, a.w2, e.w4, e.w3, e.w2, e.w1, k.w5, w.w5)
    && a.w6 == NewA(a.w5, a.w4, a.w3, e.w5, e.w4, e.w3, e.w2, k.w6, w.w6)
    && a.w7 == NewA(a.w6, a.w5, a.w4, e.w6, e.w5, e.w4, e.w3, k.w7, w.w7)
  }

  predicate RowEOk(p: Row, q: Row, a: Row, e: Row, k: Row, w: Row) {
    && e.w0 == NewE(p.w4, q.w7, q.w6, q.w5, q.w4, k.w0, w.w0)
    && e.w1 == NewE(p.w5, e.w0, q.w7, q.w6, q.w5, k.w1, w.w1)
    && e.w2 == NewE(p.w6, e.w1, e.w0, q.w7, q.w6, k.w2, w.w2)
    && e.w3 == NewE(p.w7, e.w2, e.w1, e.w0, q.w7, k.w3, w.w3)
    && e.w4 == NewE(a.w0, e.w3, e.w2, e.w1, e.w0, k.w4, w.w4)
    && e.w5 == NewE(a.w1, e.w4, e.w3, e.w2, e.w1, k.w5, w.w5)
    && e.w6 == NewE(a.w2, e.w5, e.w4, e.w3, e.w2, k.w6, w.w6)
    && e.w7 == NewE(a.w3, e.w6, e.w5, e.w4, e.w3, k.w7, w.w7)
  }

  /** The working variables when these rows have just been worked through. */
  function VarsFrom(a: Row, e: Row): Vars {
    Vars(a.w7, a.w6, a.w5, a.w4, e.w7, e.w6, e.w5, e.w4)
  }

  lemma Constants(i: nat)
    requires i < 8
    ensures var t, k := 8 * i, K(i);
            && RoundConstant(t) == k.w0 && RoundConstant(t + 1) == k.w1 && RoundConstant(t + 2) == k.w2
            && RoundConstant(t + 3) == k.w3 && RoundConstant(t + 4) == k.w4 && RoundConstant(t + 5) == k.w5
            && RoundConstant(t + 6) == k.w6 && RoundConstant(t + 7) == k.w7
  {
    hide K, RoundConstant;
    Constant(i, 0);
    Constant(i, 1);
    Constant(i, 2);
    Constant(i, 3);
    Constant(i, 4);
    Constant(i, 5);
    Constant(i, 6);
    Constant(i, 7);
  }

  lemma Constant(i: nat, j: nat)
    requires i < 8 && j < 8
    ensures RoundConstant(8 * i + j) == Part(K(i), j)
  {
    hide K;
    assert (8 * i + j) / 8 == i && (8 * i + j) % 8 == j;
  }

  lemma NextRound(w: seq<Word>, t: nat, v: Vars)
    requires t < |w| == 64 && Rounds(VarsFrom(A0, E0), w, t) == v
    ensures var k := RoundConstant(t);
            Rounds(VarsFrom(A0, E0), w, t + 1) ==
              Vars(NewA(v.a, v.b, v.c, v.e, v.f, v.g, v.h, k, w[t]), v.a, v.b, v.c,
                   NewE(v.d, v.e, v.f, v.g, v.h, k, w[t]), v.e, v.f, v.g)
  {
    hide Add, AddFive, BigSigma0, BigSigma1, Ch, Maj, RoundConstant;
  }

  lemma EightRounds(w: seq<Word>, i: nat, p: Row, q: Row, a: Row, e: Row, r: Row)
    requires i < 8 && |w| == 64 && RowAt(w, 8 * i, r) && Rounds(VarsFrom(A0, E0), w, 8 * i) == VarsFrom(p, q)
    requires RowAOk(p, q, a, e, K(i), r) && RowEOk(p, q, a, e, K(i), r)
    ensures Rounds(VarsFrom(A0, E0), w, 8 * i + 8) == VarsFrom(a, e)
  {
    hide Rounds, NewA, NewE, RoundConstant, K;
    var t := 8 * i;
    Constants(i);
    NextRound(w, t, VarsFrom(p, q));
    NextRound(w, t + 1, Vars(a.w0, p.w7, p.w6, p.w5, e.w0, q.w7, q.w6, q.w5));
    NextRound(w, t + 2, Vars(a.w1, a.w0, p.w7, p.w6, e.w1, e.w0, q.w7, q.w6));
    NextRound(w, t + 3, Vars(a.w2, a.w1, a.w0, p.w7, e.w2, e.w1, e.w0, q.w7));
    NextRound(w, t + 4, Vars(a.w3, a.w2, a.w1, a.w0, e.w3, e.w2, e.w1, e.w0));
    NextRound(w, t + 5, Vars(a.w4, a.w3, a.w2, a.w1, e.w4, e.w3, e.w2, e.w1));
    NextRound(w, t + 6, Vars(a.w5, a.w4, a.w3, a.w2, e.w5, e.w4, e.w3, e.w2));
    NextRound(w, t + 7, Vars(a.w6, a.w5, a.w4, a.w3, e.w6, e.w5, e.w4, e.w3));
  }

  // ----- The block of the message -----

  lemma {:induction false} NothingLeft(i: nat)
    ensures ShiftBytes(0, i) == 0
  {
    if i > 0 {
      NothingLeft(i - 1);
    }
  }

  /** The length field of three bytes: 24 bits. */
  lemma LengthBytes()
    ensures BigEndian(24, 8) == Zeros(7) + [0x18]
  {
    hide BigEndian, LowByte;
    forall i | 0 <= i < 8 ensures BigEndian(24, 8)[i] == (Zeros(7) + [0x18])[i] {
      BigEndianByte(24, 8, 7 - i);
      ShiftedLength(7 - i);
      LowBytes();
    }
  }

  lemma ShiftedLength(i: nat)
    ensures ShiftBytes(24, i) == if i == 0 then 24 else 0
  {
    if i > 0 {
      NothingLeft(i - 1);
    }
  }

  lemma LowBytes()
    ensures LowByte(24) == 0x18 && LowByte(0) == 0
  {
  }

  lemma PaddedBlock()
    ensures Pad(ABC) == ABC + [0x80] + Zeros(59) + [0x18] && |Pad(ABC)| == 64
  {
    hide BigEndian;
    LengthBytes();
    assert PadZeros(3) == 52 && 8 * |ABC| % TWO_TO_64 == 24;
    assert Zeros(52) + (Zeros(7) + [0x18]) == Zeros(59) + [0x18];
  }

  lemma FirstWord(block: seq<Byte>, t: nat)
    requires |block| == 64 && t < 16
    ensures Schedule(block, 64)[t] == WordOf(block[4 * t], block[4 * t + 1], block[4 * t + 2], block[4 * t + 3])
  {
    hide WordOf;
    ScheduleRule(block, 64, t);
    hide Schedule;
  }

  lemma FirstRows(block: seq<Byte>)
    requires block == ABC + [0x80] + Zeros(59) + [0x18]
    ensures RowAt(Schedule(block, 64), 0, W0) && RowAt(Schedule(block, 64), 8, W1)
  {
    hide Schedule, WordOf;
    var w := Schedule(block, 64);
    forall t | 0 <= t < 16 ensures w[t] == if t == 0 then 0x61626380 else if t == 15 then 0x18 else 0 {
      FirstWord(block, t);
      assert block[4 * t + 3] == if t == 0 then 0x80 else if t == 15 then 0x18 else 0;
      KnownWords();
    }
  }

  lemma KnownWords()
    ensures WordOf(0x61, 0x62, 0x63, 0x80) == 0x61626380
    ensures WordOf(0, 0, 0, 0x18) == 0x18 && WordOf(0, 0, 0, 0) == 0
  {
  }

  // ----- The published words follow -----

  lemma Sums2()
    ensures SumsOk(W0, W1, W2)
  {
  }

  lemma Sums3()
    ensures SumsOk(W1, W2, W3)
  {
  }

  lemma Sums4()
    ensures SumsOk(W2, W3, W4)
  {
  }

  lemma Sums5()
    ensures SumsOk(W3, W4, W5)
  {
  }

  lemma Sums6()
    ensures SumsOk(W4, W5, W6)
  {
  }

  lemma Sums7()
    ensures SumsOk(W5, W6, W7)
  {
  }

  /** All 64 words of the schedule. */
  lemma ScheduleRows(block: seq<Byte>)
    requires block == ABC + [0x80] + Zeros(59) + [0x18]
    ensures var w := Schedule(block, 64);
            RowAt(w, 0, W0) && RowAt(w, 8, W1) && RowAt(w, 16, W2) && RowAt(w, 24, W3)
            && RowAt(w, 32, W4) && RowAt(w, 40, W5) && RowAt(w, 48, W6) && RowAt(w, 56, W7)
  {
    hide Schedule, RowAt, SumsOk;
    FirstRows(block);
    Sums2();
    EightWords(block, 16, W0, W1, W2);
    Sums3();
    EightWords(block, 24, W1, W2, W3);
    Sums4();
    EightWords(block, 32, W2, W3, W4);
    Sums5();
    EightWords(block, 40, W3, W4, W5);
    Sums6();
    EightWords(block, 48, W4, W5, W6);
    Sums7();
    EightWords(block, 56, W5, W6, W7);
  }

  /** All 64 rounds. */
  lemma AllRounds(w: seq<Word>)
    requires |w| == 64
    requires RowAt(w, 0, W0) && RowAt(w, 8, W1) && RowAt(w, 16, W2) && RowAt(w, 24, W3)
    requires RowAt(w, 32, W4) && RowAt(w, 40, W5) && RowAt(w, 48, W6) && RowAt(w, 56, W7)
    ensures Rounds(VarsFrom(A0, E0), w, 64) == VarsFrom(A8, E8)
  {
    NoRounds(w);
    hide Rounds, RowAt, VarsFrom;
    Rounds0(w);
    Rounds1(w);
    Rounds2(w);
    Rounds3(w);
    Rounds4(w);
    Rounds5(w);
    Rounds6(w);
    Rounds7(w);
  }

  lemma Rounds0(w: seq<Word>)
    requires |w| == 64 && RowAt(w, 0, W0) && Rounds(VarsFrom(A0, E0), w, 0) == VarsFrom(A0, E0)
    ensures Rounds(VarsFrom(A0, E0), w, 8) == VarsFrom(A1, E1)
  {
    hide Rounds, RowAt, VarsFrom;
    assert RowAOk(A0, E0, A1, E1, K(0), W0);
    assert RowEOk(A0, E0, A1, E1, K(0), W0);
    EightRounds(w, 0, A0, E0, A1, E1, W0);
  }

  lemma Rounds1(w: seq<Word>)
    requires |w| == 64 && RowAt(w, 8, W1) && Rounds(VarsFrom(A0, E0), w, 8) == VarsFrom(A1, E1)
    ensures Rounds(VarsFrom(A0, E0), w, 16) == VarsFrom(A2, E2)
  {
    hide Rounds, RowAt, VarsFrom;
    assert RowAOk(A1, E1, A2, E2, K(1), W1);
    assert RowEOk(A1, E1, A2, E2, K(1), W1);
    EightRounds(w, 1, A1, E1, A2, E2, W1);
  }

  lemma Rounds2(w: seq<Word>)
    requires |w| == 64 && RowAt(w, 16, W2) && Rounds(VarsFrom(A0, E0), w, 16) == VarsFrom(A2, E2)
    ensures Rounds(VarsFrom(A0, E0), w, 24) == VarsFrom(A3, E3)
  {
    hide Rounds, RowAt, VarsFrom;
    assert RowAOk(A2, E2, A3, E3, K(2), W2);
    assert RowEOk(A2, E2, A3, E3, K(2), W2);
    EightRounds(w, 2, A2, E2, A3, E3, W2);
  }

  lemma Rounds3(w: seq<Word>)
    requires |w| == 64 && RowAt(w, 24, W3) && Rounds(VarsFrom(A0, E0), w, 24) == VarsFrom(A3, E3)
    ensures Rounds(VarsFrom(A0, E0), w, 32) == VarsFrom(A4, E4)
  {
    hide Rounds, RowAt, VarsFrom;
    assert RowAOk(A3, E3, A4, E4, K(3), W3);
    assert RowEOk(A3, E3, A4, E4, K(3), W3);
    EightRounds(w, 3, A3, E3, A4, E4, W3);
  }

  lemma Rounds4(w: seq<Word>)
    requires |w| == 64 && RowAt(w, 32, W4) && Rounds(VarsFrom(A0, E0), w, 32) == VarsFrom(A4, E4)
    ensures Rounds(VarsFrom(A0, E0), w, 40) == VarsFrom(A5, E5)
  {
    hide Rounds, RowAt, VarsFrom;
    assert RowAOk(A4, E4, A5, E5, K(4), W4);
    assert RowEOk(A4, E4, A5, E5, K(4), W4);
    EightRounds(w, 4, A4, E4, A5, E5, W4);
  }

  lemma Rounds5(w: seq<Word>)
    requires |w| == 64 && RowAt(w, 40, W5) && Rounds(VarsFrom(A0, E0), w, 40) == VarsFrom(A5, E5)
    ensures Rounds(VarsFrom(A0, E0), w, 48) == VarsFrom(A6, E6)
  {
    hide Rounds, RowAt, VarsFrom;
    assert RowAOk(A5, E5, A6, E6, K(5), W5);
    assert RowEOk(A5, E5, A6, E6, K(5), W5);
    EightRounds(w, 5, A5, E5, A6, E6, W5);
  }

  lemma Rounds6(w: seq<Word>)
    requires |w| == 64 && RowAt(w, 48, W6) && Rounds(VarsFrom(A0, E0), w, 48) == VarsFrom(A6, E6)
    ensures Rounds(VarsFrom(A0, E0), w, 56) == VarsFrom(A7, E7)
  {
    hide Rounds, RowAt, VarsFrom;
    assert RowAOk(A6, E6, A7, E7, K(6), W6);
    assert RowEOk(A6, E6, A7, E7, K(6), W6);
    EightRounds(w, 6, A6, E6, A7, E7, W6);
  }

  lemma Rounds7(w: seq<Word>)
    requires |w| == 64 && RowAt(w, 56, W7) && Rounds(VarsFrom(A0, E0), w, 56) == VarsFrom(A7, E7)
    ensures Rounds(VarsFrom(A0, E0), w, 64) == VarsFrom(A8, E8)
  {
    hide Rounds, RowAt, VarsFrom;
    assert RowAOk(A7, E7, A8, E8, K(7), W7);
    assert RowEOk(A7, E7, A8, E8, K(7), W7);
    EightRounds(w, 7, A7, E7, A8, E8, W7);
  }

  lemma NoRounds(w: seq<Word>)
    requires |w| == 64
    ensures Rounds(VarsFrom(A0, E0), w, 0) == VarsFrom(A0, E0)
  {
  }

  lemma InitialRows()
    ensures VarsOf(INITIAL) == VarsFrom(A0, E0) && AddVars(INITIAL, VarsFrom(A8, E8)) == DIGEST_WORDS
  {
  }

  /** The hash of the message is the published one. */
  lemma HashOfAbc()
    ensures |Pad(ABC)| == 64 && HashBlocks(INITIAL, Pad(ABC)) == DIGEST_WORDS
  {
    PaddedBlock();
    hide Schedule, Rounds, Pad, AddVars, VarsFrom, VarsOf, RowAt;
    var block := Pad(ABC);
    ScheduleRows(block);
    AllRounds(Schedule(block, 64));
    InitialRows();
    assert Compress(INITIAL, block) == DIGEST_WORDS;
    hide Compress;
    OneBlock(block);
  }

  lemma OneBlock(block: seq<Byte>)
    requires |block| == 64
    ensures HashBlocks(INITIAL, block) == Compress(INITIAL, block)
  {
    hide Compress;
    HashBlocksLast(INITIAL, [], block);
    assert [] + block == block;
  }

  /** Its digest begins with the bytes ba and 78. */
  lemma DigestOfAbc()
    ensures Sha256(ABC)[0] == 0xba && Sha256(ABC)[1] == 0x78
  {
    hide HashBlocks, Pad, WordByte;
    HashOfAbc();
    FirstBytesOf();
  }

  lemma FirstBytesOf()
    ensures WordByte(0xba7816bf, 0) == 0xba && WordByte(0xba7816bf, 1) == 0x78
  {
  }
}
