/** One run of the hash with all its values, on the line that the unit tests of src/digest.rs hash. */
module Sha1Vector {
  import opened Text
  import opened Fips180
  import opened Sha1

  /** The bytes of "That'ssomegoodhamrightthere". */
  const LINE: seq<byte> := [0x54, 0x68, 0x61, 0x74, 0x27, 0x73, 0x73, 0x6f, 0x6d, 0x65, 0x67, 0x6f, 0x6f, 0x64,
                            0x68, 0x61, 0x6d, 0x72, 0x69, 0x67, 0x68, 0x74, 0x74, 0x68, 0x65, 0x72, 0x65]

  /** Sixteen words in a row. */
  datatype Words = Words(w0: bv32, w1: bv32, w2: bv32, w3: bv32, w4: bv32, w5: bv32, w6: bv32, w7: bv32,
                         w8: bv32, w9: bv32, w10: bv32, w11: bv32, w12: bv32, w13: bv32, w14: bv32, w15: bv32)

  /** The next sixteen words of the schedule. */
  function Following(s: Words): Words {
    var v0 := Expand(s.w13, s.w8, s.w2, s.w0);
    var v1 := Expand(s.w14, s.w9, s.w3, s.w1);
    var v2 := Expand(s.w15, s.w10, s.w4, s.w2);
    var v3 := Expand(v0, s.w11, s.w5, s.w3);
    var v4 := Expand(v1, s.w12, s.w6, s.w4);
    var v5 := Expand(v2, s.w13, s.w7, s.w5);
    var v6 := Expand(v3, s.w14, s.w8, s.w6);
    var v7 := Expand(v4, s.w15, s.w9, s.w7);
    var v8 := Expand(v5, v0, s.w10, s.w8);
    var v9 := Expand(v6, v1, s.w11, s.w9);
    var v10 := Expand(v7, v2, s.w12, s.w10);
    var v11 := Expand(v8, v3, s.w13, s.w11);
    var v12 := Expand(v9, v4, s.w14, s.w12);
    var v13 := Expand(v10, v5, s.w15, s.w13);
    var v14 := Expand(v11, v6, v0, s.w14);
    var v15 := Expand(v12, v7, v1, s.w15);
    Words(v0, v1, v2, v3, v4, v5, v6, v7, v8, v9, v10, v11, v12, v13, v14, v15)
  }

  predicate Scheduled(block: seq<byte>, t: nat, s: Words)
    requires |block| == 64
  {
    && Schedule(block, t) == s.w0 && Schedule(block, t + 1) == s.w1 && Schedule(block, t + 2) == s.w2
    && Schedule(block, t + 3) == s.w3 && Schedule(block, t + 4) == s.w4 && Schedule(block, t + 5) == s.w5
    && Schedule(block, t + 6) == s.w6 && Schedule(block, t + 7) == s.w7 && Schedule(block, t + 8) == s.w8
    && Schedule(block, t + 9) == s.w9 && Schedule(block, t + 10) == s.w10 && Schedule(block, t + 11) == s.w11
    && Schedule(block, t + 12) == s.w12 && Schedule(block, t + 13) == s.w13 && Schedule(block, t + 14) == s.w14
    && Schedule(block, t + 15) == s.w15
  }

  lemma NextWords(block: seq<byte>, t: nat, s: Words)
    requires |block| == 64 && Scheduled(block, t, s)
    ensures Scheduled(block, t + 16, Following(s))
  {
    hide Expand, Schedule;
    EarlyNext(block, t, s);
    ScheduleNext(block, t + 24);
    ScheduleNext(block, t + 25);
    ScheduleNext(block, t + 26);
    ScheduleNext(block, t + 27);
    ScheduleNext(block, t + 28);
    ScheduleNext(block, t + 29);
    ScheduleNext(block, t + 30);
    ScheduleNext(block, t + 31);
  }

  lemma EarlyNext(block: seq<byte>, t: nat, s: Words)
    requires |block| == 64 && Scheduled(block, t, s)
    ensures
      var f := Following(s);
      && Schedule(block, t + 16) == f.w0 && Schedule(block, t + 17) == f.w1 && Schedule(block, t + 18) == f.w2
      && Schedule(block, t + 19) == f.w3 && Schedule(block, t + 20) == f.w4 && Schedule(block, t + 21) == f.w5
      && Schedule(block, t + 22) == f.w6 && Schedule(block, t + 23) == f.w7
  {
    hide Expand, Schedule;
    ScheduleNext(block, t + 16);
    ScheduleNext(block, t + 17);
    ScheduleNext(block, t + 18);
    ScheduleNext(block, t + 19);
    ScheduleNext(block, t + 20);
    ScheduleNext(block, t + 21);
    ScheduleNext(block, t + 22);
    ScheduleNext(block, t + 23);
  }

  lemma ScheduleNext(block: seq<byte>, t: nat)
    requires |block| == 64 && t >= 16
    ensures Schedule(block, t)
         == Expand(Schedule(block, t - 3), Schedule(block, t - 8), Schedule(block, t - 14), Schedule(block, t - 16))
  {
    hide Expand;
  }

  /** Eight rounds with given words. */
  function EightRounds(s: State, t: nat, w0: bv32, w1: bv32, w2: bv32, w3: bv32, w4: bv32, w5: bv32, w6: bv32, w7: bv32)
    : State
  {
    var s1 := Round(s, t, w0);
    var s2 := Round(s1, t + 1, w1);
    var s3 := Round(s2, t + 2, w2);
    var s4 := Round(s3, t + 3, w3);
    var s5 := Round(s4, t + 4, w4);
    var s6 := Round(s5, t + 5, w5);
    var s7 := Round(s6, t + 6, w6);
    Round(s7, t + 7, w7)
  }

  function FirstRounds(s: State, t: nat, w: Words): State {
    EightRounds(s, t, w.w0, w.w1, w.w2, w.w3, w.w4, w.w5, w.w6, w.w7)
  }

  function LastRounds(s: State, t: nat, w: Words): State {
    EightRounds(s, t + 8, w.w8, w.w9, w.w10, w.w11, w.w12, w.w13, w.w14, w.w15)
  }

  lemma SixteenRounds(h: State, block: seq<byte>, t: nat, w: Words)
    requires |block| == 64 && Scheduled(block, t, w)
    ensures Rounds(h, block, t + 16) == LastRounds(FirstRounds(Rounds(h, block, t), t, w), t, w)
  {
    hide Rounds, Schedule, EightRounds;
    EightMore(h, block, t, w.w0, w.w1, w.w2, w.w3, w.w4, w.w5, w.w6, w.w7);
    EightMore(h, block, t + 8, w.w8, w.w9, w.w10, w.w11, w.w12, w.w13, w.w14, w.w15);
  }

  lemma EightMore(h: State, block: seq<byte>, t: nat, w0: bv32, w1: bv32, w2: bv32, w3: bv32, w4: bv32, w5: bv32, w6: bv32,
                  w7: bv32)
    requires |block| == 64
    requires Schedule(block, t) == w0 && Schedule(block, t + 1) == w1 && Schedule(block, t + 2) == w2
    requires Schedule(block, t + 3) == w3 && Schedule(block, t + 4) == w4 && Schedule(block, t + 5) == w5
    requires Schedule(block, t + 6) == w6 && Schedule(block, t + 7) == w7
    ensures Rounds(h, block, t + 8) == EightRounds(Rounds(h, block, t), t, w0, w1, w2, w3, w4, w5, w6, w7)
  {
    hide Rounds, Round, Schedule;
    OneMore(h, block, t);
    OneMore(h, block, t + 1);
    OneMore(h, block, t + 2);
    OneMore(h, block, t + 3);
    OneMore(h, block, t + 4);
    OneMore(h, block, t + 5);
    OneMore(h, block, t + 6);
    OneMore(h, block, t + 7);
  }

  lemma OneMore(h: State, block: seq<byte>, t: nat)
    requires |block| == 64
    ensures Rounds(h, block, t + 1) == Round(Rounds(h, block, t), t, Schedule(block, t))
  {
    hide Round, Schedule;
  }

  const W0: Words := Words(
    0x5468_6174, 0x2773_736f, 0x6d65_676f, 0x6f64_6861,
    0x6d72_6967, 0x6874_7468, 0x6572_6580, 0x0000_0000,
    0x0000_0000, 0x0000_0000, 0x0000_0000, 0x0000_0000,
    0x0000_0000, 0x0000_0000, 0x0000_0000, 0x0000_00d8)
  const W1: Words := Words(
    0x721a_0c36, 0x902e_361c, 0x002e_1da0, 0xea14_207e,
    0x305c_75f7, 0xd0b4_d390, 0x1ecc_8bfd, 0x60b8_ea5e,
    0x455d_bf4d, 0x1dc5_7bc3, 0xc12d_effc, 0x5e93_3e67,
    0x5b32_1c68, 0x2332_7968, 0x648b_7358, 0x5749_81e5)
  const W2: Words := Words(
    0x28b7_af66, 0x06e8_3df2, 0x4c2c_0c9d, 0x9908_c5de,
    0xe695_bf20, 0xbe24_9877, 0x4c25_046d, 0x9943_5eb1,
    0x25c6_cf40, 0x1336_f876, 0x9ee1_4370, 0x82de_9b23,
    0x9434_50cd, 0xa97c_4714, 0x058e_86e1, 0xb9ad_64d6)
  const W3: Words := Words(
    0xd042_575f, 0x12b1_0d77, 0x1beb_2837, 0xeb61_23aa,
    0x586b_cdee, 0x2be1_53cb, 0x0e18_dccd, 0xd766_1ffe,
    0x8109_1148, 0x1a83_65df, 0x8cb0_48e9, 0x8395_ddaa,
    0xa6a4_fc3b, 0x6f00_71c1, 0xb083_a1b2, 0xb5bd_14c9)
  const W4: Words := Words(
    0x4b40_3fc2, 0xa7a1_d560, 0xf51b_73f2, 0x10ab_2412,
    0xaeec_70f0, 0xcd38_9c0c, 0x5e72_904a, 0xad68_3c31,
    0x1783_f4df, 0xc18b_fabe, 0xe4cf_f622, 0xd77a_f94d,
    0xf281_af8e, 0xe694_1e4d, 0xe597_eeee, 0x9bea_a42c)

  const S0: State := State(0x6745_2301, 0xefcd_ab89, 0x98ba_dcfe, 0x1032_5476, 0xc3d2_e1f0)
  const S8: State := State(0xe600_35fa, 0xde24_5d81, 0x11f4_da1f, 0x2994_c924, 0x8ff1_16a0)
  const S16: State := State(0x826d_5c3c, 0x17b6_ea5f, 0x5706_40f7, 0xb444_c7b3, 0xd397_eeac)
  const S24: State := State(0x7938_1188, 0x4322_e35a, 0x4e43_8e00, 0xc3a0_8a96, 0x4def_2460)
  const S32: State := State(0xe7c1_6b3a, 0xd10c_65a0, 0x4a90_1248, 0xf6c1_05c9, 0x0b23_29bc)
  const S40: State := State(0x7e92_576d, 0x3d7f_5f4c, 0xc36f_568c, 0xa5dd_105f, 0xdf15_e7ad)
  const S48: State := State(0xe0d8_198d, 0xede4_9bf2, 0x36ab_8746, 0x915e_4fc7, 0x3bfd_25db)
  const S56: State := State(0xc212_a6b5, 0x17b4_f0c2, 0x25ba_8b4a, 0xd856_6332, 0xc14b_d58b)
  const S64: State := State(0xc289_1b18, 0xa22e_a7bc, 0xf496_ae3d, 0xe1ad_a02b, 0x5a2f_57fa)
  const S72: State := State(0x0da3_0b68, 0xb17b_5c47, 0x18e1_f29a, 0x4d47_13ab, 0x6d05_6af4)
  const S80: State := State(0xa6bc_b2b7, 0x2730_b516, 0x005a_9985, 0x3d82_85c6, 0x5458_ed06)

  lemma WordsFollow()
    ensures Following(W0) == W1 && Following(W1) == W2 && Following(W2) == W3 && Following(W3) == W4
  {
  }

  lemma EarlyRounds()
    ensures FirstRounds(S0, 0, W0) == S8 && LastRounds(S8, 0, W0) == S16
  {
  }

  lemma SecondRounds()
    ensures FirstRounds(S16, 16, W1) == S24 && LastRounds(S24, 16, W1) == S32
  {
  }

  lemma ThirdRounds()
    ensures FirstRounds(S32, 32, W2) == S40 && LastRounds(S40, 32, W2) == S48
  {
  }

  lemma FourthRounds()
    ensures FirstRounds(S48, 48, W3) == S56 && LastRounds(S56, 48, W3) == S64
  {
  }

  lemma FifthRounds()
    ensures FirstRounds(S64, 64, W4) == S72 && LastRounds(S72, 64, W4) == S80
  {
  }

  lemma ZerosAfter()
    ensures ZeroBytes(27) == 28
  {
  }

  lemma LengthBytes()
    ensures BigEndian(216, 8) == [0, 0, 0, 0, 0, 0, 0, 216]
  {
    assert BigEndian(0, 7) == [0, 0, 0, 0, 0, 0, 0];
  }

  /** The one block: the text, the bit 1, zeros, and the length in bits. */
  lemma Block(k: nat)
    requires k < 64
    ensures |Pad(LINE)| == 64
    ensures Pad(LINE)[k] == if k < 27 then LINE[k] else if k == 27 then 0x80 else if k == 63 then 216 else 0
  {
    hide BigEndian, Fill, ZeroBytes;
    ZerosAfter();
    LengthBytes();
  }

  lemma TextWord(t: nat)
    requires t < 7
    ensures |Pad(LINE)| == 64
    ensures
      var s := LINE + [0x80];
      Word(Pad(LINE), t) == FromBigEndian(s[4 * t], s[4 * t + 1], s[4 * t + 2], s[4 * t + 3])
  {
    hide Pad, FromBigEndian;
    Block(4 * t);
    Block(4 * t + 1);
    Block(4 * t + 2);
    Block(4 * t + 3);
  }

  lemma TextWords()
    ensures |Pad(LINE)| == 64
    ensures var b := Pad(LINE);
      && Word(b, 0) == W0.w0 && Word(b, 1) == W0.w1 && Word(b, 2) == W0.w2 && Word(b, 3) == W0.w3
      && Word(b, 4) == W0.w4 && Word(b, 5) == W0.w5 && Word(b, 6) == W0.w6
  {
    hide Pad, Word, FromBigEndian;
    LineWords();
    TextWord(0);
    TextWord(1);
    TextWord(2);
    TextWord(3);
    TextWord(4);
    TextWord(5);
    TextWord(6);
  }

  lemma LineWords()
    ensures FromBigEndian(0x54, 0x68, 0x61, 0x74) == W0.w0
    ensures FromBigEndian(0x27, 0x73, 0x73, 0x6f) == W0.w1
    ensures FromBigEndian(0x6d, 0x65, 0x67, 0x6f) == W0.w2
    ensures FromBigEndian(0x6f, 0x64, 0x68, 0x61) == W0.w3
    ensures FromBigEndian(0x6d, 0x72, 0x69, 0x67) == W0.w4
    ensures FromBigEndian(0x68, 0x74, 0x74, 0x68) == W0.w5
    ensures FromBigEndian(0x65, 0x72, 0x65, 0x80) == W0.w6
  {
  }

  lemma ZeroWord(t: nat)
    requires 7 <= t < 15
    ensures |Pad(LINE)| == 64 && Word(Pad(LINE), t) == 0
  {
    hide Pad;
    Block(4 * t);
    Block(4 * t + 1);
    Block(4 * t + 2);
    Block(4 * t + 3);
  }

  lemma LengthWord()
    ensures |Pad(LINE)| == 64 && Word(Pad(LINE), 15) == W0.w15
  {
    hide Pad;
    Block(60);
    Block(61);
    Block(62);
    Block(63);
  }

  lemma FirstWords()
    ensures |Pad(LINE)| == 64 && Scheduled(Pad(LINE), 0, W0)
  {
    hide Pad, Word;
    TextWords();
    ZeroWord(7);
    ZeroWord(8);
    ZeroWord(9);
    ZeroWord(10);
    ZeroWord(11);
    ZeroWord(12);
    ZeroWord(13);
    ZeroWord(14);
    LengthWord();
  }

  lemma AllRounds()
    ensures |Pad(LINE)| == 64 && Rounds(S0, Pad(LINE), 80) == S80
  {
    hide Pad, Scheduled, Following, FirstRounds, LastRounds, Rounds;
    var b := Pad(LINE);
    FirstWords();
    NextWords(b, 0, W0);
    WordsFollow();
    NextWords(b, 16, W1);
    NextWords(b, 32, W2);
    NextWords(b, 48, W3);
    NoRounds(b);
    SixteenRounds(S0, b, 0, W0);
    EarlyRounds();
    SixteenRounds(S0, b, 16, W1);
    SecondRounds();
    SixteenRounds(S0, b, 32, W2);
    ThirdRounds();
    SixteenRounds(S0, b, 48, W3);
    FourthRounds();
    SixteenRounds(S0, b, 64, W4);
    FifthRounds();
  }

  lemma NoRounds(block: seq<byte>)
    requires |block| == 64
    ensures Rounds(S0, block, 0) == S0
  {
  }

  lemma OneBlock(m: seq<byte>)
    requires |m| == 64
    ensures HashBlocks(m, 1) == HashBlock(INITIAL, m)
  {
    hide HashBlock;
    assert m[0..64] == m;
  }

  const DIGEST: seq<byte> := [0x0e, 0x01, 0xd5, 0xb8, 0x16, 0xfe, 0x60, 0x9f, 0x99, 0x15,
                              0x76, 0x83, 0x4d, 0xb4, 0xda, 0x3c, 0x18, 0x2b, 0xce, 0xf6]

  lemma FinalWords()
    ensures State(Add(S0.a, S80.a), Add(S0.b, S80.b), Add(S0.c, S80.c), Add(S0.d, S80.d), Add(S0.e, S80.e))
         == State(0x0e01_d5b8, 0x16fe_609f, 0x9915_7683, 0x4db4_da3c, 0x182b_cef6)
  {
  }

  lemma DigestBytes()
    ensures WordBytes(0x0e01_d5b8) + WordBytes(0x16fe_609f) + WordBytes(0x9915_7683)
            + WordBytes(0x4db4_da3c) + WordBytes(0x182b_cef6)
         == DIGEST
  {
  }

  /** Its hash. */
  lemma LineHash()
    ensures Hash(LINE) == DIGEST
  {
    hide Pad, Rounds, WordBytes, Add;
    AllRounds();
    OneBlock(Pad(LINE));
    FinalWords();
    DigestBytes();
  }

  lemma {:induction false} HexAppend(a: seq<byte>, b: seq<byte>)
    ensures HexText(a + b) == HexText(a) + HexText(b)
  {
    if a == [] {
      assert a + b == b;
    } else {
      assert (a + b)[1..] == a[1..] + b;
      HexAppend(a[1..], b);
    }
  }

  lemma FourDigits(a: byte, b: byte)
    ensures HexText([a, b]) == [TABLE[a / 16], TABLE[a % 16], TABLE[b / 16], TABLE[b % 16]]
  {
    assert [a, b][1..] == [b] && [b][1..] == [];
    assert HexText([b]) == [TABLE[b / 16], TABLE[b % 16]] + HexText([]);
  }

  lemma EightDigits(a: byte, b: byte, c: byte, d: byte)
    ensures HexText([a, b, c, d])
         == [TABLE[a / 16], TABLE[a % 16], TABLE[b / 16], TABLE[b % 16]]
            + [TABLE[c / 16], TABLE[c % 16], TABLE[d / 16], TABLE[d % 16]]
  {
    hide HexText;
    HexAppend([a, b], [c, d]);
    FourDigits(a, b);
    FourDigits(c, d);
    assert [a, b] + [c, d] == [a, b, c, d];
  }

  lemma FirstDigits()
    ensures HexText([0x0e, 0x01, 0xd5, 0xb8]) == "0e01d5b8"
    ensures HexText([0x16, 0xfe, 0x60, 0x9f]) == "16fe609f"
  {
    hide HexText;
    EightDigits(0x0e, 0x01, 0xd5, 0xb8);
    EightDigits(0x16, 0xfe, 0x60, 0x9f);
  }

  lemma MiddleDigits()
    ensures HexText([0x99, 0x15, 0x76, 0x83]) == "99157683"
  {
    hide HexText;
    EightDigits(0x99, 0x15, 0x76, 0x83);
  }

  lemma LastDigits()
    ensures HexText([0x4d, 0xb4, 0xda, 0x3c]) == "4db4da3c"
    ensures HexText([0x18, 0x2b, 0xce, 0xf6]) == "182bcef6"
  {
    hide HexText;
    EightDigits(0x4d, 0xb4, 0xda, 0x3c);
    EightDigits(0x18, 0x2b, 0xce, 0xf6);
  }

  /** Its hash, as text. */
  lemma LineDigest()
    ensures HexText(Hash(LINE)) == "0e01d5b816fe609f99157683" + "4db4da3c182bcef6"
  {
    hide Hash, HexText, DIGEST;
    LineHash();
    FirstDigits();
    MiddleDigits();
    LastDigits();
    DigestPieces();
    assert "0e01d5b8" + "16fe609f" + "99157683" == "0e01d5b816fe609f99157683";
    assert "4db4da3c" + "182bcef6" == "4db4da3c182bcef6";
  }

  lemma DigestPieces()
    ensures
      HexText(DIGEST)
      == HexText([0x0e, 0x01, 0xd5, 0xb8]) + HexText([0x16, 0xfe, 0x60, 0x9f]) + HexText([0x99, 0x15, 0x76, 0x83])
         + (HexText([0x4d, 0xb4, 0xda, 0x3c]) + HexText([0x18, 0x2b, 0xce, 0xf6]))
  {
    hide HexText;
    var a, b, c, d, e := [0x0e, 0x01, 0xd5, 0xb8],
                         [0x16, 0xfe, 0x60, 0x9f],
                         [0x99, 0x15, 0x76, 0x83],
                         [0x4d, 0xb4, 0xda, 0x3c],
                         [0x18, 0x2b, 0xce, 0xf6];
    HexAppend(a, b);
    HexAppend(a + b, c);
    HexAppend(a + b + c, d + e);
    HexAppend(d, e);
    assert DIGEST == a + b + c + (d + e);
  }
}
