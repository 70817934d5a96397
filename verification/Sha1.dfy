/** SHA-1 as sections 4 to 6 of FIPS 180-4 define it. */
module Fips180 {
  import opened Text

  // section 4.1.1
  function Ch(x: bv32, y: bv32, z: bv32): bv32 {
    (x & y) ^ (!x & z)
  }

  function Parity(x: bv32, y: bv32, z: bv32): bv32 {
    x ^ y ^ z
  }

  function Maj(x: bv32, y: bv32, z: bv32): bv32 {
    (x & y) ^ (x & z) ^ (y & z)
  }

  function F(t: nat, x: bv32, y: bv32, z: bv32): bv32 {
    if t < 20 then Ch(x, y, z)
    else if t < 40 then Parity(x, y, z)
    else if t < 60 then Maj(x, y, z)
    else Parity(x, y, z)
  }

  // section 4.2.1
  function K(t: nat): bv32 {
    if t < 20 then 0x5a82_7999
    else if t < 40 then 0x6ed9_eba1
    else if t < 60 then 0x8f1b_bcdc
    else 0xca62_c1d6
  }

  /** `k` zero bytes after `n` bytes and the 0x80 leave exactly eight bytes of a block. */
  predicate LeavesEight(n: nat, k: nat) {
    (n + 1 + k) % 64 == 56
  }

  /** The number of zero bytes of section 5.1.1: the fewest that leave eight bytes of the last block. */
  function ZeroBytes(n: nat): (k: nat)
    ensures LeavesEight(n, k)
    ensures forall j: nat | j < k :: !LeavesEight(n, j)
  {
    (119 - n % 64) % 64
  }

  function BigEndian(x: nat, width: nat): (b: seq<byte>)
    ensures |b| == width
  {
    if width == 0 then [] else BigEndian(x / 256, width - 1) + [x % 256]
  }

  function Fill(n: nat): (b: seq<byte>)
    ensures |b| == n && forall k | 0 <= k < n :: b[k] == 0
  {
    seq(n, _ => 0)
  }

  // section 5.1.1
  function Pad(m: seq<byte>): (p: seq<byte>)
    ensures |p| % 64 == 0
  {
    WholeBlocks(|m|, ZeroBytes(|m|));
    m + [0x80] + Fill(ZeroBytes(|m|)) + BigEndian(8 * |m|, 8)
  }

  lemma WholeBlocks(n: nat, k: nat)
    requires LeavesEight(n, k)
    ensures (n + 1 + k + 8) % 64 == 0
  {
  }

  datatype State = State(a: bv32, b: bv32, c: bv32, d: bv32, e: bv32)

  // section 5.3.1
  const INITIAL: State := State(0x6745_2301, 0xefcd_ab89, 0x98ba_dcfe, 0x1032_5476, 0xc3d2_e1f0)

  function FromBigEndian(b0: byte, b1: byte, b2: byte, b3: byte): bv32 {
    ((b0 as bv32) << 24) | ((b1 as bv32) << 16) | ((b2 as bv32) << 8) | (b3 as bv32)
  }

  function Word(block: seq<byte>, t: nat): bv32
    requires |block| == 64 && t < 16
  {
    FromBigEndian(block[4 * t], block[4 * t + 1], block[4 * t + 2], block[4 * t + 3])
  }

  function Expand(w3: bv32, w8: bv32, w14: bv32, w16: bv32): bv32 {
    (w3 ^ w8 ^ w14 ^ w16).RotateLeft(1)
  }

  // section 6.1.2, step 1
  function Schedule(block: seq<byte>, t: nat): bv32
    requires |block| == 64
  {
    if t < 16 then Word(block, t)
    else
      Expand(Schedule(block, t - 3), Schedule(block, t - 8), Schedule(block, t - 14), Schedule(block, t - 16))
  }

  // section 6.1.2, step 3
  // section 3.2: rotation and addition modulo 2^32
  function Rotl30(x: bv32): bv32 {
    x.RotateLeft(30)
  }

  function Add(x: bv32, y: bv32): bv32 {
    x + y
  }

  function Mix(a: bv32, f: bv32, e: bv32, k: bv32, w: bv32): bv32 {
    a.RotateLeft(5) + f + e + k + w
  }

  function Round(s: State, t: nat, w: bv32): State {
    State(Mix(s.a, F(t, s.b, s.c, s.d), s.e, K(t), w), s.a, Rotl30(s.b), s.c, s.d)
  }

  function Rounds(h: State, block: seq<byte>, t: nat): State
    requires |block| == 64
  {
    if t == 0 then h else Round(Rounds(h, block, t - 1), t - 1, Schedule(block, t - 1))
  }

  // section 6.1.2, steps 2 and 4
  function HashBlock(h: State, block: seq<byte>): State
    requires |block| == 64
  {
    var s := Rounds(h, block, 80);
    State(Add(h.a, s.a), Add(h.b, s.b), Add(h.c, s.c), Add(h.d, s.d), Add(h.e, s.e))
  }

  function HashBlocks(m: seq<byte>, n: nat): State
    requires 64 * n <= |m|
  {
    if n == 0 then INITIAL else HashBlock(HashBlocks(m, n - 1), m[64 * (n - 1)..64 * n])
  }

  function LowByte(w: bv32): byte {
    ((w & 0xff) as bv8) as int
  }

  function WordBytes(w: bv32): (b: seq<byte>)
    ensures |b| == 4
  {
    [LowByte(w >> 24), LowByte(w >> 16), LowByte(w >> 8), LowByte(w)]
  }

  function Hash(m: seq<byte>): (d: seq<byte>)
    ensures |d| == 20
  {
    var p := Pad(m);
    var h := HashBlocks(p, |p| / 64);
    WordBytes(h.a) + WordBytes(h.b) + WordBytes(h.c) + WordBytes(h.d) + WordBytes(h.e)
  }

  /** The padded message is the least whole number of blocks with room for nine more bytes. */
  lemma PaddedLength(m: seq<byte>)
    ensures |Pad(m)| == 64 * ((|m| + 9 + 63) / 64)
  {
    hide ZeroBytes, Fill, BigEndian;
    BlocksNeeded(|m|);
  }

  lemma BlocksNeeded(n: nat)
    ensures n + 1 + ZeroBytes(n) + 8 == 64 * ((n + 9 + 63) / 64)
  {
    var q, r := n / 64, n % 64;
    assert (n + 72) / 64 == q + (r + 72) / 64;
  }

  function Power256(n: nat): (p: nat)
    ensures p > 0
  {
    if n == 0 then 1 else 256 * Power256(n - 1)
  }

  lemma {:induction false} BigEndianInjective(x: nat, y: nat, width: nat)
    requires x < Power256(width) && y < Power256(width)
    requires BigEndian(x, width) == BigEndian(y, width)
    ensures x == y
  {
    if width > 0 {
      var a, b := BigEndian(x / 256, width - 1), BigEndian(y / 256, width - 1);
      assert a == BigEndian(x, width)[..width - 1] && b == BigEndian(y, width)[..width - 1];
      assert x % 256 == BigEndian(x, width)[width - 1];
      assert y % 256 == BigEndian(y, width)[width - 1];
      BigEndianInjective(x / 256, y / 256, width - 1);
    }
  }

  lemma Multiples(d: int, p: int)
    requires p >= 0
    ensures d >= 1 ==> d * p >= p
    ensures d <= -1 ==> d * p <= -p
  {
  }

  lemma ModUnique(q: nat, p: nat, s: nat)
    requires s < p
    ensures (q * p + s) % p == s
  {
    var x := q * p + s;
    var d, m := x / p - q, x % p;
    assert d * p == x / p * p - q * p;
    Multiples(d, p);
    assert d * p + m == s;
  }

  lemma DropByte(x: nat, p: nat)
    requires p > 0
    ensures x % (256 * p) / 256 == x / 256 % p && x % (256 * p) % 256 == x % 256
  {
    var m := 256 * p;
    Quotient(x, m);
    RemainderBytes(x, p, m, x / m, x % m);
  }

  lemma Quotient(x: nat, m: nat)
    requires m > 0
    ensures x == x / m * m + x % m && 0 <= x / m && 0 <= x % m < m
  {
  }

  lemma Regroup(q: nat, p: nat)
    ensures q * (256 * p) == 256 * (q * p)
  {
  }

  lemma RemainderBytes(x: nat, p: nat, m: nat, q: nat, r: nat)
    requires p > 0 && m == 256 * p && x == q * m + r && r < m
    ensures r / 256 == x / 256 % p && r % 256 == x % 256
  {
    Regroup(q, p);
    ByteAbove(q * p, r);
    ModUnique(q, p, r / 256);
  }

  lemma ByteAbove(k: nat, r: nat)
    ensures (256 * k + r) / 256 == k + r / 256 && (256 * k + r) % 256 == r % 256
  {
  }

  /** Bytes that do not fit are the high ones: the rest reads as the remainder. */
  lemma {:induction false} BigEndianDropsHigh(x: nat, width: nat)
    ensures BigEndian(x % Power256(width), width) == BigEndian(x, width)
  {
    if width > 0 {
      DropByte(x, Power256(width - 1));
      BigEndianDropsHigh(x / 256, width - 1);
    }
  }

  /** Distinct messages of fewer than 2^64 bits have distinct paddings. */
  lemma PadInjective(m: seq<byte>, n: seq<byte>)
    requires |m| < 0x2000_0000_0000_0000 && |n| < 0x2000_0000_0000_0000
    ensures Pad(m) == Pad(n) <==> m == n
  {
    hide BigEndian, Fill, ZeroBytes;
    if Pad(m) == Pad(n) {
      var p := Pad(m);
      assert p[|p| - 8..] == BigEndian(8 * |m|, 8) && p[|p| - 8..] == BigEndian(8 * |n|, 8);
      EightBytes();
      BigEndianInjective(8 * |m|, 8 * |n|, 8);
      assert m == p[..|m|] && n == p[..|m|];
    }
  }

  lemma EightBytes()
    ensures Power256(8) == 0x1_0000_0000_0000_0000
  {
    assert Power256(4) == 0x1_0000_0000;
  }
}

/** src/sha1.rs: the streaming object and the one-shot hash over a padded buffer. */
module Sha1 {
  import opened Text
  import opened Fips180

  /** The OR forms that the code uses are the XOR forms of the standard. */
  lemma ChForms(x: bv32, y: bv32, z: bv32)
    ensures (x & y) | (!x & z) == (x & y) ^ (!x & z) == Ch(x, y, z)
  {
  }

  lemma MajForms(x: bv32, y: bv32, z: bv32)
    ensures (x & y) | (x & z) | (y & z) == (x & y) ^ (x & z) ^ (y & z) == Maj(x, y, z)
  {
  }

  function ChOr(x: bv32, y: bv32, z: bv32): (r: bv32)
    ensures r == Ch(x, y, z)
  {
    ChForms(x, y, z);
    (x & y) | (!x & z)
  }

  function MajOr(x: bv32, y: bv32, z: bv32): (r: bv32)
    ensures r == Maj(x, y, z)
  {
    MajForms(x, y, z);
    (x & y) | (x & z) | (y & z)
  }

  lemma FillStep(n: nat)
    ensures Fill(n) + [0] == Fill(n + 1)
  {
  }

  method PadMessage(bytes: seq<byte>) returns (msg: seq<byte>)
    ensures msg == Pad(bytes)
  {
    hide ZeroBytes, BigEndian, Fill;
    var bitLen := 8 * |bytes| % 0x1_0000_0000_0000_0000;
    msg := bytes + [0x80];
    ghost var zeros := 0;
    while |msg| % 64 != 56
      invariant zeros <= ZeroBytes(|bytes|) && msg == bytes + [0x80] + Fill(zeros)
      decreases ZeroBytes(|bytes|) - zeros
    {
      FillStep(zeros);
      msg := msg + [0];
      zeros := zeros + 1;
    }
    assert LeavesEight(|bytes|, zeros);
    EightBytes();
    BigEndianDropsHigh(8 * |bytes|, 8);
    msg := msg + BigEndian(bitLen, 8);
  }

  method FillSchedule(chunk: seq<byte>, w: array<bv32>)
    requires |chunk| == 64 && w.Length == 80
    modifies w
    ensures forall t | 0 <= t < 80 :: w[t] == Schedule(chunk, t)
  {
    hide FromBigEndian, Expand;
    for i := 0 to 16
      invariant forall t | 0 <= t < i :: w[t] == Schedule(chunk, t)
    {
      var j := i * 4;
      w[i] := FromBigEndian(chunk[j], chunk[j + 1], chunk[j + 2], chunk[j + 3]);
    }
    for i := 16 to 80
      invariant forall t | 0 <= t < i :: w[t] == Schedule(chunk, t)
    {
      w[i] := Expand(w[i - 3], w[i - 8], w[i - 14], w[i - 16]);
    }
  }

  method Choose(i: nat, b: bv32, c: bv32, d: bv32) returns (f: bv32, k: bv32)
    ensures f == F(i, b, c, d) && k == K(i)
  {
    hide Ch, Maj, ChOr, MajOr, Parity;
    if i <= 19 {
      f, k := ChOr(b, c, d), 0x5a82_7999;
    } else if i <= 39 {
      f, k := Parity(b, c, d), 0x6ed9_eba1;
    } else if i <= 59 {
      f, k := MajOr(b, c, d), 0x8f1b_bcdc;
    } else {
      f, k := Parity(b, c, d), 0xca62_c1d6;
    }
  }

  method Compress(h: State, chunk: seq<byte>) returns (r: State)
    requires |chunk| == 64
    ensures r == HashBlock(h, chunk)
  {
    hide Schedule, F, K, Mix, Rotl30, Add;
    var w := new bv32[80];
    FillSchedule(chunk, w);
    var a, b, c, d, e := h.a, h.b, h.c, h.d, h.e;
    for i := 0 to 80
      invariant State(a, b, c, d, e) == Rounds(h, chunk, i)
      invariant forall t | 0 <= t < 80 :: w[t] == Schedule(chunk, t)
    {
      var f, k := Choose(i, b, c, d);
      var temp := Mix(a, f, e, k, w[i]);
      e := d;
      d := c;
      c := Rotl30(b);
      b := a;
      a := temp;
    }
    r := State(Add(h.a, a), Add(h.b, b), Add(h.c, c), Add(h.d, d), Add(h.e, e));
  }

  method Digest(bytes: seq<byte>) returns (out: seq<byte>)
    ensures out == Hash(bytes)
  {
    var msg := PadMessage(bytes);
    var h := INITIAL;
    for i := 0 to |msg| / 64
      invariant h == HashBlocks(msg, i)
    {
      h := Compress(h, msg[64 * i..64 * (i + 1)]);
    }
    out := WordBytes(h.a) + WordBytes(h.b) + WordBytes(h.c) + WordBytes(h.d) + WordBytes(h.e);
  }

  // ----- hexadecimal text -----

  const TABLE: string := "0123456789abcdef"

  function HexText(bytes: seq<byte>): (s: string)
    ensures |s| == 2 * |bytes|
    ensures forall c | c in s :: c in TABLE
  {
    if bytes == [] then "" else [TABLE[bytes[0] / 16], TABLE[bytes[0] % 16]] + HexText(bytes[1..])
  }

  method Hex(bytes: seq<byte>) returns (out: string)
    ensures out == HexText(bytes)
  {
    out := "";
    for i := 0 to |bytes|
      invariant out + HexText(bytes[i..]) == HexText(bytes)
    {
      out := out + [TABLE[bytes[i] / 16]];
      out := out + [TABLE[bytes[i] % 16]];
    }
  }

  function HexValue(c: char): int {
    if '0' <= c <= '9' then c as int - '0' as int else c as int - 'a' as int + 10
  }

  /** Each byte is written as two digits of the text, the high half first. */
  lemma {:induction false} HexTextAt(bytes: seq<byte>, k: nat)
    requires k < |bytes|
    ensures
      var s := HexText(bytes);
      s[2 * k] in TABLE && s[2 * k + 1] in TABLE && 16 * HexValue(s[2 * k]) + HexValue(s[2 * k + 1]) == bytes[k]
  {
    hide HexText, TABLE;
    HexFirst(bytes);
    if k == 0 {
      HexDigit(bytes[0] / 16);
      HexDigit(bytes[0] % 16);
    } else {
      HexTextAt(bytes[1..], k - 1);
      var s, t := HexText(bytes), HexText(bytes[1..]);
      assert s[2 * k] == t[2 * (k - 1)] && s[2 * k + 1] == t[2 * (k - 1) + 1];
    }
  }

  lemma HexFirst(bytes: seq<byte>)
    requires bytes != []
    ensures HexText(bytes) == [TABLE[bytes[0] / 16], TABLE[bytes[0] % 16]] + HexText(bytes[1..])
  {
    hide TABLE;
  }

  lemma HexDigit(d: nat)
    requires d < 16
    ensures TABLE[d] in TABLE && HexValue(TABLE[d]) == d
  {
  }

  /** The hexadecimal text names the bytes: no two byte strings share it. */
  lemma {:induction false} HexInjective(a: seq<byte>, b: seq<byte>)
    requires HexText(a) == HexText(b)
    ensures a == b
  {
    if a != [] {
      assert |HexText(a)| == 2 * |a| && |HexText(b)| == 2 * |b|;
      assert HexText(a)[0] == HexText(b)[0] && HexText(a)[1] == HexText(b)[1];
      TableInjective(a[0] / 16, b[0] / 16);
      TableInjective(a[0] % 16, b[0] % 16);
      assert HexText(a)[2..] == HexText(a[1..]) && HexText(b)[2..] == HexText(b[1..]);
      HexInjective(a[1..], b[1..]);
    }
  }

  lemma TableInjective(i: nat, j: nat)
    requires i < 16 && j < 16 && TABLE[i] == TABLE[j]
    ensures i == j
  {
  }

  /** The streaming hash: any series of updates hashes the concatenation. */
  class Sha1 {
    var bytes: seq<byte>

    constructor ()
      ensures bytes == []
    {
      bytes := [];
    }

    method Update(more: seq<byte>)
      modifies this
      ensures bytes == old(bytes) + more
    {
      bytes := bytes + more;
    }

    method HexDigest() returns (out: string)
      ensures out == HexText(Hash(bytes))
    {
      var digest := Sha1Digest();
      out := Hex(digest);
    }

    method Sha1Digest() returns (out: seq<byte>)
      ensures out == Hash(bytes)
    {
      out := Digest(bytes);
    }
  }
}
