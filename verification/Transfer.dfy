/** The transfer decoders of src/digest.rs and the encodings they undo. */
module Transfer {
  import opened Wrappers
  import opened Text

  // ===== base64 =====

  type sextet = x: int | 0 <= x < 64

  const PAD: byte := 61

  function Base64Value(b: byte): Option<sextet> {
    if 65 <= b <= 90 then Some(b - 65)
    else if 97 <= b <= 122 then Some(b - 97 + 26)
    else if 48 <= b <= 57 then Some(b - 48 + 52)
    else if b == 43 then Some(62)
    else if b == 47 then Some(63)
    else None
  }

  predicate IsAsciiWhitespace(b: byte) {
    b == 9 || b == 10 || b == 12 || b == 13 || b == 32
  }

  /** The six-bit values that a text holds before its first '='. */
  function Sextets(bytes: seq<byte>): seq<sextet> {
    if bytes == [] || bytes[0] == PAD then []
    else if Base64Value(bytes[0]).Some? then [Base64Value(bytes[0]).value] + Sextets(bytes[1..])
    else Sextets(bytes[1..])
  }

  /** The whole bytes of a bit string given as six-bit values. */
  function Unpack(s: seq<sextet>): (b: seq<byte>)
    ensures |b| == 6 * |s| / 8
  {
    if |s| < 2 then []
    else if |s| == 2 then [First(s[0], s[1])]
    else if |s| == 3 then [First(s[0], s[1]), Second(s[1], s[2])]
    else [First(s[0], s[1]), Second(s[1], s[2]), Third(s[2], s[3])] + Unpack(s[4..])
  }

  function First(v0: sextet, v1: sextet): byte {
    v0 * 4 + v1 / 16
  }

  function Second(v1: sextet, v2: sextet): byte {
    v1 % 16 * 16 + v2 / 4
  }

  function Third(v2: sextet, v3: sextet): byte {
    v2 % 4 * 64 + v3
  }

  const TWO_32: int := 0x1_0000_0000

  /** One step of the 32-bit shift register: high bits fall off. */
  function Shift(buffer: int, v: sextet): (r: int)
    requires 0 <= buffer < TWO_32
    ensures 0 <= r < TWO_32
  {
    buffer * 64 % TWO_32 + v
  }

  /** The register after `s`, as far as the decoder still looks at it. */
  predicate Holds(buffer: int, bits: int, s: seq<sextet>) {
    && 0 <= buffer < TWO_32
    && match |s| % 4
       case 0 => bits == 0
       case 1 => bits == 6 && buffer % 64 == s[|s| - 1]
       case 2 => bits == 4 && buffer % 16 == s[|s| - 1] % 16
       case _ => bits == 2 && buffer % 4 == s[|s| - 1] % 4
  }

  /** The byte that one more value completes, if it does. */
  function Completed(s: seq<sextet>, v: sextet): seq<byte> {
    match |s| % 4
    case 0 => []
    case 1 => [First(s[|s| - 1], v)]
    case 2 => [Second(s[|s| - 1], v)]
    case _ => [Third(s[|s| - 1], v)]
  }

  lemma {:induction false} UnpackSnoc(s: seq<sextet>, v: sextet)
    ensures Unpack(s + [v]) == Unpack(s) + Completed(s, v)
  {
    hide First, Second, Third;
    if |s| >= 4 {
      assert (s + [v])[4..] == s[4..] + [v];
      UnpackSnoc(s[4..], v);
      CompletedDrop(s, v);
    } else if |s| == 3 {
      assert (s + [v])[4..] == [];
    }
  }

  lemma CompletedDrop(s: seq<sextet>, v: sextet)
    requires |s| >= 4
    ensures Completed(s[4..], v) == Completed(s, v)
  {
    hide First, Second, Third;
    var d := s[4..];
    assert |d| % 4 == |s| % 4;
    assert |d| > 0 ==> d[|d| - 1] == s[|s| - 1];
  }

  lemma RegisterStep(buffer: int, bits: int, s: seq<sextet>, v: sextet)
    requires Holds(buffer, bits, s)
    ensures
      var r := Shift(buffer, v);
      var b := bits + 6;
      && (bits == 0 || bits == 2 || bits == 4 || bits == 6)
      && Holds(r, if b >= 8 then b - 8 else b, s + [v])
      && Completed(s, v)
         == if b == 12 then [r / 16 % 256] else if b == 10 then [r / 4 % 256] else if b == 8 then [r % 256] else []
  {
    hide Shift, Completed;
    ShiftLow(buffer, v);
    HoldsSnoc(Shift(buffer, v), bits, s, v);
    CompletedByte(buffer, bits, s, v);
  }

  lemma HoldsSnoc(r: int, bits: int, s: seq<sextet>, v: sextet)
    requires 0 <= r < TWO_32 && r % 64 == v && r % 16 == v % 16 && r % 4 == v % 4
    requires |s| % 4 == (if bits == 6 then 1 else if bits == 4 then 2 else if bits == 2 then 3 else 0)
    requires bits == 0 || bits == 2 || bits == 4 || bits == 6
    ensures Holds(r, if bits >= 2 then bits - 2 else 6, s + [v])
  {
    assert (s + [v])[|s|] == v;
    assert (|s| + 1) % 4 == if |s| % 4 == 3 then 0 else |s| % 4 + 1;
  }

  lemma CompletedByte(buffer: int, bits: int, s: seq<sextet>, v: sextet)
    requires Holds(buffer, bits, s)
    ensures
      Completed(s, v)
      == if bits == 6 then [buffer % 64 * 4 + v / 16]
         else if bits == 4 then [buffer % 16 * 16 + v / 4]
         else if bits == 2 then [buffer % 4 * 64 + v] else []
  {
  }

  lemma ShiftDropsHighBits(buffer: int, v: sextet)
    requires 0 <= buffer < TWO_32
    ensures Shift(buffer, v) == 64 * (buffer % 0x400_0000) + v
  {
    assert buffer * 64 == 64 * (buffer % 0x400_0000) + TWO_32 * (buffer / 0x400_0000);
  }

  lemma Quarters(q: int, r: int)
    requires 0 <= r < 4
    ensures (4 * q + r) / 4 == q && (4 * q + r) % 4 == r
  {
  }

  lemma Sixteenths(q: int, r: int)
    requires 0 <= r < 16
    ensures (16 * q + r) / 16 == q && (16 * q + r) % 16 == r
  {
  }

  lemma Bytes(q: int, r: int)
    requires 0 <= r < 256
    ensures (256 * q + r) / 256 == q && (256 * q + r) % 256 == r
  {
  }

  lemma SixtyFourths(q: int, r: int)
    requires 0 <= r < 64
    ensures (64 * q + r) / 64 == q && (64 * q + r) % 64 == r
  {
  }

  lemma LowBits(buffer: int)
    requires 0 <= buffer
    ensures
      var low := buffer % 0x400_0000;
      low % 64 == buffer % 64 && low % 16 == buffer % 16 && low % 4 == buffer % 4
  {
    var q, low := buffer / 0x400_0000, buffer % 0x400_0000;
    assert buffer == 0x400_0000 * q + low;
    LowSixtyFour(q, low);
    LowSixteen(q, low);
    LowFour(q, low);
  }

  lemma LowSixtyFour(q: int, low: int)
    ensures (0x400_0000 * q + low) % 64 == low % 64
  {
    assert 0x400_0000 * q + low == 64 * (0x10_0000 * q + low / 64) + low % 64;
    SixtyFourths(0x10_0000 * q + low / 64, low % 64);
  }

  lemma LowSixteen(q: int, low: int)
    ensures (0x400_0000 * q + low) % 16 == low % 16
  {
    assert 0x400_0000 * q + low == 16 * (0x40_0000 * q + low / 16) + low % 16;
    Sixteenths(0x40_0000 * q + low / 16, low % 16);
  }

  lemma LowFour(q: int, low: int)
    ensures (0x400_0000 * q + low) % 4 == low % 4
  {
    assert 0x400_0000 * q + low == 4 * (0x100_0000 * q + low / 4) + low % 4;
    Quarters(0x100_0000 * q + low / 4, low % 4);
  }

  /** The three bytes that the register can complete, from its low bits and the new value. */
  lemma ShiftedBytes(low: int, v: sextet)
    requires 0 <= low
    ensures (64 * low + v) / 16 % 256 == low % 64 * 4 + v / 16
    ensures (64 * low + v) / 4 % 256 == low % 16 * 16 + v / 4
    ensures (64 * low + v) % 256 == low % 4 * 64 + v
  {
    assert 64 * low + v == 16 * (4 * low + v / 16) + v % 16;
    Sixteenths(4 * low + v / 16, v % 16);
    assert 4 * low + v / 16 == 256 * (low / 64) + (low % 64 * 4 + v / 16);
    Bytes(low / 64, low % 64 * 4 + v / 16);
    assert 64 * low + v == 4 * (16 * low + v / 4) + v % 4;
    Quarters(16 * low + v / 4, v % 4);
    assert 16 * low + v / 4 == 256 * (low / 16) + (low % 16 * 16 + v / 4);
    Bytes(low / 16, low % 16 * 16 + v / 4);
    assert 64 * low + v == 256 * (low / 4) + (low % 4 * 64 + v);
    Bytes(low / 4, low % 4 * 64 + v);
  }

  lemma ShiftLow(buffer: int, v: sextet)
    requires 0 <= buffer < TWO_32
    ensures
      var r := Shift(buffer, v);
      && r % 64 == v && r % 16 == v % 16 && r % 4 == v % 4
      && r / 16 % 256 == buffer % 64 * 4 + v / 16
      && r / 4 % 256 == buffer % 16 * 16 + v / 4
      && r % 256 == buffer % 4 * 64 + v
  {
    hide Shift;
    ShiftDropsHighBits(buffer, v);
    LowBits(buffer);
    ShiftedBytes(buffer % 0x400_0000, v);
    ShiftRemainders(buffer % 0x400_0000, v);
  }

  lemma ShiftRemainders(low: int, v: sextet)
    ensures (64 * low + v) % 64 == v && (64 * low + v) % 16 == v % 16 && (64 * low + v) % 4 == v % 4
  {
    SixtyFourths(low, v);
    SixteenthsOf(low, v);
    QuartersOf(low, v);
  }

  lemma SixteenthsOf(low: int, v: sextet)
    ensures (64 * low + v) % 16 == v % 16
  {
    assert 64 * low + v == 16 * (4 * low + v / 16) + v % 16;
    Sixteenths(4 * low + v / 16, v % 16);
  }

  lemma QuartersOf(low: int, v: sextet)
    ensures (64 * low + v) % 4 == v % 4
  {
    assert 64 * low + v == 4 * (16 * low + v / 4) + v % 4;
    Quarters(16 * low + v / 4, v % 4);
  }

  lemma NoValue(b: byte)
    ensures IsAsciiWhitespace(b) || b == PAD ==> Base64Value(b).None?
  {
  }

  lemma SextetsAt(bytes: seq<byte>, i: nat)
    requires i < |bytes|
    ensures
      var b, rest := bytes[i], Sextets(bytes[i + 1..]);
      && (IsAsciiWhitespace(b) ==> b != PAD && Base64Value(b).None?)
      && Sextets(bytes[i..]) == if b == PAD then []
                                else if Base64Value(b).None? then rest else [Base64Value(b).value] + rest
  {
    hide Base64Value;
    NoValue(bytes[i]);
    assert bytes[i..][1..] == bytes[i + 1..];
  }

  lemma Empty(bytes: seq<byte>, i: nat)
    ensures Holds(0, 0, []) && Unpack([]) == [] && (i == |bytes| ==> Sextets(bytes[i..]) == [])
  {
  }

  method DecodeBase64(bytes: seq<byte>) returns (out: seq<byte>)
    ensures out == Unpack(Sextets(bytes))
  {
    hide Completed, Shift, Sextets, Unpack, Holds, IsAsciiWhitespace, Base64Value;
    Empty(bytes, |bytes|);
    assert bytes[0..] == bytes;
    out := [];
    var buffer, bits := 0, 0;
    ghost var s: seq<sextet> := [];
    var i := 0;
    while i < |bytes|
      invariant i <= |bytes|
      invariant s + Sextets(bytes[i..]) == Sextets(bytes)
      invariant 0 <= buffer < TWO_32 && Holds(buffer, bits, s) && out == Unpack(s)
    {
      SextetsAt(bytes, i);
      var b := bytes[i];
      i := i + 1;
      if IsAsciiWhitespace(b) {
        continue;
      }
      if b == PAD {
        assert s + [] == s;
        break;
      }
      var value := Base64Value(b);
      if value.None? {
        continue;
      }
      RegisterStep(buffer, bits, s, value.value);
      UnpackSnoc(s, value.value);
      buffer := Shift(buffer, value.value);
      bits := bits + 6;
      s := s + [value.value];
      if bits >= 8 {
        bits := bits - 8;
        out := out + [(if bits == 4 then buffer / 16 else if bits == 2 then buffer / 4 else buffer) % 256];
      }
    }
    assert s + [] == s;
  }

  // ----- the encoding of section 4 of RFC 4648 -----

  function Base64Char(v: sextet): (b: byte)
    ensures Base64Value(b) == Some(v) && b != PAD
  {
    if v < 26 then 65 + v
    else if v < 52 then 97 + v - 26
    else if v < 62 then 48 + v - 52
    else if v == 62 then 43
    else 47
  }

  function EncodedGroup(a: byte, b: byte, c: byte): seq<byte> {
    [Base64Char(a / 4), Base64Char(a % 4 * 16 + b / 16), Base64Char(b % 16 * 4 + c / 64), Base64Char(c % 64)]
  }

  function Base64Encode(x: seq<byte>): seq<byte> {
    if x == [] then []
    else if |x| == 1 then [Base64Char(x[0] / 4), Base64Char(x[0] % 4 * 16), PAD, PAD]
    else if |x| == 2 then
      [Base64Char(x[0] / 4), Base64Char(x[0] % 4 * 16 + x[1] / 16), Base64Char(x[1] % 16 * 4), PAD]
    else EncodedGroup(x[0], x[1], x[2]) + Base64Encode(x[3..])
  }

  /** The bytes of a text that base64 gives a meaning: its alphabet and '='. */
  function Significant(t: seq<byte>): seq<byte> {
    if t == [] then []
    else (if Base64Value(t[0]).Some? || t[0] == PAD then [t[0]] else []) + Significant(t[1..])
  }

  lemma {:induction false} SextetsOfSignificant(t: seq<byte>)
    ensures Sextets(Significant(t)) == Sextets(t)
  {
    if t != [] {
      SextetsOfSignificant(t[1..]);
      if Base64Value(t[0]).Some? || t[0] == PAD {
        assert Significant(t)[1..] == Significant(t[1..]);
      } else {
        assert Significant(t) == Significant(t[1..]);
      }
    }
  }

  lemma SextetsCons(v: sextet, rest: seq<byte>)
    ensures Sextets([Base64Char(v)] + rest) == [v] + Sextets(rest)
  {
    assert ([Base64Char(v)] + rest)[1..] == rest;
  }

  lemma SextetsOfFour(v0: sextet, v1: sextet, v2: sextet, v3: sextet, rest: seq<byte>)
    ensures
      Sextets([Base64Char(v0), Base64Char(v1), Base64Char(v2), Base64Char(v3)] + rest)
      == [v0, v1, v2, v3] + Sextets(rest)
  {
    hide Base64Char, Sextets;
    var r3 := [Base64Char(v3)] + rest;
    var r2 := [Base64Char(v2)] + r3;
    var r1 := [Base64Char(v1)] + r2;
    SextetsCons(v3, rest);
    SextetsCons(v2, r3);
    SextetsCons(v1, r2);
    SextetsCons(v0, r1);
    assert [Base64Char(v0), Base64Char(v1), Base64Char(v2), Base64Char(v3)] + rest == [Base64Char(v0)] + r1;
  }

  lemma ThreeBytes(a: byte, b: byte, c: byte, rest: seq<byte>)
    ensures Unpack(Sextets(EncodedGroup(a, b, c) + rest)) == [a, b, c] + Unpack(Sextets(rest))
  {
    hide Base64Char, Sextets, First, Second, Third;
    var v0, v1, v2, v3 := a / 4, a % 4 * 16 + b / 16, b % 16 * 4 + c / 64, c % 64;
    SextetsOfFour(v0, v1, v2, v3, rest);
    Regroup(a, b, c);
    assert ([v0, v1, v2, v3] + Sextets(rest))[4..] == Sextets(rest);
  }

  lemma {:induction false} UnpackEncoded(x: seq<byte>)
    ensures Unpack(Sextets(Base64Encode(x))) == x
  {
    hide Base64Char, Sextets, Unpack, EncodedGroup;
    if x == [] {
      NothingEncoded();
    } else if |x| == 1 {
      assert x == [x[0]];
      OneByte(x[0]);
    } else if |x| == 2 {
      assert x == [x[0], x[1]];
      TwoBytes(x[0], x[1]);
    } else {
      ThreeBytes(x[0], x[1], x[2], Base64Encode(x[3..]));
      UnpackEncoded(x[3..]);
      assert x == [x[0], x[1], x[2]] + x[3..];
    }
  }

  lemma NothingEncoded()
    ensures Unpack(Sextets([])) == []
  {
  }

  lemma Regroup(a: byte, b: byte, c: byte)
    ensures First(a / 4, a % 4 * 16 + b / 16) == a
    ensures Second(a % 4 * 16 + b / 16, b % 16 * 4 + c / 64) == b
    ensures Third(b % 16 * 4 + c / 64, c % 64) == c
  {
    assert a % 4 * 16 + b / 16 == 16 * (a % 4) + b / 16;
    Sixteenths(a % 4, b / 16);
    assert b % 16 * 4 + c / 64 == 4 * (b % 16) + c / 64;
    Quarters(b % 16, c / 64);
  }

  lemma OneByte(a: byte)
    ensures Unpack(Sextets(Base64Encode([a]))) == [a]
  {
    hide Base64Char, Sextets, First;
    var v0, v1 := a / 4, a % 4 * 16;
    SextetsOfPadding();
    SextetsCons(v1, [PAD, PAD]);
    SextetsCons(v0, [Base64Char(v1)] + [PAD, PAD]);
    assert Base64Encode([a]) == [Base64Char(v0)] + ([Base64Char(v1)] + [PAD, PAD]);
    Regroup(a, 0, 0);
    assert Sextets(Base64Encode([a])) == [v0, v1];
  }

  lemma TwoBytes(a: byte, b: byte)
    ensures Unpack(Sextets(Base64Encode([a, b]))) == [a, b]
  {
    hide Base64Char, Sextets, First, Second;
    var v0, v1, v2 := a / 4, a % 4 * 16 + b / 16, b % 16 * 4;
    SextetsOfPadding();
    var r2 := [Base64Char(v2)] + [PAD];
    var r1 := [Base64Char(v1)] + r2;
    SextetsCons(v2, [PAD]);
    SextetsCons(v1, r2);
    SextetsCons(v0, r1);
    assert Base64Encode([a, b]) == [Base64Char(v0)] + r1;
    Regroup(a, b, 0);
    assert Sextets(Base64Encode([a, b])) == [v0, v1, v2];
  }

  lemma SextetsOfPadding()
    ensures Sextets([PAD]) == [] && Sextets([PAD, PAD]) == []
  {
  }

  /** Decoding undoes encoding, whatever bytes without a base64 meaning are scattered in. */
  lemma Base64RoundTrip(x: seq<byte>, t: seq<byte>)
    requires Significant(t) == Base64Encode(x)
    ensures Unpack(Sextets(t)) == x
  {
    SextetsOfSignificant(t);
    UnpackEncoded(x);
  }

  const CAPITALS: string := "ABCDEFGHIJKLMNOPQRSTUVWXYZ"
  const SMALLS: string := "abcdefghijklmnopqrstuvwxyz"
  const OTHERS: string := "0123456789+/"

  /** The alphabet of section 4 of RFC 4648, in order. */
  function AlphabetAt(v: sextet): char {
    Letters();
    if v < 26 then CAPITALS[v] else if v < 52 then SMALLS[v - 26] else OTHERS[v - 52]
  }

  lemma Letters()
    ensures |CAPITALS| == 26 && forall k | 0 <= k < 26 :: CAPITALS[k] as int == 65 + k
    ensures |SMALLS| == 26 && forall k | 0 <= k < 26 :: SMALLS[k] as int == 97 + k
    ensures |OTHERS| == 12
  {
    Capitals();
    Smalls();
  }

  lemma Capitals()
    ensures |CAPITALS| == 26 && forall k | 0 <= k < 26 :: CAPITALS[k] as int == 65 + k
  {
  }

  lemma Smalls()
    ensures |SMALLS| == 26 && forall k | 0 <= k < 26 :: SMALLS[k] as int == 97 + k
  {
  }

  lemma Others(k: nat)
    requires k < 12
    ensures OTHERS[k] as int == if k < 10 then 48 + k else if k == 10 then 43 else 47
  {
  }

  lemma Alphabet(b: byte, v: sextet)
    ensures Base64Value(b) == Some(v) <==> b == AlphabetAt(v) as int
  {
    Letters();
    if v >= 52 {
      Others(v - 52);
    }
  }

  /** Nothing counts after the first '='. */
  lemma {:induction false} PaddingEnds(t: seq<byte>, rest: seq<byte>)
    ensures Sextets(t + [PAD] + rest) == Sextets(t)
  {
    hide Base64Value;
    var s := t + [PAD] + rest;
    if t == [] {
      assert s[0] == PAD;
    } else {
      assert s[0] == t[0] && s[1..] == t[1..] + [PAD] + rest;
      PaddingEnds(t[1..], rest);
    }
  }

  lemma {:induction false} SextetsShrink(t: seq<byte>)
    ensures |Sextets(t)| <= |t|
  {
    if t != [] {
      SextetsShrink(t[1..]);
    }
  }

  // ===== quoted-printable =====

  const EQ: byte := 61
  const LF: byte := 10
  const CR: byte := 13

  type nibble = x: int | 0 <= x < 16

  function HexValue(b: byte): Option<nibble> {
    if 48 <= b <= 57 then Some(b - 48)
    else if 97 <= b <= 102 then Some(b - 97 + 10)
    else if 65 <= b <= 70 then Some(b - 65 + 10)
    else None
  }

  predicate IsHex(b: byte) {
    HexValue(b).Some?
  }

  /** The length of a soft line break at the start of `s`, or 0. */
  function SoftBreakLength(s: seq<byte>): (n: nat)
    ensures n <= |s|
  {
    if |s| > 1 && s[0] == EQ && (s[1] == LF || s[1] == CR) then
      if s[1] == CR && |s| > 2 && s[2] == LF then 3 else 2
    else 0
  }

  predicate StartsEscape(s: seq<byte>) {
    |s| > 2 && s[0] == EQ && IsHex(s[1]) && IsHex(s[2])
  }

  function EscapedByte(hi: byte, lo: byte): byte
    requires IsHex(hi) && IsHex(lo)
  {
    HexValue(hi).value * 16 + HexValue(lo).value
  }

  function QuotedPrintable(s: seq<byte>): (b: seq<byte>)
    ensures |b| <= |s|
  {
    if s == [] then []
    else if SoftBreakLength(s) > 0 then QuotedPrintable(s[SoftBreakLength(s)..])
    else if StartsEscape(s) then [EscapedByte(s[1], s[2])] + QuotedPrintable(s[3..])
    else [s[0]] + QuotedPrintable(s[1..])
  }

  /** Decoding a text from position `i` on: a soft break, an escape or a byte, then the rest. */
  lemma QuotedPrintableAt(bytes: seq<byte>, i: nat)
    requires i < |bytes|
    ensures
      var s := bytes[i..];
      QuotedPrintable(s)
      == if SoftBreakLength(s) > 0 then QuotedPrintable(bytes[i + SoftBreakLength(s)..])
         else if StartsEscape(s) then [EscapedByte(s[1], s[2])] + QuotedPrintable(bytes[i + 3..])
         else [s[0]] + QuotedPrintable(bytes[i + 1..])
  {
    hide SoftBreakLength, EscapedByte, IsHex;
    var s := bytes[i..];
    assert s[SoftBreakLength(s)..] == bytes[i + SoftBreakLength(s)..];
    assert s[1..] == bytes[i + 1..];
    assert |s| > 2 ==> s[3..] == bytes[i + 3..];
  }

  method DecodeQuotedPrintable(bytes: seq<byte>) returns (out: seq<byte>)
    ensures out == QuotedPrintable(bytes)
  {
    hide QuotedPrintable, EscapedByte, HexValue;
    out := [];
    var i := 0;
    assert bytes[0..] == bytes;
    while i < |bytes|
      invariant i <= |bytes|
      invariant out + QuotedPrintable(bytes[i..]) == QuotedPrintable(bytes)
    {
      QuotedPrintableAt(bytes, i);
      if bytes[i] == EQ {
        if i + 1 < |bytes| && (bytes[i + 1] == LF || bytes[i + 1] == CR) {
          i := i + 2;
          if i < |bytes| && bytes[i - 1] == CR && bytes[i] == LF {
            i := i + 1;
          }
          continue;
        }
        if i + 2 < |bytes| && IsHex(bytes[i + 1]) && IsHex(bytes[i + 2]) {
          out := out + [EscapedByte(bytes[i + 1], bytes[i + 2])];
          i := i + 3;
          continue;
        }
      }
      out := out + [bytes[i]];
      i := i + 1;
    }
    QuotedPrintableEnd(bytes[i..]);
  }

  lemma QuotedPrintableEnd(s: seq<byte>)
    requires s == []
    ensures QuotedPrintable(s) == []
  {
  }

  /** What an encoder may emit under section 6.7 of RFC 2045, and an '=' that stands for neither of these. */
  datatype Piece =
    | Literal(b: byte)
    | Escape(hi: byte, lo: byte)
    | SoftBreak(ending: seq<byte>)
    | Stray

  function RenderPiece(p: Piece): seq<byte> {
    match p
    case Literal(b) => [b]
    case Escape(hi, lo) => [EQ, hi, lo]
    case SoftBreak(ending) => [EQ] + ending
    case Stray => [EQ]
  }

  function Render(ps: seq<Piece>): seq<byte> {
    if ps == [] then [] else RenderPiece(ps[0]) + Render(ps[1..])
  }

  /** The bytes that the pieces stand for. */
  function Meaning(ps: seq<Piece>): seq<byte>
    requires WellFormed(ps)
  {
    if ps == [] then []
    else
      (match ps[0]
       case Literal(b) => [b]
       case Escape(hi, lo) => [EscapedByte(hi, lo)]
       case SoftBreak(_) => []
       case Stray => [EQ])
      + Meaning(ps[1..])
  }

  predicate IsStray(rest: seq<byte>) {
    (rest != [] ==> rest[0] != LF && rest[0] != CR) && (|rest| > 1 ==> !IsHex(rest[0]) || !IsHex(rest[1]))
  }

  /** Literals are not '='; a soft break that ends in a bare CR is not followed by a line feed; a stray '=' begins neither
      a soft break nor an escape with what follows it. */
  predicate WellFormed(ps: seq<Piece>) {
    ps != [] ==>
      && (match ps[0]
          case Literal(b) => b != EQ
          case Escape(hi, lo) => IsHex(hi) && IsHex(lo)
          case SoftBreak(ending) =>
            ending == [LF] || ending == [CR, LF] || (ending == [CR] && (|ps| > 1 ==> ps[1] != Literal(LF)))
          case Stray => IsStray(Render(ps[1..])))
      && WellFormed(ps[1..])
  }

  lemma RenderStart(ps: seq<Piece>)
    requires WellFormed(ps) && Render(ps) != []
    ensures ps != [] && (Render(ps)[0] == LF ==> ps[0] == Literal(LF))
  {
  }

  lemma LiteralRendered(b: byte, rest: seq<byte>)
    requires b != EQ
    ensures QuotedPrintable([b] + rest) == [b] + QuotedPrintable(rest)
  {
    assert ([b] + rest)[1..] == rest;
  }

  lemma EscapeRendered(hi: byte, lo: byte, rest: seq<byte>)
    requires IsHex(hi) && IsHex(lo)
    ensures QuotedPrintable([EQ, hi, lo] + rest) == [EscapedByte(hi, lo)] + QuotedPrintable(rest)
  {
    hide EscapedByte;
    var s := [EQ, hi, lo] + rest;
    assert hi != LF && hi != CR;
    assert SoftBreakLength(s) == 0 && StartsEscape(s);
    assert s[3..] == rest;
  }

  lemma SoftBreakRendered(ending: seq<byte>, rest: seq<byte>)
    requires ending == [LF] || ending == [CR, LF] || (ending == [CR] && (rest != [] ==> rest[0] != LF))
    ensures QuotedPrintable([EQ] + ending + rest) == QuotedPrintable(rest)
  {
    assert SoftBreakLength([EQ] + ending + rest) == 1 + |ending|;
    assert ([EQ] + ending + rest)[1 + |ending|..] == rest;
  }

  lemma StrayRendered(rest: seq<byte>)
    requires IsStray(rest)
    ensures QuotedPrintable([EQ] + rest) == [EQ] + QuotedPrintable(rest)
  {
    hide HexValue;
    var s := [EQ] + rest;
    assert s[1..] == rest;
    assert SoftBreakLength(s) == 0 && !StartsEscape(s);
  }

  /** Decoding gives back what any mix of literals, escapes, soft line breaks and stray '=' stands for. */
  lemma {:induction false} QuotedPrintableRoundTrip(ps: seq<Piece>)
    requires WellFormed(ps)
    ensures QuotedPrintable(Render(ps)) == Meaning(ps)
  {
    hide QuotedPrintable, HexValue;
    if ps == [] {
      QuotedPrintableEnd([]);
    } else {
      var rest := Render(ps[1..]);
      QuotedPrintableRoundTrip(ps[1..]);
      match ps[0]
      case Literal(b) =>
        LiteralRendered(b, rest);
      case Escape(hi, lo) =>
        EscapeRendered(hi, lo, rest);
      case SoftBreak(ending) =>
        if rest != [] {
          RenderStart(ps[1..]);
        }
        SoftBreakRendered(ending, rest);
      case Stray =>
        StrayRendered(rest);
    }
  }

  /** Every text is such a mix, so this says what any text decodes to. */
  lemma {:induction false} EveryText(s: seq<byte>) returns (ps: seq<Piece>)
    ensures WellFormed(ps) && Render(ps) == s
    decreases |s|
  {
    hide HexValue;
    if s == [] {
      return [];
    }
    var n := SoftBreakLength(s);
    if n > 0 {
      ps := EveryText(s[n..]);
      BreakStays(s, n, ps);
      ps := [SoftBreak(s[1..n])] + ps;
    } else if StartsEscape(s) {
      ps := EveryText(s[3..]);
      ps := [Escape(s[1], s[2])] + ps;
    } else {
      ps := EveryText(s[1..]);
      ps := [if s[0] == EQ then Stray else Literal(s[0])] + ps;
    }
  }

  lemma BreakStays(s: seq<byte>, n: nat, ps: seq<Piece>)
    requires n > 0 && n == SoftBreakLength(s) && Render(ps) == s[n..] && WellFormed(ps)
    ensures WellFormed([SoftBreak(s[1..n])] + ps) && Render([SoftBreak(s[1..n])] + ps) == s
  {
    hide HexValue;
    assert ([SoftBreak(s[1..n])] + ps)[1..] == ps;
    assert s == [EQ] + s[1..n] + s[n..];
    if ps != [] && ps[0] == Literal(LF) {
      assert Render(ps)[0] == LF;
    }
  }

  const LOWER_DIGITS: string := "0123456789abcdef"
  const UPPER_DIGITS: string := "0123456789ABCDEF"

  /** The digits of an escape, in either case. */
  lemma HexDigits(b: byte, v: nibble)
    ensures HexValue(b) == Some(v) <==> b == LOWER_DIGITS[v] as int || b == UPPER_DIGITS[v] as int
  {
  }
}
