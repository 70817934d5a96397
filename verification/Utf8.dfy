/** UTF-8 as Rust's standard library writes it, and its three ways to read it:
    strictly, with a replacement character for each broken piece, and dropping broken pieces. */
module Utf8 {
  import opened Wrappers
  import opened Text

  function EncodeChar(c: char): (b: seq<byte>)
    ensures 1 <= |b| <= 4
    ensures c as int < 0x80 ==> b == [c as int]
    ensures c as int >= 0x80 ==> forall k | 0 <= k < |b| :: b[k] >= 0x80
  {
    var u := c as int;
    if u < 0x80 then [u]
    else if u < 0x800 then [0xC0 + u / 64, 0x80 + u % 64]
    else if u < 0x1_0000 then [0xE0 + u / 4096, 0x80 + u / 64 % 64, 0x80 + u % 64]
    else [0xF0 + u / 262_144, 0x80 + u / 4096 % 64, 0x80 + u / 64 % 64, 0x80 + u % 64]
  }

  function Encode(s: string): (b: seq<byte>)
    ensures |s| <= |b|
  {
    if s == "" then [] else EncodeChar(s[0]) + Encode(s[1..])
  }

  /** What a byte sequence starts with: a scalar value, or a maximal broken piece. */
  datatype Chunk = Scalar(c: char, length: nat) | Broken(length: nat)

  predicate IsContinuation(b: seq<byte>, i: nat) {
    i < |b| && 0x80 <= b[i] < 0xC0
  }

  /** The second byte that a three- or four-byte sequence may have after a given first one. */
  predicate GoodSecond(b: seq<byte>)
    requires b != []
  {
    && IsContinuation(b, 1)
    && (b[0] == 0xE0 ==> b[1] >= 0xA0)
    && (b[0] == 0xED ==> b[1] < 0xA0)
    && (b[0] == 0xF0 ==> b[1] >= 0x90)
    && (b[0] == 0xF4 ==> b[1] < 0x90)
  }

  function Two(a: int, b: int): int {
    (a - 0xC0) * 64 + (b - 0x80)
  }

  function Three(a: int, b: int, c: int): int {
    (a - 0xE0) * 4096 + (b - 0x80) * 64 + (c - 0x80)
  }

  function Four(a: int, b: int, c: int, d: int): int {
    (a - 0xF0) * 262_144 + (b - 0x80) * 4096 + (c - 0x80) * 64 + (d - 0x80)
  }

  function Next(b: seq<byte>): (chunk: Chunk)
    requires b != []
    ensures 0 < chunk.length <= |b| && chunk.length <= 4
    ensures chunk.Broken? ==> chunk.length <= 3
  {
    if b[0] < 0x80 then Scalar(b[0] as char, 1)
    else if 0xC2 <= b[0] < 0xE0 then
      if IsContinuation(b, 1) then Scalar(Two(b[0], b[1]) as char, 2) else Broken(1)
    else if 0xE0 <= b[0] < 0xF0 then
      if !GoodSecond(b) then Broken(1)
      else if !IsContinuation(b, 2) then Broken(2)
      else Scalar(Three(b[0], b[1], b[2]) as char, 3)
    else if 0xF0 <= b[0] < 0xF5 then
      if !GoodSecond(b) then Broken(1)
      else if !IsContinuation(b, 2) then Broken(2)
      else if !IsContinuation(b, 3) then Broken(3)
      else Scalar(Four(b[0], b[1], b[2], b[3]) as char, 4)
    else Broken(1)
  }

  const REPLACEMENT: char := '\U{FFFD}'

  /** `String::from_utf8_lossy`. */
  function Lossy(b: seq<byte>): (s: string)
    ensures |s| <= |b|
  {
    if b == [] then ""
    else
      var chunk := Next(b);
      [if chunk.Scalar? then chunk.c else REPLACEMENT] + Lossy(b[chunk.length..])
  }

  /** `String::from_utf8`. */
  function Strict(b: seq<byte>): Option<string> {
    if b == [] then Some("")
    else
      var chunk := Next(b);
      if chunk.Broken? then None
      else
        var rest := Strict(b[chunk.length..]);
        if rest.None? then None else Some([chunk.c] + rest.value)
  }

  lemma NextOfTwo(c: char, rest: seq<byte>)
    requires 0x80 <= c as int < 0x800
    ensures Next(EncodeChar(c) + rest) == Scalar(c, 2)
  {
    var b := EncodeChar(c) + rest;
    assert Two(b[0], b[1]) == c as int;
  }

  lemma NextOfThree(c: char, rest: seq<byte>)
    requires 0x800 <= c as int < 0x1_0000
    ensures Next(EncodeChar(c) + rest) == Scalar(c, 3)
  {
    var u, b := c as int, EncodeChar(c) + rest;
    assert u / 64 == u / 4096 * 64 + u / 64 % 64;
    assert Three(b[0], b[1], b[2]) == u;
  }

  lemma NextOfFour(c: char, rest: seq<byte>)
    requires 0x1_0000 <= c as int
    ensures Next(EncodeChar(c) + rest) == Scalar(c, 4)
  {
    var u, b := c as int, EncodeChar(c) + rest;
    assert u / 4096 == u / 262_144 * 64 + u / 4096 % 64;
    assert u / 64 == u / 4096 * 64 + u / 64 % 64;
    assert Four(b[0], b[1], b[2], b[3]) == u;
  }

  lemma NextOfEncoded(c: char, rest: seq<byte>)
    ensures Next(EncodeChar(c) + rest) == Scalar(c, |EncodeChar(c)|)
  {
    if 0x80 <= c as int < 0x800 {
      NextOfTwo(c, rest);
    } else if 0x800 <= c as int < 0x1_0000 {
      NextOfThree(c, rest);
    } else if 0x1_0000 <= c as int {
      NextOfFour(c, rest);
    }
  }

  /** Reading what was written gives it back, lossily or strictly. */
  lemma {:induction false} ReadEncoded(s: string)
    ensures Lossy(Encode(s)) == s && Strict(Encode(s)) == Some(s)
  {
    if s != "" {
      NextOfEncoded(s[0], Encode(s[1..]));
      assert Encode(s)[|EncodeChar(s[0])|..] == Encode(s[1..]);
      ReadEncoded(s[1..]);
    }
  }

  lemma {:induction false} EncodeConcat(s: string, t: string)
    ensures Encode(s + t) == Encode(s) + Encode(t)
  {
    if s == "" {
      assert s + t == t;
    } else {
      assert (s + t)[1..] == s[1..] + t;
      EncodeConcat(s[1..], t);
    }
  }

  /** An ASCII byte of an encoding is that ASCII character, and the encoding splits around it. */
  lemma {:induction false} AsciiBoundary(s: string, i: nat) returns (k: nat)
    requires i < |Encode(s)| && Encode(s)[i] < 0x80
    ensures k < |s| && s[k] as int == Encode(s)[i]
    ensures Encode(s[..k]) == Encode(s)[..i] && Encode(s[k + 1..]) == Encode(s)[i + 1..]
  {
    hide EncodeChar;
    var n := |EncodeChar(s[0])|;
    if i < n {
      k := 0;
    } else {
      k := AsciiBoundary(s[1..], i - n);
      LaterBoundary(s, i - n, k);
      k := k + 1;
    }
  }

  lemma LaterBoundary(s: string, i: nat, k: nat)
    requires s != "" && i < |Encode(s[1..])| && k < |s| - 1
    requires Encode(s[1..][..k]) == Encode(s[1..])[..i] && Encode(s[1..][k + 1..]) == Encode(s[1..])[i + 1..]
    ensures var n := i + |EncodeChar(s[0])|;
      n < |Encode(s)| && Encode(s[..k + 1]) == Encode(s)[..n] && Encode(s[k + 2..]) == Encode(s)[n + 1..]
  {
    hide EncodeChar, Encode;
    var first, rest := EncodeChar(s[0]), Encode(s[1..]);
    EncodeFirst(s);
    EncodeFirst(s[..k + 1]);
    assert s[..k + 1][1..] == s[1..][..k];
    assert s[k + 2..] == s[1..][k + 1..];
    assert (first + rest)[..|first| + i] == first + rest[..i];
    assert (first + rest)[|first| + i + 1..] == rest[i + 1..];
  }

  lemma EncodeFirst(s: string)
    requires s != ""
    ensures Encode(s) == EncodeChar(s[0]) + Encode(s[1..])
  {
    hide EncodeChar;
  }

  lemma {:induction false} NoNewlineByte(s: string)
    requires '\n' !in s
    ensures 10 !in Encode(s)
  {
    if s != "" {
      NoNewlineByte(s[1..]);
    }
  }

  lemma {:induction false} EncodeAscii(s: string)
    requires forall k | 0 <= k < |s| :: s[k] as int < 0x80
    ensures |Encode(s)| == |s| && forall k | 0 <= k < |s| :: Encode(s)[k] == s[k] as int
  {
    if s != "" {
      EncodeAscii(s[1..]);
    }
  }

  /** Replacing broken pieces never shortens the bytes and at most triples them. */
  lemma {:induction false} LossySize(b: seq<byte>)
    ensures |b| <= |Encode(Lossy(b))| <= 3 * |b|
  {
    if b != [] {
      var chunk := Next(b);
      LossySize(b[chunk.length..]);
      ScalarSize(b);
      assert Lossy(b)[1..] == Lossy(b[chunk.length..]);
    }
  }

  lemma ScalarSize(b: seq<byte>)
    requires b != []
    ensures var chunk := Next(b); chunk.Scalar? ==> |EncodeChar(chunk.c)| == chunk.length
  {
    if Next(b).Scalar? {
      if 0xE0 <= b[0] < 0xF0 {
        assert 0x800 <= Three(b[0], b[1], b[2]) < 0x1_0000;
      } else if 0xF0 <= b[0] {
        assert 0x1_0000 <= Four(b[0], b[1], b[2], b[3]);
      }
    }
  }

  /** The text that line-wise readers of bytes work on: decoded lossily, every line ending a "\n". */
  function UnixText(bytes: seq<byte>): string {
    Replace(Replace(Lossy(bytes), "\r\n", "\n"), "\r", "\n")
  }

  lemma UnixTextPlain(text: string)
    requires '\r' !in text
    ensures UnixText(Encode(text)) == text
  {
    ReadEncoded(text);
    ReplaceAbsent(text, "\r\n", "\n");
    ReplaceAbsent(text, "\r", "\n");
  }

  // ----- reading while dropping broken pieces (decode_utf8_ignore of src/digest.rs) -----

  function Ignore(b: seq<byte>): (s: string)
    ensures |s| <= |b|
  {
    if b == [] then ""
    else
      var chunk := Next(b);
      (if chunk.Scalar? then [chunk.c] else "") + Ignore(b[chunk.length..])
  }

  lemma {:induction false} IgnoreEncoded(s: string)
    ensures Ignore(Encode(s)) == s
  {
    if s != "" {
      NextOfEncoded(s[0], Encode(s[1..]));
      assert Encode(s)[|EncodeChar(s[0])|..] == Encode(s[1..]);
      IgnoreEncoded(s[1..]);
    }
  }

  /** `valid_up_to`: the length of the longest valid prefix. */
  function ValidUpTo(b: seq<byte>): (n: nat)
    ensures n <= |b|
  {
    if b == [] || Next(b).Broken? then 0 else Next(b).length + ValidUpTo(b[Next(b).length..])
  }

  lemma IgnoreScalar(b: seq<byte>)
    requires b != [] && Next(b).Scalar?
    ensures Ignore(b) == [Next(b).c] + Ignore(b[Next(b).length..])
  {
    hide Next;
  }

  lemma {:induction false} IgnoreValidPrefix(b: seq<byte>)
    ensures var n := ValidUpTo(b);
      && Ignore(b) == ValidText(b) + Ignore(b[n..])
      && (n < |b| ==> Next(b[n..]).Broken?)
  {
    hide Next, Ignore;
    if b != [] && Next(b).Scalar? {
      var k := Next(b).length;
      var m := ValidUpTo(b[k..]);
      IgnoreValidPrefix(b[k..]);
      IgnoreScalar(b);
      assert b[k..][m..] == b[k + m..];
    } else {
      assert b[0..] == b;
    }
  }

  /** The text of the longest valid prefix. */
  function ValidText(b: seq<byte>): string {
    if b == [] || Next(b).Broken? then "" else [Next(b).c] + ValidText(b[Next(b).length..])
  }

  lemma {:induction false} IgnoreContinuations(b: seq<byte>)
    requires forall i | 0 <= i < |b| :: 0x80 <= b[i] < 0xC0
    ensures Ignore(b) == ""
  {
    if b != [] {
      assert Next(b) == Broken(1);
      IgnoreContinuations(b[1..]);
    }
  }

  /** The loop skips one byte of a sequence cut short by the end, and the reported length otherwise. */
  method DecodeUtf8Ignore(bytes: seq<byte>) returns (out: string)
    ensures out == Ignore(bytes)
  {
    hide Next, Ignore, ValidText, ValidUpTo;
    out := "";
    var rest := bytes;
    IgnoreNothing();
    while rest != []
      invariant out + Ignore(rest) == Ignore(bytes)
      decreases |rest|
    {
      var n := ValidUpTo(rest);
      IgnoreValidPrefix(rest);
      out := out + ValidText(rest);
      if n == |rest| {
        rest := [];
        break;
      }
      var broken := Next(rest[n..]);
      IgnoreBroken(rest[n..]);
      assert rest[n..][broken.length..] == rest[n + broken.length..];
      if n + broken.length == |rest| {
        CutShort(rest[n..]);
        assert rest[n..][1..] == rest[n + 1..];
        rest := rest[n + 1..];
      } else {
        rest := rest[n + broken.length..];
      }
    }
  }

  lemma IgnoreNothing()
    ensures Ignore([]) == ""
  {
  }

  lemma IgnoreBroken(b: seq<byte>)
    requires b != [] && Next(b).Broken?
    ensures Ignore(b) == Ignore(b[Next(b).length..])
  {
  }

  lemma CutShort(b: seq<byte>)
    requires b != [] && Next(b) == Broken(|b|)
    ensures Ignore(b) == Ignore(b[1..]) == ""
  {
    assert b[|b|..] == [];
    IgnoreContinuations(b[1..]);
  }

  // ----- what is broken -----

  /** A two-byte sequence is that of its scalar value, */
  lemma TwoBack(a: byte, b: byte)
    requires 0xC2 <= a < 0xE0 && 0x80 <= b < 0xC0
    ensures var c := Two(a, b) as char; EncodeChar(c) == [a, b]
  {
  }

  /** and so are three bytes */
  lemma ThreeBack(a: byte, b: byte, d: byte)
    requires 0xE0 <= a < 0xF0 && GoodSecond([a, b]) && 0x80 <= d < 0xC0
    ensures var u := Three(a, b, d); 0x800 <= u < 0x1_0000 && !(0xD800 <= u < 0xE000) && EncodeChar(u as char) == [a, b, d]
  {
    var x, y, z := a - 0xE0, b - 0x80, d - 0x80;
    var u := Three(a, b, d);
    assert u == 4096 * x + 64 * y + z && 0 <= 64 * y + z < 4096;
    assert u / 4096 == x && u / 64 == 64 * x + y;
  }

  /** and four. */
  lemma FourBack(a: byte, b: byte, d: byte, e: byte)
    requires 0xF0 <= a < 0xF5 && GoodSecond([a, b]) && 0x80 <= d < 0xC0 && 0x80 <= e < 0xC0
    ensures var u := Four(a, b, d, e); 0x1_0000 <= u < 0x11_0000 && EncodeChar(u as char) == [a, b, d, e]
  {
    FourDigits(a - 0xF0, b - 0x80, d - 0x80, e - 0x80);
  }

  lemma FourDigits(w: nat, x: nat, y: nat, z: nat)
    requires w < 5 && x < 64 && y < 64 && z < 64
    ensures
      var u := w * 262_144 + x * 4096 + y * 64 + z;
      && u / 262_144 == w && u / 4096 % 64 == x && u / 64 % 64 == y && u % 64 == z
  {
    var u := w * 262_144 + x * 4096 + y * 64 + z;
    assert u == 64 * (4096 * w + 64 * x + y) + z;
    assert u / 64 == 4096 * w + 64 * x + y;
    assert u / 4096 == 64 * w + x;
  }

  /** What starts with a scalar value starts with its encoding. */
  lemma ScalarStarts(b: seq<byte>)
    requires b != [] && Next(b).Scalar?
    ensures EncodeChar(Next(b).c) == b[..Next(b).length]
  {
    hide EncodeChar;
    if b[0] < 0x80 {
      OneBack(b[0]);
    } else if b[0] < 0xE0 {
      TwoBack(b[0], b[1]);
    } else if b[0] < 0xF0 {
      assert GoodSecond([b[0], b[1]]);
      ThreeBack(b[0], b[1], b[2]);
    } else {
      assert GoodSecond([b[0], b[1]]);
      FourBack(b[0], b[1], b[2], b[3]);
    }
  }

  lemma OneBack(a: byte)
    requires a < 0x80
    ensures EncodeChar(a as char) == [a]
  {
  }

  /** A scalar value is read exactly where its encoding stands. */
  lemma ScalarExactly(b: seq<byte>, c: char)
    requires b != []
    ensures (Next(b).Scalar? && Next(b).c == c) <==> EncodeChar(c) <= b
    ensures Next(b).Scalar? ==> Next(b).length == |EncodeChar(Next(b).c)|
  {
    hide EncodeChar, Next;
    if Next(b).Scalar? {
      ScalarStarts(b);
    }
    if EncodeChar(c) <= b {
      assert b == EncodeChar(c) + b[|EncodeChar(c)|..];
      NextOfEncoded(c, b[|EncodeChar(c)|..]);
    }
  }

  /** The bytes begin an encoding that they do not complete. */
  ghost predicate Begins(b: seq<byte>) {
    exists c: char :: b < EncodeChar(c)
  }

  /** A broken piece of more than one byte begins an encoding, */
  lemma BrokenBegins(b: seq<byte>)
    requires b != [] && Next(b).Broken? && Next(b).length > 1
    ensures Begins(b[..Next(b).length])
  {
    hide EncodeChar;
    var n := Next(b).length;
    assert GoodSecond([b[0], b[1]]);
    if b[0] < 0xF0 {
      ThreeBack(b[0], b[1], 0x80);
      assert b[..2] < EncodeChar(Three(b[0], b[1], 0x80) as char);
    } else if n == 2 {
      FourBack(b[0], b[1], 0x80, 0x80);
      assert b[..2] < EncodeChar(Four(b[0], b[1], 0x80, 0x80) as char);
    } else {
      FourBack(b[0], b[1], b[2], 0x80);
      assert b[..3] < EncodeChar(Four(b[0], b[1], b[2], 0x80) as char);
    }
  }

  /** and with one byte more it would not: it is the longest such piece. */
  lemma BrokenIsMaximal(b: seq<byte>, n: nat)
    requires b != [] && Next(b).Broken? && Next(b).length < n <= |b|
    ensures !Begins(b[..n])
  {
    hide EncodeChar;
    forall c: char
      ensures !(b[..n] < EncodeChar(c))
    {
      NextOfEncoded(c, []);
      assert EncodeChar(c) + [] == EncodeChar(c);
      LongerThanBroken(b, EncodeChar(c), n);
    }
  }

  lemma LongerThanBroken(b: seq<byte>, e: seq<byte>, n: nat)
    requires b != [] && Next(b).Broken? && Next(b).length < n <= |b|
    requires e != [] && Next(e).Scalar? && Next(e).length == |e|
    ensures !(b[..n] < e)
  {
    var a := b[..n];
    assert forall k | 0 <= k < n :: b[k] == a[k];
  }

  // ----- the three readers on text and broken pieces -----

  lemma {:induction false} TextFirst(s: string, rest: seq<byte>)
    ensures Lossy(Encode(s) + rest) == s + Lossy(rest)
    ensures Ignore(Encode(s) + rest) == s + Ignore(rest)
    ensures Strict(Encode(s) + rest) == if Strict(rest).None? then None else Some(s + Strict(rest).value)
  {
    hide EncodeChar, Next, Encode, Lossy, Ignore, Strict;
    if s == "" {
      NoBytes();
      assert Encode(s) + rest == rest && "" + Lossy(rest) == Lossy(rest) && "" + Ignore(rest) == Ignore(rest);
      if Strict(rest).Some? {
        assert "" + Strict(rest).value == Strict(rest).value;
      }
    } else {
      var first, more := EncodeChar(s[0]), Encode(s[1..]) + rest;
      EncodeFirst(s);
      assert Encode(s) + rest == first + more;
      NextOfEncoded(s[0], more);
      assert (first + more)[|first|..] == more;
      TextFirst(s[1..], rest);
      assert s == [s[0]] + s[1..];
      CharFirst(first + more);
      if Strict(rest).Some? {
        assert [s[0]] + (s[1..] + Strict(rest).value) == s + Strict(rest).value;
      }
    }
  }

  lemma NoBytes()
    ensures Encode("") == []
  {
  }

  lemma CharFirst(b: seq<byte>)
    requires b != [] && Next(b).Scalar?
    ensures
      var c, rest := Next(b).c, b[Next(b).length..];
      && Lossy(b) == [c] + Lossy(rest) && Ignore(b) == [c] + Ignore(rest)
      && Strict(b) == if Strict(rest).None? then None else Some([c] + Strict(rest).value)
  {
    hide Next;
  }

  /** A broken piece after some text is one replacement character, or nothing, or the end of strict reading. */
  lemma BrokenPiece(s: string, b: seq<byte>)
    requires b != [] && Next(b).Broken?
    ensures
      var rest := b[Next(b).length..];
      && Lossy(Encode(s) + b) == s + "\U{FFFD}" + Lossy(rest)
      && Ignore(Encode(s) + b) == s + Ignore(rest)
      && Strict(Encode(s) + b) == None
  {
    hide Encode, Next;
    TextFirst(s, b);
    assert "" + Ignore(b[Next(b).length..]) == Ignore(b[Next(b).length..]);
  }
}
