/** When the payloads of a message hold no more characters than the message (src/digest.rs). */
module Narrow {
  import opened Wrappers
  import opened Text
  import opened Utf8
  import opened Mime
  import opened Multipart
  import opened Payloads
  import Html
  import Transfer

  // ----- characters start at the bytes that continue nothing -----

  predicate Continues(b: byte) {
    0x80 <= b < 0xC0
  }

  function Starts(b: seq<byte>): (n: nat)
    ensures n <= |b|
  {
    if b == [] then 0 else (if Continues(b[0]) then 0 else 1) + Starts(b[1..])
  }

  lemma {:induction false} StartsAfter(b: seq<byte>, n: nat)
    requires 0 < n <= |b| && forall k | 0 < k < n :: Continues(b[k])
    ensures Starts(b) == (if Continues(b[0]) then 0 else 1) + Starts(b[n..])
  {
    if n > 1 {
      assert b[1..][n - 1..] == b[n..];
      StartsAfter(b[1..], n - 1);
    }
  }

  lemma ChunkBytes(b: seq<byte>)
    requires b != []
    ensures forall k | 0 < k < Next(b).length :: Continues(b[k])
    ensures Next(b).Scalar? ==> !Continues(b[0])
  {
  }

  /** Lossy decoding yields a character for each start at least; decoding that drops yields one at most. */
  lemma {:induction false} StartsAndCharacters(b: seq<byte>)
    ensures |Ignore(b)| <= Starts(b) <= |Lossy(b)|
  {
    hide Next, Continues;
    if b != [] {
      ChunkBytes(b);
      StartsAfter(b, Next(b).length);
      StartsAndCharacters(b[Next(b).length..]);
    }
  }

  lemma {:induction false} AsciiCharacters(b: seq<byte>)
    ensures |DecodeAscii(b)| <= Starts(b)
  {
    if b != [] {
      AsciiCharacters(b[1..]);
    }
  }

  lemma {:induction false} StartsDrop(b: seq<byte>, n: nat)
    requires n <= |b|
    ensures Starts(b[n..]) <= Starts(b)
  {
    if n > 0 {
      assert b[1..][n - 1..] == b[n..];
      StartsDrop(b[1..], n - 1);
    } else {
      assert b[0..] == b;
    }
  }

  lemma HexStarts(b: byte)
    requires Transfer.IsHex(b)
    ensures !Continues(b)
  {
  }

  lemma {:induction false} QuotedPrintableStarts(b: seq<byte>)
    ensures Starts(Transfer.QuotedPrintable(b)) <= Starts(b)
  {
    hide Transfer.EscapedByte, Transfer.IsHex, Continues;
    if b == [] {
    } else if Transfer.SoftBreakLength(b) > 0 {
      QuotedPrintableStarts(b[Transfer.SoftBreakLength(b)..]);
      StartsDrop(b, Transfer.SoftBreakLength(b));
    } else if Transfer.StartsEscape(b) {
      QuotedPrintableStarts(b[3..]);
      HexStarts(b[1]);
      assert b[1..][1..] == b[2..] && b[2..][1..] == b[3..];
      assert Starts(b[1..]) == 1 + Starts(b[2..]);
      StartsDrop(b[2..], 1);
      StartsDrop(b, 1);
      var v := Transfer.EscapedByte(b[1], b[2]);
      assert ([v] + Transfer.QuotedPrintable(b[3..]))[1..] == Transfer.QuotedPrintable(b[3..]);
    } else {
      QuotedPrintableStarts(b[1..]);
      assert ([b[0]] + Transfer.QuotedPrintable(b[1..]))[1..] == Transfer.QuotedPrintable(b[1..]);
    }
  }

  lemma {:induction false} SextetStarts(b: seq<byte>)
    ensures |Transfer.Sextets(b)| <= Starts(b)
  {
    if b != [] {
      SextetStarts(b[1..]);
    }
  }

  lemma DecodedStarts(b: seq<byte>, encoding: string)
    ensures Starts(DecodeTransfer(b, encoding)) <= Starts(b)
  {
    hide Lower, Trim, Starts, Transfer.QuotedPrintable, Transfer.Unpack, Transfer.Sextets;
    QuotedPrintableStarts(b);
    SextetStarts(b);
  }

  // ----- one leaf -----

  /** The guard of a leaf: its text is decoded by a decoder that yields no more characters than the bytes start; or as
      Latin-1 from no more bytes than the body has characters; or by the library to no more than these. */
  predicate NarrowLeaf(part: Part, registry: Registry) {
    var kind := ContentTypeOf(part);
    var bytes := DecodeTransfer(part.body, TransferEncodingOf(part));
    kind.main == "text" ==>
      match DecoderOf(kind.charset.GetOr("ascii"))
      case Ascii => true
      case Unicode => true
      case LatinOne => |bytes| <= |Lossy(part.body)|
      case Registered(name) => registry(bytes, name).None? || |registry(bytes, name).value| <= |Lossy(part.body)|
  }

  /** The guard suffices for a leaf, and it is exact unless the text is stripped of HTML. */
  lemma NarrowLeafExactly(part: Part, registry: Registry)
    ensures NarrowLeaf(part, registry) ==> |LeafPayload(part, registry)| <= |Lossy(part.body)|
    ensures ContentTypeOf(part).sub != "html" ==>
              (NarrowLeaf(part, registry) <==> |LeafPayload(part, registry)| <= |Lossy(part.body)|)
  {
    hide ContentTypeOf, TransferEncodingOf, DecodeTransfer, DecoderOf, DecodeAscii, Ignore, Lossy, Html.HtmlText, Starts;
    var kind := ContentTypeOf(part);
    var bytes := DecodeTransfer(part.body, TransferEncodingOf(part));
    DecodedStarts(part.body, TransferEncodingOf(part));
    StartsAndCharacters(bytes);
    StartsAndCharacters(part.body);
    AsciiCharacters(bytes);
    Html.HtmlTextShrinks(DecodeCharset(bytes, kind.charset.GetOr("ascii"), registry));
  }

  /** A library that yields a character a byte at most meets the guard wherever a body has as many characters as bytes. */
  lemma WideLeaf(part: Part, registry: Registry)
    requires NonGrowing(registry)
    ensures |Lossy(part.body)| == |part.body| ==> NarrowLeaf(part, registry)
  {
    hide ContentTypeOf, TransferEncodingOf, DecodeTransfer, DecoderOf, Lossy;
  }

  // ----- cutting at an ASCII byte -----

  lemma ChunkBeforeAscii(b: seq<byte>, i: nat)
    requires 0 < i < |b| && b[i] < 0x80
    ensures Next(b).length <= i && Next(b[..i]) == Next(b)
  {
    ChunkBytes(b);
    var a := b[..i];
    assert forall k | 0 <= k < i :: a[k] == b[k];
  }

  function FirstCharacter(b: seq<byte>): string
    requires b != []
  {
    [if Next(b).Scalar? then Next(b).c else REPLACEMENT]
  }

  lemma LossyStep(b: seq<byte>)
    requires b != []
    ensures Lossy(b) == FirstCharacter(b) + Lossy(b[Next(b).length..])
  {
    hide Next;
  }

  lemma {:induction false} LossyCut(b: seq<byte>, i: nat)
    requires i < |b| && b[i] < 0x80
    ensures Lossy(b) == Lossy(b[..i]) + Lossy(b[i..])
    decreases |b|
  {
    hide Next, Lossy;
    if i == 0 {
      NoCharacters();
      assert b[..0] == [] && b[0..] == b;
    } else {
      ChunkBeforeAscii(b, i);
      var n := Next(b).length;
      LossyStep(b);
      LossyStep(b[..i]);
      var rest := b[..i][n..];
      if n == i {
        NoCharacters();
        assert rest == [];
      } else {
        LossyCut(b[n..], i - n);
        assert b[n..][..i - n] == rest && b[n..][i - n..] == b[i..];
      }
    }
  }

  /** An ASCII byte is a character of its own, and decoding splits around it. */
  lemma LossyAround(b: seq<byte>, i: nat)
    requires i < |b| && b[i] < 0x80
    ensures |Lossy(b)| == |Lossy(b[..i])| + 1 + |Lossy(b[i + 1..])|
  {
    hide Lossy;
    LossyCut(b, i);
    FirstAscii(b[i..]);
    assert b[i..][1..] == b[i + 1..];
  }

  lemma FirstAscii(b: seq<byte>)
    requires b != [] && b[0] < 0x80
    ensures Lossy(b) == [b[0] as char] + Lossy(b[1..])
  {
  }

  // ----- the body of a part -----

  lemma NormalizeAtReturn(b: seq<byte>, i: nat)
    requires i < |b| && b[i] == 13 && 13 !in b[..i]
    ensures
      var n := if i + 1 < |b| && b[i + 1] == 10 then i + 2 else i + 1;
      NormalizeNewlines(b) == b[..i] + ([10] + NormalizeNewlines(b[n..]))
  {
    hide NormalizeNewlines;
    assert b[..i] + b[i..] == b;
    NormalizePrefix(b[..i], b[i..]);
    NormalizeNewlinesAt(b, i);
  }

  /** Turning line ends into newlines does not add characters. */
  lemma {:induction false} NormalizeCharacters(b: seq<byte>)
    ensures |Lossy(NormalizeNewlines(b))| <= |Lossy(b)|
    decreases |b|
  {
    hide Lossy, Find, NormalizeNewlines;
    var i := Find(b, 13);
    if i == |b| {
      NormalizePrefix(b, []);
      NormalizeNothing([]);
      assert b + [] == b;
    } else {
      var n := if i + 1 < |b| && b[i + 1] == 10 then i + 2 else i + 1;
      NormalizeCharacters(b[n..]);
      NormalizeAtReturn(b, i);
      var rest := NormalizeNewlines(b[n..]);
      var normal := b[..i] + ([10] + rest);
      LossyAround(normal, i);
      assert normal[..i] == b[..i] && normal[i + 1..] == rest;
      LossyAround(b, i);
      if n == i + 2 {
        FirstAscii(b[i + 1..]);
        assert b[i + 1..][1..] == b[n..];
      }
    }
  }

  lemma BodyCharacters(bytes: seq<byte>)
    ensures |Lossy(ParsePart(bytes).body)| <= |Lossy(bytes)|
  {
    hide Lossy, NormalizeNewlines, FindBlank, Lines, ValidHeaderLine, HeaderLines;
    NormalizeCharacters(bytes);
    var n := NormalizeNewlines(bytes);
    var i := FindBlank(n);
    if i < |n| {
      LossyAround(n, i + 1);
    } else {
      NoCharacters();
    }
  }

  lemma NoCharacters()
    ensures Lossy([]) == ""
  {
  }

  // ----- the parts of a multipart body -----

  function TotalLossy(parts: seq<seq<byte>>): nat {
    if parts == [] then 0 else TotalLossy(parts[..|parts| - 1]) + |Lossy(parts[|parts| - 1])|
  }

  lemma ClosedCharacters(s: Scan)
    ensures TotalLossy(Close(s)) == TotalLossy(s.parts)
            + if s.inside && s.current != [] then |Join(s.current, "\n")| else 0
  {
    hide Encode, Lossy, Join;
    if s.inside && s.current != [] {
      assert Close(s)[..|s.parts|] == s.parts;
      ReadEncoded(Join(s.current, "\n"));
    }
  }

  lemma ScanLineCharacters(s: Scan, line: string, boundary: string)
    requires s.inside && !s.closed
    ensures
      var next := ScanLine(s, line, boundary);
      && next.inside
      && (next.closed ==> TotalLossy(next.parts) <= TotalLossy(Close(s)))
      && (!next.closed ==> TotalLossy(Close(next)) <= TotalLossy(Close(s)) + |line| + 1)
  {
    hide TrimEnd, TotalLossy, Multipart.Piece, Join;
    ClosedCharacters(s);
    ClosedCharacters(ScanLine(s, line, boundary));
    JoinSnoc(s.current, line, "\n");
  }

  /** Once a delimiter was seen, closed and open parts together grow by no more than the lines read. */
  lemma {:induction false} ScanCharacters(s: Scan, lines: seq<string>, boundary: string)
    requires s.inside && !s.closed
    ensures TotalLossy(Finish(ScanLines(s, lines, boundary))) <= TotalLossy(Close(s)) + |Terminated(lines)|
    decreases |lines|
  {
    hide ScanLine, Close, TotalLossy;
    if lines != [] {
      var next := ScanLine(s, lines[0], boundary);
      ScanLineCharacters(s, lines[0], boundary);
      if next.closed {
        ScanClosed(next, lines[1..], boundary);
      } else {
        ScanCharacters(next, lines[1..], boundary);
      }
    }
  }

  lemma {:induction false} ScanCharactersBefore(s: Scan, lines: seq<string>, boundary: string)
    requires !s.inside && !s.closed && s.parts == [] && s.current == []
    ensures
      var parts := Finish(ScanLines(s, lines, boundary));
      parts == [] || TotalLossy(parts) + 3 <= |Terminated(lines)|
    decreases |lines|
  {
    hide TrimEnd, TotalLossy, Multipart.Piece;
    if lines != [] {
      var next := ScanLine(s, lines[0], boundary);
      if next.closed {
        ScanClosed(next, lines[1..], boundary);
      } else if next.inside {
        ScanCharacters(next, lines[1..], boundary);
        NoParts();
        assert |lines[0]| >= 2;
      } else {
        ScanCharactersBefore(next, lines[1..], boundary);
      }
    }
  }

  lemma NoParts()
    ensures TotalLossy([]) == 0
  {
  }

  /** The parts of a multipart body together hold fewer characters than the body. */
  lemma PartsAreNarrower(body: seq<byte>, boundary: string)
    ensures
      var parts := Parts(body, boundary);
      TotalLossy(parts) <= |Lossy(body)| && (parts != [] ==> TotalLossy(parts) < |Lossy(body)|)
  {
    hide Lossy, Replace, Lines, ScanLine, TotalLossy;
    var t := Lossy(body);
    ReplaceShrinks(t, "\r\n", "\n");
    ReplaceShrinks(Replace(t, "\r\n", "\n"), "\r", "\n");
    LinesLength(UnixText(body));
    ScanCharactersBefore(START, Lines(UnixText(body)), boundary);
    NoParts();
  }

  // ----- the walk -----

  /** The guard of a message: every leaf that the walk reaches is narrow. */
  predicate NarrowPart(part: Part, registry: Registry)
    decreases Weight(part.body)
  {
    if IsMultipart(part) then
      LighterChildren(part);
      forall c | c in Children(part) :: NarrowPart(ParsePart(c), registry)
    else NarrowLeaf(part, registry)
  }

  lemma {:induction false} NarrowPayloads(part: Part, registry: Registry)
    requires NarrowPart(part, registry)
    ensures TotalChars(PayloadsOf(part, registry)) <= |Lossy(part.body)|
    decreases Weight(part.body), 1, 0
  {
    hide ParsePart, ContentTypeOf, Parts, LeafPayload, Lossy, Weight, NarrowLeaf, TotalLossy;
    if IsMultipart(part) {
      LighterChildren(part);
      var boundary := ContentTypeOf(part).boundary;
      NoParts();
      if boundary.Some? {
        PartsAreNarrower(part.body, boundary.value);
      }
      NarrowChildren(Children(part), registry, Weight(part.body));
    } else {
      NarrowLeafExactly(part, registry);
      assert [LeafPayload(part, registry)][..0] == [];
    }
  }

  lemma {:induction false} NarrowChildren(children: seq<seq<byte>>, registry: Registry, bound: nat)
    requires forall c | c in children :: Weight(ParsePart(c).body) < bound
    requires forall c | c in children :: NarrowPart(ParsePart(c), registry)
    ensures TotalChars(PayloadsOfAll(children, registry, bound)) <= TotalLossy(children)
    decreases bound, 0, |children|
  {
    hide ParsePart, Lossy, PayloadsOf, TotalChars, Weight, NarrowPart;
    NoChars();
    if children != [] {
      var k := |children| - 1;
      var c := children[k];
      NarrowChildren(children[..k], registry, bound);
      NarrowPayloads(ParsePart(c), registry);
      BodyCharacters(c);
      TotalCharsAppend(PayloadsOfAll(children[..k], registry, bound), PayloadsOf(ParsePart(c), registry));
    }
  }

  /** For every message, however nested, whose leaves are narrow: its payloads together hold at most as many
      characters as the message. */
  lemma NarrowMessage(bytes: seq<byte>, registry: Registry)
    requires NarrowPart(ParsePart(bytes), registry)
    ensures TotalChars(PayloadsOf(ParsePart(bytes), registry)) <= |Lossy(bytes)|
  {
    hide ParsePart, Lossy, NarrowPart, PayloadsOf, TotalChars;
    NarrowPayloads(ParsePart(bytes), registry);
    BodyCharacters(bytes);
  }

  // ----- ASCII messages are narrow -----

  predicate AsciiBytes(b: seq<byte>) {
    forall k | 0 <= k < |b| :: b[k] < 0x80
  }

  lemma {:induction false} AsciiLossy(b: seq<byte>)
    requires AsciiBytes(b)
    ensures |Lossy(b)| == |b| && IsAscii(Lossy(b))
  {
    if b != [] {
      AsciiLossy(b[1..]);
    }
  }

  lemma {:induction false} AsciiNormalized(b: seq<byte>)
    requires AsciiBytes(b)
    ensures AsciiBytes(NormalizeNewlines(b))
  {
    if b != [] {
      AsciiNormalized(b[if b[0] == 13 && |b| > 1 && b[1] == 10 then 2 else 1..]);
    }
  }

  lemma AsciiBody(b: seq<byte>)
    requires AsciiBytes(b)
    ensures AsciiBytes(ParsePart(b).body)
  {
    hide Lossy, NormalizeNewlines, FindBlank, Lines, ValidHeaderLine, HeaderLines;
    AsciiNormalized(b);
  }

  lemma {:induction false} AsciiReplaced(s: string, pattern: string, with: string)
    requires |pattern| > 0 && IsAscii(s) && IsAscii(with)
    ensures IsAscii(Replace(s, pattern, with))
  {
    if |s| >= |pattern| {
      AsciiReplaced(s[if s[..|pattern|] == pattern then |pattern| else 1..], pattern, with);
    }
  }

  predicate AllAscii(lines: seq<string>) {
    forall k | 0 <= k < |lines| :: IsAscii(lines[k])
  }

  lemma {:induction false} AsciiLines(s: string)
    requires IsAscii(s)
    ensures AllAscii(Lines(s))
  {
    hide Find;
    if s != "" {
      var i := Find(s, '\n');
      if i < |s| {
        AsciiLines(s[i + 1..]);
      }
    }
  }

  lemma {:induction false} AsciiJoined(lines: seq<string>)
    requires AllAscii(lines)
    ensures IsAscii(Join(lines, "\n"))
  {
    if |lines| > 1 {
      AsciiJoined(lines[1..]);
    }
  }

  predicate AsciiParts(parts: seq<seq<byte>>) {
    forall k | 0 <= k < |parts| :: AsciiBytes(parts[k])
  }

  lemma AsciiClosed(s: Scan)
    requires AsciiParts(s.parts) && AllAscii(s.current)
    ensures AsciiParts(Close(s))
  {
    hide Encode, Join;
    AsciiJoined(s.current);
    EncodeAscii(Join(s.current, "\n"));
  }

  lemma {:induction false} AsciiScan(s: Scan, lines: seq<string>, boundary: string)
    requires AsciiParts(s.parts) && AllAscii(s.current) && AllAscii(lines)
    ensures AsciiParts(Finish(ScanLines(s, lines, boundary)))
    decreases |lines|
  {
    hide TrimEnd, Close, AsciiParts, IsAscii;
    AsciiClosed(s);
    if lines != [] {
      assert AllAscii(s.current + [lines[0]]) && AllAscii(lines[1..]);
      AsciiScan(ScanLine(s, lines[0], boundary), lines[1..], boundary);
    }
  }

  lemma AsciiChildren(part: Part)
    requires AsciiBytes(part.body)
    ensures AsciiParts(Children(part))
  {
    hide ContentTypeOf, Lossy, Lines, Replace, ScanLines, AsciiBytes, IsAscii;
    var t := Lossy(part.body);
    AsciiLossy(part.body);
    assert IsAscii("\n") by {
      NewlineIsAscii();
    }
    AsciiReplaced(t, "\r\n", "\n");
    AsciiReplaced(Replace(t, "\r\n", "\n"), "\r", "\n");
    AsciiLines(UnixText(part.body));
    if ContentTypeOf(part).boundary.Some? {
      AsciiScan(START, Lines(UnixText(part.body)), ContentTypeOf(part).boundary.value);
    }
  }

  lemma NewlineIsAscii()
    ensures IsAscii("\n")
  {
  }

  lemma {:induction false} AsciiIsNarrow(part: Part, registry: Registry)
    requires NonGrowing(registry) && AsciiBytes(part.body)
    ensures NarrowPart(part, registry)
    decreases Weight(part.body)
  {
    hide ParsePart, ContentTypeOf, Parts, Lossy, Weight, NarrowLeaf, AsciiBytes, Children;
    if IsMultipart(part) {
      LighterChildren(part);
      AsciiChildren(part);
      forall c | c in Children(part)
        ensures NarrowPart(ParsePart(c), registry)
      {
        AsciiBody(c);
        AsciiIsNarrow(ParsePart(c), registry);
      }
    } else {
      AsciiLossy(part.body);
      WideLeaf(part, registry);
    }
  }

  /** Under any charset and transfer encoding, an ASCII message is narrow. */
  lemma AsciiPayloadsSize(bytes: seq<byte>, registry: Registry)
    requires NonGrowing(registry) && forall k | 0 <= k < |bytes| :: bytes[k] < 0x80
    ensures NarrowPart(ParsePart(bytes), registry)
    ensures TotalChars(PayloadsOf(ParsePart(bytes), registry)) <= |Lossy(bytes)|
  {
    hide ParsePart, Lossy, PayloadsOf, TotalChars, NarrowPart;
    AsciiBody(bytes);
    AsciiIsNarrow(ParsePart(bytes), registry);
    NarrowMessage(bytes, registry);
  }
}
