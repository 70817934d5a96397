/** The walk over nested multipart messages that collects the payloads to digest (src/digest.rs):
    why it ends, and how much it can collect. */
module Payloads {
  import opened Wrappers
  import opened Text
  import opened Utf8
  import opened Mime
  import opened Multipart
  import Html

  // ----- sizes -----

  /** The size of some bytes after lossy decoding, in bytes. Unlike their own length it does not
      grow from a multipart body to its parts. */
  function Weight(b: seq<byte>): nat {
    |Encode(Lossy(b))|
  }

  ghost predicate ValidUtf8(b: seq<byte>) {
    Encode(Lossy(b)) == b
  }

  function TotalBytes(parts: seq<seq<byte>>): nat {
    if parts == [] then 0 else TotalBytes(parts[..|parts| - 1]) + |parts[|parts| - 1]|
  }

  function LineBytes(lines: seq<string>): nat {
    if lines == [] then 0 else |Encode(lines[0])| + 1 + LineBytes(lines[1..])
  }

  lemma {:induction false} ReplaceBytes(s: string, pattern: string, with: string)
    requires |pattern| > 0 && |Encode(with)| <= |Encode(pattern)|
    ensures |Encode(Replace(s, pattern, with))| <= |Encode(s)|
  {
    hide EncodeChar;
    if |s| >= |pattern| {
      if s[..|pattern|] == pattern {
        ReplaceBytes(s[|pattern|..], pattern, with);
        EncodeConcat(with, Replace(s[|pattern|..], pattern, with));
        EncodeConcat(pattern, s[|pattern|..]);
        assert s == pattern + s[|pattern|..];
      } else {
        ReplaceBytes(s[1..], pattern, with);
        var rest := Replace(s[1..], pattern, with);
        assert ([s[0]] + rest)[1..] == rest;
      }
    }
  }

  lemma UnixTextBytes(b: seq<byte>)
    ensures |Encode(UnixText(b))| <= Weight(b)
  {
    hide Lossy, Replace;
    var t := Lossy(b);
    NewlineBytes();
    ReplaceBytes(t, "\r\n", "\n");
    ReplaceBytes(Replace(t, "\r\n", "\n"), "\r", "\n");
  }

  lemma NewlineBytes()
    ensures |Encode("\n")| == 1 && |Encode("\r")| == 1 && |Encode("\r\n")| == 2
  {
    EncodeAscii("\n");
    EncodeAscii("\r");
    EncodeAscii("\r\n");
  }

  lemma {:induction false} LinesBytes(s: string)
    ensures LineBytes(Lines(s)) <= |Encode(s)| + 1
  {
    hide Encode, Find, StripCr;
    if s != "" {
      var i := Find(s, '\n');
      if i < |s| {
        var line, rest := s[..i], s[i + 1..];
        LinesBytes(rest);
        assert s == line + "\n" + rest;
        EncodedLine(line, rest);
        StripCrBytes(line);
        assert Lines(s)[1..] == Lines(rest);
      } else {
        assert LineBytes([s]) == |Encode(s)| + 1 + LineBytes([]);
      }
    }
  }

  lemma EncodedLine(line: string, rest: string)
    ensures |Encode(line + "\n" + rest)| == |Encode(line)| + 1 + |Encode(rest)|
  {
    hide Encode;
    EncodeConcat(line + "\n", rest);
    EncodeConcat(line, "\n");
    NewlineBytes();
  }

  lemma StripCrBytes(s: string)
    ensures |Encode(StripCr(s))| <= |Encode(s)|
  {
    if s != "" {
      var t := s[..|s| - 1];
      EncodeConcat(t, [s[|s| - 1]]);
      assert s == t + [s[|s| - 1]];
    }
  }

  lemma PieceBytes(current: seq<string>, line: string)
    ensures |Multipart.Piece(current + [line])|
         <= (if current == [] then 0 else |Multipart.Piece(current)| + 1) + |Encode(line)|
  {
    hide Encode;
    JoinSnoc(current, line, "\n");
    if current != [] {
      var joined := Join(current, "\n");
      EncodeConcat(joined + "\n", line);
      EncodeConcat(joined, "\n");
      NewlineBytes();
    }
  }

  // ----- the parts of a multipart body weigh less than the body -----

  ghost predicate AllValid(parts: seq<seq<byte>>) {
    forall p | p in parts :: ValidUtf8(p)
  }

  lemma CloseAdds(s: Scan)
    ensures TotalBytes(Close(s)) == TotalBytes(s.parts)
            + if s.inside && s.current != [] then |Multipart.Piece(s.current)| else 0
    ensures AllValid(s.parts) ==> AllValid(Close(s))
  {
    hide Encode, Lossy, Join;
    if s.inside && s.current != [] {
      var piece := Multipart.Piece(s.current);
      assert Close(s)[..|s.parts|] == s.parts;
      ReadEncoded(Join(s.current, "\n"));
    }
  }

  lemma ScanLineBytes(s: Scan, line: string, boundary: string)
    requires s.inside && !s.closed && AllValid(s.parts)
    ensures
      var next := ScanLine(s, line, boundary);
      && next.inside && AllValid(next.parts)
      && (next.closed ==> TotalBytes(next.parts) <= TotalBytes(Close(s)))
      && (!next.closed ==> TotalBytes(Close(next)) <= TotalBytes(Close(s)) + |Encode(line)| + 1)
  {
    hide TrimEnd, Encode, Lossy, Multipart.Piece, TotalBytes, AllValid;
    CloseAdds(s);
    CloseAdds(ScanLine(s, line, boundary));
    PieceBytes(s.current, line);
  }

  /** Once a delimiter was seen, closed and open parts together grow by no more than the lines read. */
  lemma {:induction false} ScanBytes(s: Scan, lines: seq<string>, boundary: string)
    requires s.inside && !s.closed && AllValid(s.parts)
    ensures TotalBytes(Finish(ScanLines(s, lines, boundary))) <= TotalBytes(Close(s)) + LineBytes(lines)
    ensures AllValid(Finish(ScanLines(s, lines, boundary)))
    decreases |lines|
  {
    hide ScanLine, Close, Encode, TotalBytes, AllValid;
    if lines == [] {
      CloseAdds(s);
    } else {
      var next := ScanLine(s, lines[0], boundary);
      ScanLineBytes(s, lines[0], boundary);
      if next.closed {
        ScanClosed(next, lines[1..], boundary);
      } else {
        ScanBytes(next, lines[1..], boundary);
      }
    }
  }

  lemma {:induction false} ScanBytesBefore(s: Scan, lines: seq<string>, boundary: string)
    requires !s.inside && !s.closed && s.parts == [] && s.current == []
    ensures
      var parts := Finish(ScanLines(s, lines, boundary));
      AllValid(parts) && (parts == [] || TotalBytes(parts) + 3 <= LineBytes(lines))
    decreases |lines|
  {
    hide TrimEnd, Encode, Lossy, Multipart.Piece;
    if lines != [] {
      var next := ScanLine(s, lines[0], boundary);
      if next.closed {
        ScanClosed(next, lines[1..], boundary);
      } else if next.inside {
        ScanBytes(next, lines[1..], boundary);
        assert |lines[0]| >= 2;
      } else {
        ScanBytesBefore(next, lines[1..], boundary);
      }
    }
  }

  /** The parts of a multipart body are valid UTF-8 and together weigh strictly less than the body. */
  lemma PartsWeighLess(body: seq<byte>, boundary: string)
    ensures
      var parts := Parts(body, boundary);
      AllValid(parts) && (parts == [] || TotalBytes(parts) < Weight(body))
  {
    hide Encode, Lossy, UnixText, Lines, ScanLine;
    var text := UnixText(body);
    UnixTextBytes(body);
    LinesBytes(text);
    ScanBytesBefore(START, Lines(text), boundary);
  }

  // ----- a part's body weighs no more than the part -----

  function NormalizeText(t: string): string {
    if t == "" then ""
    else if t[0] == '\r' then "\n" + NormalizeText(t[if |t| > 1 && t[1] == '\n' then 2 else 1..])
    else [t[0]] + NormalizeText(t[1..])
  }

  lemma {:induction false} NormalizeTextIdentity(s: string)
    requires '\r' !in s
    ensures NormalizeText(s) == s
  {
    if s != "" {
      NormalizeTextIdentity(s[1..]);
    }
  }

  lemma {:induction false} NormalizePrefix(a: seq<byte>, b: seq<byte>)
    requires 13 !in a
    ensures NormalizeNewlines(a + b) == a + NormalizeNewlines(b)
  {
    if a == [] {
      assert a + b == b;
    } else {
      assert (a + b)[1..] == a[1..] + b;
      NormalizePrefix(a[1..], b);
    }
  }

  lemma {:induction false} NormalizeEncoded(t: string)
    ensures NormalizeNewlines(Encode(t)) == Encode(NormalizeText(t))
    ensures |Encode(NormalizeText(t))| <= |Encode(t)|
  {
    if t == "" {
    } else if t[0] != '\r' {
      NormalizePrefix(EncodeChar(t[0]), Encode(t[1..]));
      NormalizeEncoded(t[1..]);
      EncodeCons(t[0], NormalizeText(t[1..]));
    } else {
      var n := if |t| > 1 && t[1] == '\n' then 2 else 1;
      NormalizeEncoded(t[n..]);
      EncodeCons('\n', NormalizeText(t[n..]));
      EncodedReturn(t);
    }
  }

  lemma EncodeCons(c: char, t: string)
    ensures Encode([c] + t) == EncodeChar(c) + Encode(t)
  {
    assert ([c] + t)[1..] == t;
  }

  lemma EncodedReturn(t: string)
    requires t != "" && t[0] == '\r'
    ensures
      var n := if |t| > 1 && t[1] == '\n' then 2 else 1;
      && NormalizeNewlines(Encode(t)) == [10] + NormalizeNewlines(Encode(t[n..]))
      && |Encode(t)| >= 1 + |Encode(t[n..])|
  {
    var b := Encode(t);
    assert b == [13] + Encode(t[1..]);
    if |t| > 1 {
      assert Encode(t[1..]) == EncodeChar(t[1]) + Encode(t[1..][1..]);
      assert t[1..][1..] == t[2..];
      assert b[1] == EncodeChar(t[1])[0];
      if t[1] == '\n' {
        assert b[2..] == Encode(t[2..]);
      } else {
        assert b[1..] == Encode(t[1..]);
      }
    } else {
      assert b[1..] == [] && t[1..] == "";
    }
  }

  lemma BodyWeighsLess(bytes: seq<byte>)
    requires ValidUtf8(bytes)
    ensures Weight(ParsePart(bytes).body) <= |bytes|
  {
    hide Encode, Lossy, NormalizeNewlines, FindBlank, Lines, ValidHeaderLine;
    var t := Lossy(bytes);
    NormalizeEncoded(t);
    var u := NormalizeText(t);
    var n := Encode(u);
    ReadEncoded(u);
    var i := FindBlank(n);
    if i < |n| {
      var k := AsciiBoundary(u, i + 1);
      ReadEncoded(u[k + 1..]);
    } else {
      EncodedNothing();
    }
  }

  lemma EncodedNothing()
    ensures Encode(Lossy([])) == []
  {
  }

  // ----- the walk -----

  /** Every part that a body splits into has a lighter body. */
  lemma ChildrenWeighLess(body: seq<byte>, boundary: string)
    ensures forall c | c in Parts(body, boundary) :: Weight(ParsePart(c).body) < Weight(body)
  {
    hide Encode, Lossy, Parts, ParsePart;
    PartsWeighLess(body, boundary);
    var parts := Parts(body, boundary);
    forall c | c in parts
      ensures Weight(ParsePart(c).body) < Weight(body)
    {
      BodyWeighsLess(c);
      MemberBytes(parts, c);
    }
  }

  lemma {:induction false} MemberBytes(parts: seq<seq<byte>>, p: seq<byte>)
    requires p in parts
    ensures |p| <= TotalBytes(parts)
  {
    var k := |parts| - 1;
    if p != parts[k] {
      MemberBytes(parts[..k], p);
    }
  }

  function Children(part: Part): seq<seq<byte>> {
    var boundary := ContentTypeOf(part).boundary;
    if boundary.Some? then Parts(part.body, boundary.value) else []
  }

  predicate IsMultipart(part: Part) {
    ContentTypeOf(part).main == "multipart"
  }

  /** The payloads of a part: its own, or those of its children in order. */
  function PayloadsOf(part: Part, registry: Registry): seq<string>
    decreases Weight(part.body), 1, 0
  {
    if IsMultipart(part) then
      LighterChildren(part);
      PayloadsOfAll(Children(part), registry, Weight(part.body))
    else [LeafPayload(part, registry)]
  }

  function PayloadsOfAll(children: seq<seq<byte>>, registry: Registry, ghost bound: nat): seq<string>
    requires forall c | c in children :: Weight(ParsePart(c).body) < bound
    decreases bound, 0, |children|
  {
    if children == [] then []
    else
      assert children[|children| - 1] in children;
      PayloadsOfAll(children[..|children| - 1], registry, bound)
      + PayloadsOf(ParsePart(children[|children| - 1]), registry)
  }

  lemma LighterChildren(part: Part)
    ensures forall c | c in Children(part) :: Weight(ParsePart(c).body) < Weight(part.body)
  {
    hide Weight, ParsePart, ContentTypeOf, Parts;
    var boundary := ContentTypeOf(part).boundary;
    if boundary.Some? {
      ChildrenWeighLess(part.body, boundary.value);
    }
  }

  /** The recursive walk, appending to its output: it ends on every part. */
  method DigestPayloads(part: Part, registry: Registry, out: seq<string>) returns (r: seq<string>)
    ensures r == out + PayloadsOf(part, registry)
    decreases Weight(part.body)
  {
    hide Weight, ParsePart, ContentTypeOf, Parts, LeafPayload;
    r := out;
    var kind := ContentTypeOf(part);
    if kind.main == "multipart" {
      if kind.boundary.Some? {
        var children := SplitMultipart(part.body, kind.boundary.value);
        LighterChildren(part);
        PartsAreChildren(part);
        for i := 0 to |children|
          invariant r == out + PayloadsOfAll(children[..i], registry, Weight(part.body))
        {
          assert children[..i + 1][..i] == children[..i];
          var child := Mime.Parse(children[i]);
          r := DigestPayloads(child, registry, r);
        }
        assert children[..|children|] == children;
      }
      return;
    }
    r := r + [LeafPayload(part, registry)];
  }

  lemma PartsAreChildren(part: Part)
    requires ContentTypeOf(part).boundary.Some?
    ensures Children(part) == Parts(part.body, ContentTypeOf(part).boundary.value)
  {
  }

  // ----- how much the walk collects -----

  function TotalChars(payloads: seq<string>): nat {
    if payloads == [] then 0 else TotalChars(payloads[..|payloads| - 1]) + |payloads[|payloads| - 1]|
  }

  lemma {:induction false} TotalCharsAppend(a: seq<string>, b: seq<string>)
    ensures TotalChars(a + b) == TotalChars(a) + TotalChars(b)
  {
    if b == [] {
      assert a + b == a;
    } else {
      var k := |b| - 1;
      assert (a + b)[..|a| + k] == a + b[..k];
      TotalCharsAppend(a, b[..k]);
    }
  }

  /** The library yields at most one character per byte. */
  ghost predicate NonGrowing(registry: Registry) {
    forall bytes, name :: registry(bytes, name).Some? ==> |registry(bytes, name).value| <= |bytes|
  }

  lemma LeafSize(part: Part, registry: Registry)
    requires NonGrowing(registry)
    ensures |LeafPayload(part, registry)| <= |part.body|
  {
    hide Html.HtmlText, ContentTypeOf, TransferEncodingOf, DecodeTransfer;
    var kind := ContentTypeOf(part);
    var decoded := DecodeTransfer(part.body, TransferEncodingOf(part));
    var text := DecodeCharset(decoded, kind.charset.GetOr("ascii"), registry);
    CharsetSize(decoded, kind.charset.GetOr("ascii"), registry);
    Html.HtmlTextShrinks(text);
  }

  lemma CharsetSize(bytes: seq<byte>, charset: string, registry: Registry)
    requires NonGrowing(registry)
    ensures |DecodeCharset(bytes, charset, registry)| <= |bytes|
  {
    hide DecodeAscii, DecodeLatin1, Ignore;
  }

  lemma {:induction false} PayloadsSize(part: Part, registry: Registry)
    requires NonGrowing(registry)
    ensures TotalChars(PayloadsOf(part, registry)) <= Weight(part.body)
    decreases Weight(part.body), 1, 0
  {
    hide ParsePart, ContentTypeOf, Parts, LeafPayload, Encode, Lossy;
    if IsMultipart(part) {
      LighterChildren(part);
      var boundary := ContentTypeOf(part).boundary;
      if boundary.Some? {
        PartsWeighLess(part.body, boundary.value);
        PartsAreChildren(part);
      }
      PayloadsOfAllSize(Children(part), registry, Weight(part.body));
    } else {
      LeafSize(part, registry);
      LossySize(part.body);
      assert [LeafPayload(part, registry)][..0] == [];
    }
  }

  lemma NoChars()
    ensures TotalChars([]) == 0
  {
  }

  lemma {:induction false} PayloadsOfAllSize(children: seq<seq<byte>>, registry: Registry, bound: nat)
    requires NonGrowing(registry) && AllValid(children)
    requires forall c | c in children :: Weight(ParsePart(c).body) < bound
    ensures TotalChars(PayloadsOfAll(children, registry, bound)) <= TotalBytes(children)
    decreases bound, 0, |children|
  {
    hide ParsePart, Encode, Lossy, PayloadsOf, TotalChars, Weight;
    NoChars();
    if children != [] {
      var k := |children| - 1;
      var c := children[k];
      PayloadsOfAllSize(children[..k], registry, bound);
      PayloadsSize(ParsePart(c), registry);
      BodyWeighsLess(c);
      TotalCharsAppend(PayloadsOfAll(children[..k], registry, bound), PayloadsOf(ParsePart(c), registry));
    }
  }

  /** The payloads of a message hold at most three characters per byte of it, and at most one if it
      is valid UTF-8. */
  lemma MessagePayloadsSize(bytes: seq<byte>, registry: Registry)
    requires NonGrowing(registry)
    ensures
      var chars := TotalChars(PayloadsOf(ParsePart(bytes), registry));
      chars <= 3 * |bytes| && (ValidUtf8(bytes) ==> chars <= |bytes|)
  {
    hide ParsePart, Encode, Lossy;
    var part := ParsePart(bytes);
    PayloadsSize(part, registry);
    LossySize(part.body);
    BodyIsShorter(bytes);
    if ValidUtf8(bytes) {
      BodyWeighsLess(bytes);
    }
  }

  lemma BodyIsShorter(bytes: seq<byte>)
    ensures |ParsePart(bytes).body| <= |bytes|
  {
    hide Lines, Lossy, ValidHeaderLine, HeaderLines;
    NormalizeShrinks(bytes);
  }

  lemma {:induction false} NormalizeShrinks(b: seq<byte>)
    ensures |NormalizeNewlines(b)| <= |b|
  {
    if b != [] {
      NormalizeShrinks(b[if b[0] == 13 && |b| > 1 && b[1] == 10 then 2 else 1..]);
    }
  }
}
