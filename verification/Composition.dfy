/** The payloads of a message that was put together from parts (src/digest.rs). */
module Composition {
  import opened Wrappers
  import opened Text
  import opened Utf8
  import opened Mime
  import Transfer
  import opened MimeLaws
  import opened Multipart
  import opened Payloads
  import opened Predigest

  /** A boundary that a type header can carry. */
  predicate GoodBoundary(b: string) {
    && b != "" && Trim(b) == b && IsAscii(b) && PlainLine(b)
    && ';' !in b && '"' !in b && '\0' !in b
  }

  function BoundaryValue(boundary: string, quoted: bool): string {
    if quoted then "\"" + boundary + "\"" else boundary
  }

  function MultipartType(sub: string, boundary: string, quoted: bool): string {
    "multipart" + "/" + sub + "; " + "boundary" + "=" + BoundaryValue(boundary, quoted)
  }

  function MultipartHead(sub: string, boundary: string, quoted: bool): string {
    "Content-Type: " + MultipartType(sub, boundary, quoted)
  }

  lemma ValueRead(boundary: string, quoted: bool)
    requires GoodBoundary(boundary)
    ensures
      var v := BoundaryValue(boundary, quoted);
      Trim(v) == v && ';' !in v && PlainLine(v) && IsAscii(v) && v != "" && Unquoted(v) == boundary
      && !IsWhitespace(v[|v| - 1])
  {
    hide Trim, Unquoted;
    QuotesAround(boundary);
    if quoted {
      Trimmed("\"" + boundary + "\"");
    } else {
      LastOfTrimmed(boundary);
    }
  }

  lemma LastOfTrimmed(s: string)
    requires Trim(s) == s && s != ""
    ensures !IsWhitespace(s[|s| - 1])
  {
    hide IsWhitespace;
    assert TrimEnd(TrimStart(s)) == s;
  }

  lemma TypeRead(sub: string, boundary: string, quoted: bool)
    requires MediaWord(sub) && GoodBoundary(boundary)
    ensures
      var v := MultipartType(sub, boundary, quoted);
      && ParseContentType(v) == ContentType("multipart", sub, Some(boundary), None)
      && Trim(v) == v && v != "" && !IsWhitespace(v[0])
  {
    hide Trim, ParseContentType, BoundaryValue, GoodBoundary, Unquoted;
    ValueRead(boundary, quoted);
    ContentTypeRead("multipart", sub, "boundary", BoundaryValue(boundary, quoted));
    Trimmed(MultipartType(sub, boundary, quoted));
  }

  lemma TypePlain(sub: string, boundary: string, quoted: bool)
    requires MediaWord(sub) && IsAscii(sub) && GoodBoundary(boundary)
    ensures PlainAscii(MultipartType(sub, boundary, quoted))
  {
    hide Trim, BoundaryValue, Unquoted, GoodBoundary;
    ValueRead(boundary, quoted);
    var v, prefix, middle := BoundaryValue(boundary, quoted), "multipart" + "/", "; " + "boundary" + "=";
    PlainPrefix();
    NewlinesAreWhitespace();
    Plain(prefix, sub);
    Plain(prefix + sub, middle);
    Plain(prefix + sub + middle, v);
    assert MultipartType(sub, boundary, quoted) == prefix + sub + middle + v;
  }

  lemma HeadClean(sub: string, boundary: string, quoted: bool)
    requires MediaWord(sub) && IsAscii(sub) && GoodBoundary(boundary)
    ensures CleanHead(MultipartHead(sub, boundary, quoted)) && '\n' !in MultipartType(sub, boundary, quoted)
  {
    hide MultipartType, GoodBoundary, MediaWord;
    TypePlain(sub, boundary, quoted);
    PlainPrefix();
    Plain("Content-Type: ", MultipartType(sub, boundary, quoted));
    assert PlainAscii(MultipartHead(sub, boundary, quoted));
  }

  lemma NewlinesAreWhitespace()
    ensures IsWhitespace('\n') && IsWhitespace('\r')
  {
  }

  lemma PlainPrefix()
    ensures PlainAscii("Content-Type: ") && PlainAscii("multipart" + "/") && PlainAscii("; " + "boundary" + "=")
  {
  }

  /** The payloads of some texts read as parts, in order. */
  function AllPayloads(parts: seq<string>, registry: Registry): seq<string> {
    if parts == [] then []
    else AllPayloads(parts[..|parts| - 1], registry) + PayloadsOf(ParsePart(Encode(parts[|parts| - 1])), registry)
  }

  lemma {:induction false} EncodedPartsAt(parts: seq<string>)
    ensures |EncodedParts(parts)| == |parts|
    ensures forall k | 0 <= k < |parts| :: EncodedParts(parts)[k] == Encode(parts[k])
  {
    hide Encode;
    if parts != [] {
      EncodedPartsAt(parts[1..]);
    }
  }

  lemma EncodedPartsPrefix(parts: seq<string>)
    requires parts != []
    ensures
      var n := |parts| - 1;
      |EncodedParts(parts)| == n + 1 && EncodedParts(parts)[..n] == EncodedParts(parts[..n])
      && EncodedParts(parts)[n] == Encode(parts[n])
  {
    hide Encode, EncodedParts;
    EncodedPartsAt(parts);
    EncodedPartsAt(parts[..|parts| - 1]);
  }

  lemma {:induction false} WalkAll(parts: seq<string>, registry: Registry, bound: nat)
    requires forall c | c in EncodedParts(parts) :: Weight(ParsePart(c).body) < bound
    ensures PayloadsOfAll(EncodedParts(parts), registry, bound) == AllPayloads(parts, registry)
  {
    hide Encode, ParsePart, PayloadsOf, Weight, EncodedParts;
    EncodedPartsAt(parts);
    if parts != [] {
      EncodedPartsPrefix(parts);
      WalkAll(parts[..|parts| - 1], registry, bound);
    }
  }

  lemma AssembledWithoutReturn(boundary: string, preamble: seq<string>, delimiters: seq<string>, parts: seq<string>,
                               close: string, epilogue: string)
    requires Assembled(boundary, preamble, delimiters, parts, close, epilogue)
    ensures '\r' !in Assemble(preamble, delimiters, parts, close, epilogue)
  {
    hide TrimEnd, Terminated, Split, Delimited, PartLines;
    AssembleTerminated(preamble, delimiters, parts, close, epilogue);
    PartLinesPlain(boundary, delimiters, parts);
    PreamblePlain(preamble, boundary);
    TerminatedPlain(preamble + PartLines(delimiters, parts) + [close]);
  }

  /** A multipart message, its type header with or without quotes around the boundary: the walk collects the payloads of
      its parts, one after the other. A part may be such a message itself. */
  lemma MultipartPayloads(sub: string, boundary: string, quoted: bool, preamble: seq<string>, delimiters: seq<string>,
                          parts: seq<string>, close: string, epilogue: string, registry: Registry)
    requires MediaWord(sub) && IsAscii(sub) && GoodBoundary(boundary)
    requires Assembled(boundary, preamble, delimiters, parts, close, epilogue)
    ensures
      var message := PlainMessage(MultipartHead(sub, boundary, quoted),
                                  Assemble(preamble, delimiters, parts, close, epilogue));
      PayloadsOf(ParsePart(message), registry) == AllPayloads(parts, registry)
  {
    hide ParsePart, ContentTypeOf, ParseContentType, TransferEncodingOf, Trim, Encode, HeaderLines, Lines, Parts, Assemble,
         EncodedParts, AllContent, PlainMessage, MultipartType, CleanHead, MediaWord, GoodBoundary, LeafPayload, Weight;
    var text := Assemble(preamble, delimiters, parts, close, epilogue);
    var v := MultipartType(sub, boundary, quoted);
    TypeRead(sub, boundary, quoted);
    HeadClean(sub, boundary, quoted);
    AssembledWithoutReturn(boundary, preamble, delimiters, parts, close, epilogue);
    PlainPart(MultipartHead(sub, boundary, quoted), text);
    TypeHeader(v);
    var part := Part([("Content-Type", v)], Encode(text));
    TypeHeaderFound(v, Encode(text));
    BoundaryEnd(boundary);
    SplitAssembled(boundary, preamble, delimiters, parts, close, epilogue);
    LighterChildren(part);
    WalkAll(parts, registry, Weight(part.body));
  }

  lemma BoundaryEnd(boundary: string)
    requires GoodBoundary(boundary)
    ensures !EndsInWhitespace(boundary)
  {
    hide Trim, IsWhitespace;
    LastOfTrimmed(boundary);
  }

  /** So a multipart message of plain parts has their texts as its payloads. */
  lemma {:induction false} PlainParts(parts: seq<string>, heads: seq<string>, texts: seq<string>, registry: Registry)
    requires |parts| == |heads| == |texts|
    requires forall k | 0 <= k < |parts| ::
      PlainHead(heads[k]) && IsAscii(texts[k]) && '\r' !in texts[k] && parts[k] == heads[k] + "\n\n" + texts[k]
    ensures AllPayloads(parts, registry) == texts
  {
    hide PlainHead, ParsePart, PayloadsOf, Encode;
    if parts != [] {
      var n := |parts| - 1;
      PlainParts(parts[..n], heads[..n], texts[..n], registry);
      PlainPayloads(heads[n], texts[n], registry);
    }
  }

  /** A plain text leaf that was encoded for transfer has the text as its payload. */
  lemma EncodedLeaf(part: Part, text: string, pieces: seq<Transfer.Piece>, registry: Registry)
    requires IsAscii(text) && Transfer.WellFormed(pieces)
    ensures
      var kind, encoding := ContentTypeOf(part), TransferEncodingOf(part);
      kind.main == "text" && kind.sub != "html" && kind.charset.None? && encoding == "base64"
      && Transfer.Significant(part.body) == Transfer.Base64Encode(Encode(text))
      ==> LeafPayload(part, registry) == text
    ensures
      var kind, encoding := ContentTypeOf(part), TransferEncodingOf(part);
      kind.main == "text" && kind.sub != "html" && kind.charset.None? && encoding == "quoted-printable"
      && part.body == Transfer.Render(pieces) && Transfer.Meaning(pieces) == Encode(text)
      ==> LeafPayload(part, registry) == text
  {
    hide ContentTypeOf, TransferEncodingOf, DecodeCharset, DecoderOf, Trim, Lower, Encode, Transfer.Significant,
         Transfer.Base64Encode, Transfer.QuotedPrintable, Transfer.Sextets, Transfer.Unpack, Transfer.Render,
         Transfer.Meaning, Transfer.WellFormed;
    Transfer.QuotedPrintableRoundTrip(pieces);
    DefaultCharset();
    CharsetText(text, "ascii", registry);
    EncodingNames();
    if Transfer.Significant(part.body) == Transfer.Base64Encode(Encode(text)) {
      Transfer.Base64RoundTrip(Encode(text), part.body);
    }
  }

  lemma EncodingNames()
    ensures Lower(Trim("base64")) == "base64" && Lower(Trim("quoted-printable")) == "quoted-printable"
  {
    hide Lower, Trim;
    Trimmed("base64");
    Trimmed("quoted-printable");
    LowerIdentity("base64");
    LowerIdentity("quoted-printable");
  }
}
