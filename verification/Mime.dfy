/** MIME parts and the walk that collects the payloads to digest (src/digest.rs). */
module Mime {
  import opened Wrappers
  import opened Text
  import opened Utf8
  import opened Headers
  import Transfer
  import Html

  datatype Part = Part(headers: seq<Header>, body: seq<byte>)

  datatype ContentType = ContentType(main: string, sub: string, boundary: Option<string>, charset: Option<string>)

  /** The charset library: the text of some bytes under a registered label, if the label is known
      and the bytes are valid. */
  type Registry = (seq<byte>, string) -> Option<string>

  // ----- parsing a part -----

  function NormalizeNewlines(b: seq<byte>): seq<byte> {
    if b == [] then []
    else if b[0] == 13 then [10] + NormalizeNewlines(b[if |b| > 1 && b[1] == 10 then 2 else 1..])
    else [b[0]] + NormalizeNewlines(b[1..])
  }

  lemma NormalizeNewlinesAt(b: seq<byte>, i: nat)
    requires i < |b|
    ensures
      NormalizeNewlines(b[i..])
      == if b[i] != 13 then [b[i]] + NormalizeNewlines(b[i + 1..])
         else if i + 1 < |b| && b[i + 1] == 10 then [10] + NormalizeNewlines(b[i + 2..])
         else [10] + NormalizeNewlines(b[i + 1..])
  {
    var s := b[i..];
    assert s[1..] == b[i + 1..];
    assert |s| > 1 ==> s[2..] == b[i + 2..];
  }

  lemma NormalizeNothing(b: seq<byte>)
    requires b == []
    ensures NormalizeNewlines(b) == []
  {
  }

  method NormalizeMessageNewlines(bytes: seq<byte>) returns (normalized: seq<byte>)
    ensures normalized == NormalizeNewlines(bytes)
  {
    hide NormalizeNewlines;
    normalized := [];
    var index := 0;
    assert bytes[0..] == bytes;
    while index < |bytes|
      invariant index <= |bytes|
      invariant normalized + NormalizeNewlines(bytes[index..]) == NormalizeNewlines(bytes)
    {
      NormalizeNewlinesAt(bytes, index);
      if bytes[index] == 13 {
        normalized := normalized + [10];
        index := index + 1;
        if index < |bytes| && bytes[index] == 10 {
          index := index + 1;
        }
      } else {
        normalized := normalized + [bytes[index]];
        index := index + 1;
      }
    }
    NormalizeNothing(bytes[index..]);
  }

  /** The position of the first blank line's "\n\n", or the length. */
  function FindBlank(b: seq<byte>): (i: nat)
    ensures i <= |b| && (i < |b| ==> i + 1 < |b| && b[i] == 10 && b[i + 1] == 10)
  {
    if |b| < 2 then |b|
    else if b[0] == 10 && b[1] == 10 then 0
    else 1 + FindBlank(b[1..])
  }

  predicate ValidHeaderLine(line: string) {
    var cut := SplitOnce(line, ':');
    && cut.Some? && cut.value.0 != ""
    && forall c | c in cut.value.0 :: 'a' <= c <= 'z' || 'A' <= c <= 'Z' || '0' <= c <= '9' || c == '-'
  }

  function HeaderLine(headers: seq<Header>, line: string): seq<Header> {
    if line != "" && (line[0] == ' ' || line[0] == '\t') then
      if headers == [] then headers
      else
        var last := headers[|headers| - 1];
        headers[|headers| - 1 := (last.0, last.1 + " " + Trim(line))]
    else
      var cut := SplitOnce(line, ':');
      if cut.None? then headers else headers + [(Trim(cut.value.0), Trim(cut.value.1))]
  }

  function HeaderLines(headers: seq<Header>, lines: seq<string>): seq<Header>
    decreases |lines|
  {
    if lines == [] then headers else HeaderLines(HeaderLine(headers, lines[0]), lines[1..])
  }

  /** The header bytes and the body of a part. */
  function Cut(normalized: seq<byte>): (seq<byte>, seq<byte>) {
    var index := FindBlank(normalized);
    if index < |normalized| then (normalized[..index], normalized[index + 2..])
    else
      var lines := Lines(Lossy(normalized));
      if lines != [] && ValidHeaderLine(lines[0]) then (normalized, []) else ([], normalized)
  }

  function ParsePart(bytes: seq<byte>): Part {
    var (header, body) := Cut(NormalizeNewlines(bytes));
    Part(HeaderLines([], Lines(Lossy(header))), body)
  }

  method Parse(bytes: seq<byte>) returns (part: Part)
    ensures part == ParsePart(bytes)
  {
    hide Cut, Trim, SplitOnce, NormalizeNewlines, Lines, Lossy;
    var normalized := NormalizeMessageNewlines(bytes);
    var (header, body) := Cut(normalized);
    var lines := Lines(Lossy(header));
    var headers: seq<Header> := [];
    for i := 0 to |lines|
      invariant HeaderLines([], lines) == HeaderLines(headers, lines[i..])
    {
      var line := lines[i];
      assert lines[i..][1..] == lines[i + 1..];
      if line != "" && (line[0] == ' ' || line[0] == '\t') {
        if headers != [] {
          var last := headers[|headers| - 1];
          headers := headers[|headers| - 1 := (last.0, last.1 + " " + Trim(line))];
        }
        continue;
      }
      var cut := SplitOnce(line, ':');
      if cut.None? {
        continue;
      }
      headers := headers + [(Trim(cut.value.0), Trim(cut.value.1))];
    }
    part := Part(headers, body);
  }

  function ContentTypeOf(part: Part): ContentType {
    ParseContentType(FindHeader(part.headers, "Content-Type").GetOr("text/plain"))
  }

  function TransferEncodingOf(part: Part): string {
    Trim(FindHeader(part.headers, "Content-Transfer-Encoding").GetOr("7bit"))
  }

  function ParseContentType(value: string): ContentType {
    var parts := Split(value, ';');
    var media := SplitOnce(Lower(Trim(parts[0])), '/');
    var (main, sub) := if media.Some? then (Trim(media.value.0), Trim(media.value.1)) else ("text", "plain");
    ContentType(main, sub, Parameter(parts[1..], "boundary"), Parameter(parts[1..], "charset"))
  }

  /** The value of the last parameter of a name. */
  function Parameter(parts: seq<string>, name: string): Option<string> {
    if parts == [] then None
    else
      var rest := Parameter(parts[1..], name);
      var cut := SplitOnce(parts[0], '=');
      if rest.None? && cut.Some? && Lower(Trim(cut.value.0)) == name then
        Some(Replace(TrimOf(Trim(cut.value.1), '"'), "\0", ""))
      else rest
  }

  lemma ParameterAt(parts: seq<string>, i: nat, name: string)
    requires i < |parts|
    ensures
      var rest, cut := Parameter(parts[i + 1..], name), SplitOnce(parts[i], '=');
      Parameter(parts[i..], name)
      == if rest.None? && cut.Some? && Lower(Trim(cut.value.0)) == name then
           Some(Replace(TrimOf(Trim(cut.value.1), '"'), "\0", ""))
         else rest
  {
    hide SplitOnce, Lower, Trim, TrimOf, Replace;
    assert parts[i..][1..] == parts[i + 1..];
  }

  /** The loop over the parameters: a later one of the same name overrides. */
  method ReadContentType(value: string) returns (c: ContentType)
    ensures c == ParseContentType(value)
  {
    hide Split, SplitOnce, Lower, Trim, TrimOf, Replace, Parameter;
    var parts := Split(value, ';');
    var media := SplitOnce(Lower(Trim(parts[0])), '/');
    var (main, sub) := if media.Some? then (Trim(media.value.0), Trim(media.value.1)) else ("text", "plain");
    var boundary: Option<string>, charset: Option<string> := None, None;
    NoParameter(parts[|parts|..]);
    for i := 1 to |parts|
      invariant Parameter(parts[1..], "boundary") == Later(Parameter(parts[i..], "boundary"), boundary)
      invariant Parameter(parts[1..], "charset") == Later(Parameter(parts[i..], "charset"), charset)
    {
      ParameterAt(parts, i, "boundary");
      ParameterAt(parts, i, "charset");
      var cut := SplitOnce(parts[i], '=');
      if cut.None? {
        continue;
      }
      var key := Lower(Trim(cut.value.0));
      var text := Replace(TrimOf(Trim(cut.value.1), '"'), "\0", "");
      match key
      case "boundary" => boundary := Some(text);
      case "charset" => charset := Some(text);
      case _ =>
    }
    c := ContentType(main, sub, boundary, charset);
  }

  function Later(later: Option<string>, earlier: Option<string>): Option<string> {
    if later.Some? then later else earlier
  }

  lemma NoParameter(parts: seq<string>)
    requires parts == []
    ensures Parameter(parts, "boundary") == None && Parameter(parts, "charset") == None
  {
  }

  // ----- decoding a leaf -----

  function DecodeTransfer(bytes: seq<byte>, encoding: string): (b: seq<byte>)
    ensures |b| <= |bytes|
  {
    var name := Lower(Trim(encoding));
    if name == "quoted-printable" || name == "quopri" then Transfer.QuotedPrintable(bytes)
    else if name == "base64" then
      Transfer.SextetsShrink(bytes);
      Transfer.Unpack(Transfer.Sextets(bytes))
    else bytes
  }

  function DecodeAscii(bytes: seq<byte>): (s: string)
    ensures |s| <= |bytes|
  {
    if bytes == [] then ""
    else (if bytes[0] < 0x80 then [bytes[0] as char] else "") + DecodeAscii(bytes[1..])
  }

  function DecodeLatin1(bytes: seq<byte>): (s: string)
    ensures |s| == |bytes|
  {
    if bytes == [] then "" else [bytes[0] as char] + DecodeLatin1(bytes[1..])
  }

  /** The decoder that a charset's name selects. */
  datatype Decoder = Ascii | Unicode | LatinOne | Registered(name: string)

  function CharsetName(charset: string): string {
    Replace(Replace(Lower(charset), "_", "-"), "\0", "")
  }

  function DecoderOf(charset: string): Decoder {
    var name := CharsetName(charset);
    if name in ["ascii", "us-ascii"] then Ascii
    else if name in ["utf8", "utf-8"] then Unicode
    else if name in ["iso-8859-1", "latin-1", "latin1"] then LatinOne
    else if name in ["quopri-codec", "quopri", "quoted-printable", "quotedprintable"] then Ascii
    else Registered(name)
  }

  function DecodeCharset(bytes: seq<byte>, charset: string, registry: Registry): string {
    match DecoderOf(charset)
    case Ascii => DecodeAscii(bytes)
    case Unicode => Ignore(bytes)
    case LatinOne => DecodeLatin1(bytes)
    case Registered(name) => registry(bytes, name).GetOr(DecodeAscii(bytes))
  }

  function LeafPayload(part: Part, registry: Registry): string {
    var kind := ContentTypeOf(part);
    if kind.main == "text" then
      var text := DecodeCharset(DecodeTransfer(part.body, TransferEncodingOf(part)),
                                kind.charset.GetOr("ascii"), registry);
      if kind.sub == "html" then Html.HtmlText(text) else text
    else Lossy(part.body)
  }
}
