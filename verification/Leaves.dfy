/** Which decoder a leaf's charset selects, what it yields, and what leaves other than text yield (src/digest.rs). */
module Leaves {
  import opened Wrappers
  import opened Text
  import opened Utf8
  import opened Headers
  import opened Mime
  import opened Payloads
  import opened Predigest
  import Transfer

  // ----- the names of charsets -----

  /** A character of a label stands for one of a name: in either case, an underscore for a hyphen. */
  predicate StandsFor(c: char, d: char) {
    c == d || (c == '_' && d == '-') || ('A' <= c <= 'Z' && d as int == c as int + 32)
  }

  /** The label spells the name, character by character, with NULs anywhere. */
  predicate Spells(charset: string, name: string) {
    if charset == "" then name == ""
    else if charset[0] == '\0' then Spells(charset[1..], name)
    else name != "" && StandsFor(charset[0], name[0]) && Spells(charset[1..], name[1..])
  }

  predicate IsName(name: string) {
    forall c | c in name :: 'a' <= c <= 'z' || '0' <= c <= '9' || c == '-'
  }

  function NameChar(c: char): string {
    if c == '\0' then "" else if c == '_' then "-" else [LowerChar(c)]
  }

  lemma CharsetNameFirst(charset: string)
    requires charset != ""
    ensures CharsetName(charset) == NameChar(charset[0]) + CharsetName(charset[1..])
  {
    var low := Lower(charset);
    assert low[0] == LowerChar(charset[0]) && low[1..] == Lower(charset[1..]);
    ReplaceFirst(low, '_', "-");
    var c := if low[0] == '_' then '-' else low[0];
    var rest := Replace(low[1..], "_", "-");
    assert Replace(low, "_", "-") == [c] + rest;
    assert ([c] + rest)[1..] == rest;
    ReplaceFirst([c] + rest, '\0', "");
  }

  lemma {:induction false} SpelledExactly(charset: string, name: string)
    requires IsName(name)
    ensures CharsetName(charset) == name <==> Spells(charset, name)
  {
    hide CharsetName;
    if charset == "" {
      NoCharsetName();
    } else {
      CharsetNameFirst(charset);
      var first, rest := NameChar(charset[0]), CharsetName(charset[1..]);
      if charset[0] == '\0' {
        assert first + rest == rest;
        SpelledExactly(charset[1..], name);
      } else if name != "" {
        assert forall c | c in name[1..] :: c in name;
        SpelledExactly(charset[1..], name[1..]);
        assert name == [name[0]] + name[1..];
        assert name[0] in name;
        assert first + rest == name <==> first == [name[0]] && rest == name[1..] by {
          assert (first + rest)[0] == first[0] && (first + rest)[1..] == rest;
        }
      }
    }
  }

  lemma NoCharsetName()
    ensures CharsetName("") == ""
  {
  }

  const ASCII_NAMES: set<string> :=
    {"ascii", "us-ascii", "quopri-codec", "quopri", "quoted-printable", "quotedprintable"}
  const UNICODE_NAMES: set<string> := {"utf8", "utf-8"}
  const LATIN_NAMES: set<string> := {"iso-8859-1", "latin-1", "latin1"}

  ghost predicate SpellsOne(charset: string, names: set<string>) {
    exists name | name in names :: Spells(charset, name)
  }

  lemma AllNames(name: string)
    requires name in ASCII_NAMES + UNICODE_NAMES + LATIN_NAMES
    ensures IsName(name)
  {
    hide IsName;
    ShortNames();
    LongNames();
  }

  lemma ShortNames()
    ensures IsName("ascii") && IsName("us-ascii") && IsName("utf8") && IsName("utf-8") && IsName("latin-1") && IsName("latin1")
  {
  }

  lemma LongNames()
    ensures IsName("iso-8859-1") && IsName("quopri-codec") && IsName("quopri") && IsName("quoted-printable")
    ensures IsName("quotedprintable")
  {
  }

  lemma OneName(charset: string, names: set<string>)
    requires names <= ASCII_NAMES + UNICODE_NAMES + LATIN_NAMES
    ensures SpellsOne(charset, names) <==> CharsetName(charset) in names
  {
    hide Spells, IsName, CharsetName;
    forall name | name in names
      ensures Spells(charset, name) <==> CharsetName(charset) == name
    {
      AllNames(name);
      SpelledExactly(charset, name);
    }
  }

  /** Which decoder a label selects, by how it is spelled; any other label asks the library for its name. */
  lemma DecoderExactly(charset: string)
    ensures DecoderOf(charset) == Ascii <==> SpellsOne(charset, ASCII_NAMES)
    ensures DecoderOf(charset) == Unicode <==> SpellsOne(charset, UNICODE_NAMES)
    ensures DecoderOf(charset) == LatinOne <==> SpellsOne(charset, LATIN_NAMES)
    ensures DecoderOf(charset).Registered? ==> DecoderOf(charset).name == CharsetName(charset)
  {
    hide CharsetName, SpellsOne;
    OneName(charset, ASCII_NAMES);
    OneName(charset, UNICODE_NAMES);
    OneName(charset, LATIN_NAMES);
  }

  // ----- what the decoders yield -----

  /** Latin-1 has the character of each byte's number, */
  lemma {:induction false} Latin1At(bytes: seq<byte>, k: nat)
    requires k < |bytes|
    ensures DecodeLatin1(bytes)[k] as int == bytes[k]
  {
    if k > 0 {
      Latin1At(bytes[1..], k - 1);
    }
  }

  /** ASCII those of the bytes below 128, */
  function AsciiBytes(bytes: seq<byte>): seq<byte> {
    if bytes == [] then []
    else AsciiBytes(bytes[..|bytes| - 1]) + if bytes[|bytes| - 1] < 0x80 then [bytes[|bytes| - 1]] else []
  }

  lemma {:induction false} AsciiAppend(a: seq<byte>, b: seq<byte>)
    ensures DecodeAscii(a + b) == DecodeAscii(a) + DecodeAscii(b)
  {
    hide DecodeAscii;
    AsciiFirst(a);
    AsciiFirst(a + b);
    if a == [] {
      assert a + b == b;
    } else {
      assert (a + b)[1..] == a[1..] + b;
      AsciiAppend(a[1..], b);
    }
  }

  lemma AsciiFirst(b: seq<byte>)
    ensures DecodeAscii(b)
         == if b == [] then "" else (if b[0] < 0x80 then [b[0] as char] else "") + DecodeAscii(b[1..])
  {
  }

  lemma {:induction false} AsciiIsLatin1(bytes: seq<byte>)
    ensures DecodeAscii(bytes) == DecodeLatin1(AsciiBytes(bytes))
  {
    if bytes != [] {
      var n := |bytes| - 1;
      AsciiIsLatin1(bytes[..n]);
      AsciiAppend(bytes[..n], [bytes[n]]);
      assert bytes == bytes[..n] + [bytes[n]];
      assert [bytes[n]][1..] == [];
      Latin1Append(AsciiBytes(bytes[..n]), if bytes[n] < 0x80 then [bytes[n]] else []);
    }
  }

  lemma {:induction false} Latin1Append(a: seq<byte>, b: seq<byte>)
    ensures DecodeLatin1(a + b) == DecodeLatin1(a) + DecodeLatin1(b)
  {
    if a == [] {
      assert a + b == b;
    } else {
      assert (a + b)[1..] == a[1..] + b;
      Latin1Append(a[1..], b);
    }
  }

  /** and a label that no decoder knows asks the library, and falls back to ASCII. */
  lemma OtherCharset(bytes: seq<byte>, charset: string, registry: Registry)
    requires !SpellsOne(charset, ASCII_NAMES + UNICODE_NAMES + LATIN_NAMES)
    ensures DecodeCharset(bytes, charset, registry)
         == if registry(bytes, CharsetName(charset)).Some? then registry(bytes, CharsetName(charset)).value
            else DecodeLatin1(AsciiBytes(bytes))
  {
    hide CharsetName, Spells, DecodeAscii, DecodeLatin1, AsciiBytes;
    var names := ASCII_NAMES + UNICODE_NAMES + LATIN_NAMES;
    OneName(charset, names);
    AsciiIsLatin1(bytes);
  }

  // ----- transfer encodings -----

  /** The name of an encoding counts in any case and with any padding, */
  lemma EncodingIgnores(bytes: seq<byte>, encoding: string, other: string)
    requires Lower(Trim(encoding)) == Lower(Trim(other))
    ensures DecodeTransfer(bytes, encoding) == DecodeTransfer(bytes, other)
  {
    hide Lower, Trim, Transfer.QuotedPrintable, Transfer.Unpack, Transfer.Sextets;
  }

  /** and quoted-printable has a second one. */
  lemma SecondName(bytes: seq<byte>)
    ensures DecodeTransfer(bytes, "quopri") == DecodeTransfer(bytes, "quoted-printable") == Transfer.QuotedPrintable(bytes)
  {
    hide Lower, Trim, Transfer.QuotedPrintable, Transfer.Unpack, Transfer.Sextets;
    Trimmed("quopri");
    Trimmed("quoted-printable");
    LowerIdentity("quopri");
    LowerIdentity("quoted-printable");
  }

  /** The encoding and the type are those of the first headers of these names, in any case. */
  lemma EncodingFound(headers: seq<Header>, name: string, value: string, more: seq<Header>, body: seq<byte>)
    requires EqIgnoreAsciiCase(name, "Content-Transfer-Encoding")
    requires forall k | 0 <= k < |headers| :: !EqIgnoreAsciiCase(headers[k].0, "Content-Transfer-Encoding")
    ensures TransferEncodingOf(Part(headers + [(name, value)] + more, body)) == Trim(value)
  {
    hide Lower, Trim;
    FirstOfName(headers, name, value, more, "Content-Transfer-Encoding");
  }

  lemma TypeFound(headers: seq<Header>, name: string, value: string, more: seq<Header>, body: seq<byte>)
    requires EqIgnoreAsciiCase(name, "Content-Type")
    requires forall k | 0 <= k < |headers| :: !EqIgnoreAsciiCase(headers[k].0, "Content-Type")
    ensures ContentTypeOf(Part(headers + [(name, value)] + more, body)) == ParseContentType(value)
  {
    hide Lower, ParseContentType;
    FirstOfName(headers, name, value, more, "Content-Type");
  }

  lemma {:induction false} FirstOfName(headers: seq<Header>, name: string, value: string, more: seq<Header>, wanted: string)
    requires EqIgnoreAsciiCase(name, wanted)
    requires forall k | 0 <= k < |headers| :: !EqIgnoreAsciiCase(headers[k].0, wanted)
    ensures FindHeader(headers + [(name, value)] + more, wanted) == Some(value)
  {
    hide Lower;
    var all := headers + [(name, value)] + more;
    if headers != [] {
      assert all[0] == headers[0] && all[1..] == headers[1..] + [(name, value)] + more;
      FirstOfName(headers[1..], name, value, more, wanted);
    }
  }

  // ----- leaves that are not text -----

  /** A part that is neither text nor multipart has its body as its payload, */
  lemma OtherLeaf(part: Part, registry: Registry)
    requires ContentTypeOf(part).main != "text" && ContentTypeOf(part).main != "multipart"
    ensures PayloadsOf(part, registry) == [Lossy(part.body)]
  {
    hide ContentTypeOf, Lossy, Weight;
  }

  /** whatever transfer encoding and charset it names: a message of that kind has its text. */
  lemma OtherPayloads(message: string, head: string, text: string, registry: Registry)
    requires NormalizeText(message) == head + "\n\n" + text && CleanHead(head)
    requires ContentTypeOf(Part(HeaderLines([], Lines(head)), [])).main !in {"text", "multipart"}
    ensures PayloadsOf(ParsePart(Encode(message)), registry) == [text]
  {
    hide ParsePart, ContentTypeOf, HeaderLines, Lines, NormalizeText, CleanHead, Lossy, Encode, PayloadsOf;
    TextPart(message, head, text);
    TypeWithoutBody(HeaderLines([], Lines(head)), Encode(text));
    OtherLeaf(Part(HeaderLines([], Lines(head)), Encode(text)), registry);
    ReadEncoded(text);
  }

  /** A multipart without a boundary has no payloads. */
  lemma NoBoundary(part: Part, registry: Registry)
    requires ContentTypeOf(part).main == "multipart" && ContentTypeOf(part).boundary.None?
    ensures PayloadsOf(part, registry) == []
  {
    hide ContentTypeOf, Weight;
  }

  // ----- messages without a blank line -----

  predicate IsHeaderName(name: string) {
    name != "" && forall c | c in name :: 'a' <= c <= 'z' || 'A' <= c <= 'Z' || '0' <= c <= '9' || c == '-'
  }

  /** A line starts like a header: a name of letters, digits and hyphens before the first colon. */
  ghost predicate StartsLikeHeader(line: string) {
    exists name, rest :: IsHeaderName(name) && line == name + ":" + rest
  }

  lemma HeaderLineExactly(line: string)
    ensures ValidHeaderLine(line) <==> StartsLikeHeader(line)
  {
    var i := Find(line, ':');
    if ValidHeaderLine(line) {
      assert line == line[..i] + ":" + line[i + 1..] && IsHeaderName(line[..i]);
    }
    forall name, rest | IsHeaderName(name) && line == name + ":" + rest
      ensures ValidHeaderLine(line)
    {
      FindAt(name, ':', rest);
      assert line[..|name|] == name;
    }
  }

  lemma {:induction false} NoBlankFound(b: seq<byte>)
    requires forall k | 0 < k < |b| :: b[k - 1] != 10 || b[k] != 10
    ensures FindBlank(b) == |b|
  {
    if |b| >= 2 {
      assert b[1 - 1] != 10 || b[1] != 10;
      forall k | 0 < k < |b[1..]|
        ensures b[1..][k - 1] != 10 || b[1..][k] != 10
      {
        assert b[k + 1 - 1] != 10 || b[k + 1] != 10;
      }
      NoBlankFound(b[1..]);
    }
  }

  predicate WithoutBlankLine(text: string) {
    forall k | 0 < k < |text| :: text[k - 1] != '\n' || text[k] != '\n'
  }

  lemma NoBlankBytes(text: string)
    requires WithoutBlankLine(text)
    ensures FindBlank(Encode(text)) == |Encode(text)|
  {
    hide Encode, FindBlank;
    var b := Encode(text);
    forall k | 0 < k < |b|
      ensures b[k - 1] != 10 || b[k] != 10
    {
      if b[k - 1] == 10 && b[k] == 10 {
        var j := NewlinePair(text, k);
      }
    }
    NoBlankFound(b);
  }

  /** Such a message is all header when its first line starts like one, and all body otherwise. */
  lemma WithoutBlank(message: string, text: string)
    requires NormalizeText(message) == text && WithoutBlankLine(text)
    ensures ParsePart(Encode(message))
         == if Lines(text) != [] && StartsLikeHeader(Lines(text)[0]) then Part(HeaderLines([], Lines(text)), [])
            else Part([], Encode(text))
  {
    hide Encode, FindBlank, Lines, HeaderLines, ValidHeaderLine, NormalizeText, NormalizeNewlines, Lossy, StartsLikeHeader;
    NormalizeEncoded(message);
    NoBlankBytes(text);
    ReadEncoded(text);
    if Lines(text) != [] {
      HeaderLineExactly(Lines(text)[0]);
    }
    NoHeaderLines();
  }

  lemma NoHeaderLines()
    ensures Lossy([]) == "" && Lines("") == [] && HeaderLines([], []) == []
  {
  }

  /** So a text of ASCII characters that is no message at all is its own payload. */
  lemma HeaderlessPayloads(message: string, text: string, registry: Registry)
    requires NormalizeText(message) == text && WithoutBlankLine(text) && IsAscii(text)
    requires Lines(text) == [] || !StartsLikeHeader(Lines(text)[0])
    ensures PayloadsOf(ParsePart(Encode(message)), registry) == [text]
  {
    hide Encode, Lines, HeaderLines, NormalizeText, StartsLikeHeader, ParsePart, Trim, Lower, DecoderOf, DecodeTransfer,
         DecodeCharset, ParseContentType, IsAscii;
    WithoutBlank(message, text);
    DefaultType();
    DefaultEncoding(Encode(text));
    DefaultCharset();
    CharsetText(text, "ascii", registry);
  }
}
