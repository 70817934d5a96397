/** How many characters the payloads of a message hold that is not ASCII (src/digest.rs). */
module Growth {
  import opened Wrappers
  import opened Text
  import opened Utf8
  import opened Mime
  import opened MimeLaws
  import opened Payloads
  import opened Predigest

  const LATIN_TYPE: string := "text" + "/" + "plain" + "; " + "charset" + "=" + "latin1"
  const LATIN_HEAD: string := "Content-Type: " + LATIN_TYPE

  /** `k` characters of two bytes each. */
  function Accented(k: nat): (s: string)
    ensures |s| == k && forall i | 0 <= i < k :: s[i] == '\U{00E9}'
  {
    seq(k, _ => '\U{00E9}')
  }

  lemma {:induction false} AccentedBytes(k: nat)
    ensures |Encode(Accented(k))| == 2 * k
  {
    if k > 0 {
      assert Accented(k)[1..] == Accented(k - 1);
      AccentedBytes(k - 1);
    }
  }

  lemma LatinType()
    ensures ParseContentType(LATIN_TYPE) == ContentType("text", "plain", None, Some("latin1"))
    ensures Trim(LATIN_TYPE) == LATIN_TYPE
  {
    hide Lower, Split, SplitOnce, Parameter, TrimStart, TrimEnd, Unquoted;
    Trimmed("latin1");
    ContentTypeRead("text", "plain", "charset", "latin1");
    QuotesAround("latin1");
    Trimmed(LATIN_TYPE);
  }

  lemma LatinHeadClean()
    ensures CleanHead(LATIN_HEAD)
  {
    assert PlainAscii("Content-Type: ") && PlainAscii("text" + "/" + "plain");
    assert PlainAscii("; " + "charset" + "=") && PlainAscii("latin1");
    Plain("Content-Type: ", "text" + "/" + "plain");
    Plain("Content-Type: " + ("text" + "/" + "plain"), "; " + "charset" + "=");
    Plain("Content-Type: " + ("text" + "/" + "plain") + ("; " + "charset" + "="), "latin1");
    assert LATIN_HEAD == "Content-Type: " + ("text" + "/" + "plain") + ("; " + "charset" + "=") + "latin1";
    PlainClean(LATIN_HEAD);
  }

  lemma Latin1Length(bytes: seq<byte>, charset: string, registry: Registry)
    requires DecoderOf(charset) == LatinOne
    ensures |DecodeCharset(bytes, charset, registry)| == |bytes|
  {
    hide DecoderOf;
  }

  /** Every message that is one Latin-1 leaf: its payload has a character for each byte that its body decodes to, and so
      holds no more characters than the message exactly when these bytes are no more. */
  lemma LatinMessage(head: string, text: string, registry: Registry)
    requires CleanHead(head) && '\r' !in text
    ensures
      var part := Part(HeaderLines([], Lines(head)), Encode(text));
      var kind, bytes := ContentTypeOf(part), PlainMessage(head, text);
      var decoded := DecodeTransfer(part.body, TransferEncodingOf(part));
      kind.main == "text" && kind.sub != "html" && DecoderOf(kind.charset.GetOr("ascii")) == LatinOne ==>
        var chars := TotalChars(PayloadsOf(ParsePart(bytes), registry));
        && chars == |decoded| && |Lossy(bytes)| == |head| + 2 + |text|
        && (chars <= |Lossy(bytes)| <==> |decoded| <= |head| + 2 + |text|)
  {
    hide ContentTypeOf, TransferEncodingOf, DecodeTransfer, DecodeCharset, DecoderOf, Encode, HeaderLines, Lines,
         ParsePart, CleanHead, Lossy, TotalChars;
    var part := Part(HeaderLines([], Lines(head)), Encode(text));
    var kind := ContentTypeOf(part);
    PlainPart(head, text);
    ReadEncoded(head + "\n\n" + text);
    if kind.main == "text" && kind.sub != "html" && DecoderOf(kind.charset.GetOr("ascii")) == LatinOne {
      Latin1Length(DecodeTransfer(part.body, TransferEncodingOf(part)), kind.charset.GetOr("ascii"), registry);
      OnePayload(LeafPayload(part, registry));
    }
  }

  lemma OnePayload(payload: string)
    ensures TotalChars([payload]) == |payload|
  {
    assert [payload][..0] == [];
  }

  lemma LatinName()
    ensures DecoderOf("latin1") == LatinOne
  {
    hide Lower, Replace;
    LowerIdentity("latin1");
    ReplaceAbsent("latin1", "_", "-");
    ReplaceAbsent("latin1", "\0", "");
  }

  /** So a message can have payloads of more characters than its own: under this header two bytes each make two
      characters of one, and they outnumber the message's exactly when the body is longer than the header. */
  lemma PayloadsOutgrow(k: nat, registry: Registry)
    ensures
      var bytes := PlainMessage(LATIN_HEAD, Accented(k));
      var chars := TotalChars(PayloadsOf(ParsePart(bytes), registry));
      && chars == 2 * k
      && |Lossy(bytes)| == |LATIN_HEAD| + 2 + k
      && (chars <= |Lossy(bytes)| <==> k <= |LATIN_HEAD| + 2)
  {
    hide ParsePart, PayloadsOf, Encode, Lossy, TotalChars, ContentTypeOf, ParseContentType, TransferEncodingOf,
         DecodeTransfer, DecoderOf, HeaderLines, Lines, PlainMessage, Trim, CleanHead;
    LatinHeadClean();
    LatinType();
    LatinName();
    TypeHeader(LATIN_TYPE);
    TypeHeaderFound(LATIN_TYPE, Encode(Accented(k)));
    DefaultEncoding(Encode(Accented(k)));
    AccentedBytes(k);
    LatinMessage(LATIN_HEAD, Accented(k), registry);
  }
}
