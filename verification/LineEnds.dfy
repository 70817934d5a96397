/** Line ends of any kind are read as newlines, in packets and in multipart bodies. */
module LineEnds {
  import opened Text
  import opened Utf8
  import opened Headers
  import opened Messages
  import opened Multipart
  import opened Payloads

  function InnerText(s: string): string {
    Replace(s, "\r\n", "\n")
  }

  lemma PairFirst(s: string)
    ensures InnerText("\r\n" + s) == "\n" + InnerText(s)
  {
    ReplaceMatch(s, "\r\n", "\n");
  }

  lemma OtherFirst(s: string)
    requires s != "" && !("\r\n" <= s)
    ensures InnerText(s) == [s[0]] + InnerText(s[1..])
  {
    ReplaceSkip(s, "\r\n", "\n");
  }

  lemma ReturnFirst(c: char, rest: string)
    ensures Replace([c] + rest, "\r", "\n") == [if c == '\r' then '\n' else c] + Replace(rest, "\r", "\n")
  {
    ReplaceFirst([c] + rest, '\r', "\n");
    assert ([c] + rest)[1..] == rest;
  }

  /** The two replacements turn every line end into one newline. */
  lemma {:induction false} ReplacedNormal(s: string)
    ensures Replace(InnerText(s), "\r", "\n") == NormalizeText(s)
  {
    hide InnerText, Replace;
    if s == "" {
      NothingInner();
    } else if "\r\n" <= s {
      var rest := s[2..];
      assert s == "\r\n" + rest && s[0] == '\r' && s[1] == '\n';
      PairFirst(rest);
      ReturnFirst('\n', InnerText(rest));
      ReplacedNormal(rest);
    } else {
      OtherFirst(s);
      ReturnFirst(s[0], InnerText(s[1..]));
      ReplacedNormal(s[1..]);
      NotPair(s);
    }
  }

  lemma NothingInner()
    ensures InnerText("") == "" && Replace("", "\r", "\n") == ""
  {
  }

  lemma NotPair(s: string)
    requires s != "" && !("\r\n" <= s)
    ensures s[0] != '\r' || |s| == 1 || s[1] != '\n'
  {
  }

  lemma UnixNormal(s: string)
    ensures UnixText(Encode(s)) == NormalizeText(s) == UnixText(Encode(NormalizeText(s)))
  {
    hide Encode, Replace, Lossy;
    ReadEncoded(s);
    ReplacedNormal(s);
    NoReturns(s);
    UnixTextPlain(NormalizeText(s));
  }

  lemma {:induction false} NoReturns(s: string)
    ensures '\r' !in NormalizeText(s)
  {
    if s != "" {
      NoReturns(s[if s[0] == '\r' && |s| > 1 && s[1] == '\n' then 2 else 1..]);
    }
  }

  /** A packet has the same headers, and a body the same parts, whichever way their lines end. */
  lemma AnyLineEnds(s: string, t: string, boundary: string)
    requires NormalizeText(s) == NormalizeText(t)
    ensures ParseHeaders(Encode(s)) == ParseHeaders(Encode(t))
    ensures Parts(Encode(s), boundary) == Parts(Encode(t), boundary)
  {
    hide Encode, UnixText, Lines;
    UnixNormal(s);
    UnixNormal(t);
  }

  /** So a printed message is read from a packet whose lines end with CRLF, too. */
  lemma ReturnedIsRead(headers: seq<Header>, packet: string)
    requires AllWellFormed(headers) && NormalizeText(packet) == Render(headers)
    ensures ParseHeaders(Encode(packet)) == headers
  {
    hide ParseHeaders, Encode, Render, NormalizeText, AllWellFormed, Parts;
    UnixNormal(packet);
    RenderNormal(headers, packet);
    AnyLineEnds(packet, Render(headers), "");
    ParseRendered(headers);
  }

  lemma RenderNormal(headers: seq<Header>, packet: string)
    requires NormalizeText(packet) == Render(headers)
    ensures NormalizeText(Render(headers)) == Render(headers)
  {
    hide Render;
    NoReturns(packet);
    NormalizeTextIdentity(Render(headers));
  }
}
