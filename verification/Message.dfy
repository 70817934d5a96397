/** The protocol message: a list of headers, its text form, and the packet the server reads
    (src/message.rs, clean_legacy_packet of src/server.rs). */
module Messages {
  import opened Wrappers
  import opened Text
  import opened Utf8
  import opened Headers

  const PROTO_VERSION: string := "2.1"

  // ----- the text form -----

  function HeaderText(h: Header): string {
    h.0 + ": " + h.1
  }

  function HeaderTexts(headers: seq<Header>): seq<string> {
    if headers == [] then [] else HeaderTexts(headers[..|headers| - 1]) + [HeaderText(headers[|headers| - 1])]
  }

  /** One line a header, and an empty line. */
  function Render(headers: seq<Header>): string {
    Terminated(HeaderTexts(headers)) + "\n"
  }

  function ParseLine(headers: seq<Header>, line: string): seq<Header> {
    if line != "" && (line[0] == ' ' || line[0] == '\t') then
      if headers == [] then headers
      else
        var last := headers[|headers| - 1];
        headers[|headers| - 1 := (last.0, last.1 + "\n" + Trim(line))]
    else
      var cut := SplitOnce(line, ':');
      if cut.None? then headers else headers + [(Trim(cut.value.0), TrimStart(cut.value.1))]
  }

  function ParseLines(headers: seq<Header>, lines: seq<string>): seq<Header>
    decreases |lines|
  {
    if lines == [] || lines[0] == "" then headers
    else ParseLines(ParseLine(headers, lines[0]), lines[1..])
  }

  function ParseHeaders(bytes: seq<byte>): seq<Header> {
    ParseLines([], Lines(UnixText(bytes)))
  }

  class Message {
    var headers: seq<Header>

    constructor ()
      ensures headers == []
    {
      headers := [];
    }

    /** Reads headers up to the first empty line; a line that starts with a blank continues the last one. */
    constructor Parse(bytes: seq<byte>)
      ensures headers == ParseHeaders(bytes)
    {
      headers := [];
      new;
      hide Trim, TrimStart, SplitOnce, UnixText, Lines;
      var lines := Lines(UnixText(bytes));
      var i := 0;
      while i < |lines|
        invariant i <= |lines|
        invariant ParseLines([], lines) == ParseLines(headers, lines[i..])
      {
        var line := lines[i];
        assert lines[i..][1..] == lines[i + 1..];
        if line == "" {
          break;
        }
        i := i + 1;
        if line[0] == ' ' || line[0] == '\t' {
          if headers != [] {
            var last := headers[|headers| - 1];
            headers := headers[|headers| - 1 := (last.0, last.1 + "\n" + Trim(line))];
          }
          continue;
        }
        var cut := SplitOnce(line, ':');
        if cut.None? {
          continue;
        }
        headers := headers + [(Trim(cut.value.0), TrimStart(cut.value.1))];
      }
    }

    method AddHeader(name: string, value: string)
      modifies this
      ensures headers == old(headers) + [(name, value)]
    {
      headers := headers + [(name, value)];
    }

    method SetHeader(name: string, value: string)
      modifies this
      ensures headers == SetIn(old(headers), name, value)
    {
      ghost var was := headers;
      var i := 0;
      assert was[0..] == was;
      while i < |headers|
        invariant i <= |headers| && headers == was
        invariant SetIn(was, name, value) == was[..i] + SetIn(was[i..], name, value)
      {
        if EqIgnoreAsciiCase(headers[i].0, name) {
          headers := headers[i := (headers[i].0, value)];
          assert was[i..][1..] == was[i + 1..];
          return;
        }
        assert was[i..][1..] == was[i + 1..] && was[..i + 1] == was[..i] + [was[i]];
        i := i + 1;
      }
      headers := headers + [(name, value)];
    }

    method RemoveAll(name: string)
      modifies this
      ensures headers == RemoveIn(old(headers), name)
    {
      hide RemoveIn, Lower;
      var kept: seq<Header> := [];
      assert headers[0..] == headers;
      for i := 0 to |headers|
        invariant headers == old(headers)
        invariant kept + RemoveIn(headers[i..], name) == RemoveIn(headers, name)
      {
        RemoveAt(headers, i, name);
        if !EqIgnoreAsciiCase(headers[i].0, name) {
          kept := kept + [headers[i]];
        }
      }
      RemoveNothing(name);
      assert headers[|headers|..] == [] && kept + [] == kept;
      headers := kept;
    }

    method AsString() returns (out: string)
      ensures out == Render(headers)
    {
      out := "";
      for i := 0 to |headers|
        invariant out == Terminated(HeaderTexts(headers[..i]))
      {
        assert headers[..i + 1][..i] == headers[..i];
        TerminatedSnoc(HeaderTexts(headers[..i]), HeaderText(headers[i]));
        out := out + headers[i].0;
        out := out + ": ";
        out := out + headers[i].1;
        out := out + "\n";
      }
      assert headers[..|headers|] == headers;
      out := out + "\n";
    }

    /** The thread id is drawn by the caller; one that is there already stays. */
    method InitForSending(thread: string)
      modifies this
      ensures headers == Initialised(old(headers), thread)
    {
      if !Contains(headers, "Thread") {
        AddHeader("Thread", thread);
      }
      SetHeader("PV", PROTO_VERSION);
    }
  }

  lemma TerminatedSnoc(lines: seq<string>, line: string)
    ensures Terminated(lines + [line]) == Terminated(lines) + line + "\n"
  {
    TerminatedAppend(lines, [line]);
    assert Terminated([line]) == line + "\n" + Terminated([]);
  }

  function Initialised(headers: seq<Header>, thread: string): seq<Header> {
    SetIn(if Contains(headers, "Thread") then headers else headers + [("Thread", thread)], "PV", PROTO_VERSION)
  }

  // ----- requests and responses -----

  function Request(op: string): seq<Header> {
    [("Op", op)]
  }

  function DigestRequest(op: string, digest: string): seq<Header> {
    Request(op) + [("Op-Digest", digest)]
  }

  /** The numbers of a digest spec, flat. */
  function SpecText(spec: seq<(nat, nat)>): string {
    Join(SpecNumbers(spec), ",")
  }

  function SpecNumbers(spec: seq<(nat, nat)>): seq<string> {
    if spec == [] then [] else [NatText(spec[0].0), NatText(spec[0].1)] + SpecNumbers(spec[1..])
  }

  function SpecDigestRequest(op: string, digest: string, spec: seq<(nat, nat)>): seq<Header> {
    DigestRequest(op, digest) + [("Op-Spec", SpecText(spec))]
  }

  function Response(thread: Option<string>): seq<Header> {
    [("Code", "200"), ("Diag", "OK"), ("PV", PROTO_VERSION)] + if thread.Some? then [("Thread", thread.value)] else []
  }

  // ----- the packet the server reads -----

  function CleanBody(packet: seq<byte>): seq<byte> {
    if packet == [] then []
    else if |packet| > 1 && packet[0] == 10 && packet[1] == 10 then [10] + CleanBody(packet[2..])
    else [packet[0]] + CleanBody(packet[1..])
  }

  /** Pairs of newlines shrink to one, and one newline ends the packet. */
  function Clean(packet: seq<byte>): seq<byte> {
    CleanBody(packet) + [10]
  }

  lemma CleanBodyAt(packet: seq<byte>, i: nat)
    requires i < |packet|
    ensures
      CleanBody(packet[i..])
      == if i + 1 < |packet| && packet[i] == 10 && packet[i + 1] == 10 then [10] + CleanBody(packet[i + 2..])
         else [packet[i]] + CleanBody(packet[i + 1..])
  {
    var s := packet[i..];
    assert s[1..] == packet[i + 1..];
    assert |s| > 1 ==> s[2..] == packet[i + 2..];
  }

  lemma Reassociated(a: seq<byte>, b: seq<byte>, c: seq<byte>)
    ensures a + (b + c) == a + b + c
  {
  }

  lemma CleanNothing()
    ensures CleanBody([]) == []
  {
  }

  method CleanLegacyPacket(packet: seq<byte>) returns (out: seq<byte>)
    ensures out == Clean(packet)
  {
    hide CleanBody;
    out := [];
    var i := 0;
    assert packet[0..] == packet;
    while i < |packet|
      invariant i <= |packet|
      invariant out + CleanBody(packet[i..]) == CleanBody(packet)
    {
      CleanBodyAt(packet, i);
      if i + 1 < |packet| && packet[i] == 10 && packet[i + 1] == 10 {
        Reassociated(out, [10], CleanBody(packet[i + 2..]));
        out := out + [10];
        i := i + 2;
      } else {
        Reassociated(out, [packet[i]], CleanBody(packet[i + 1..]));
        out := out + [packet[i]];
        i := i + 1;
      }
    }
    assert packet[i..] == [] && out + [] == out;
    CleanNothing();
    out := out + [10];
  }

  // ----- what is sent is what is read -----

  /** A header that its line can carry: a trimmed name without a colon, a value that does not start with
      white space, and no line break in either. */
  predicate WellFormed(h: Header) {
    GoodName(h.0) && GoodValue(h.1)
  }

  predicate GoodName(name: string) {
    PlainLine(name) && ':' !in name && Trim(name) == name
  }

  predicate GoodValue(value: string) {
    PlainLine(value) && TrimStart(value) == value
  }

  predicate AllWellFormed(headers: seq<Header>) {
    forall h | h in headers :: WellFormed(h)
  }

  predicate FullLines(lines: seq<string>) {
    forall k | 0 <= k < |lines| :: lines[k] != "" && '\n' !in lines[k]
  }

  lemma FirstOfTrimmed(s: string)
    requires Trim(s) == s && s != ""
    ensures !IsWhitespace(s[0])
  {
    hide IsWhitespace;
    var t := TrimStart(s);
    assert |TrimEnd(t)| <= |t| <= |s|;
    assert t == s;
  }

  lemma Blanks()
    ensures IsWhitespace(' ') && IsWhitespace('\t')
  {
  }

  lemma TrimSpace(value: string)
    requires TrimStart(value) == value
    ensures TrimStart(" " + value) == value
  {
    assert (" " + value)[1..] == value;
  }

  lemma HeaderTextPlain(h: Header)
    requires WellFormed(h)
    ensures PlainLine(HeaderText(h)) && HeaderText(h) != ""
  {
    hide PlainLine, Trim, TrimStart;
    ColonIsPlain();
    PlainConcat(h.0, ": ");
    PlainConcat(h.0 + ": ", h.1);
  }

  lemma ColonIsPlain()
    ensures PlainLine(": ")
  {
  }

  lemma NameStarts(name: string)
    requires GoodName(name) && name != ""
    ensures name[0] != ' ' && name[0] != '\t'
  {
    hide Trim, IsWhitespace;
    FirstOfTrimmed(name);
    Blanks();
  }

  lemma HeaderTextCut(h: Header)
    requires GoodName(h.0)
    ensures SplitOnce(HeaderText(h), ':') == Some((h.0, " " + h.1))
  {
    hide Trim, Find;
    var line := HeaderText(h);
    assert line == h.0 + [':'] + (" " + h.1);
    FindAt(h.0, ':', " " + h.1);
    assert line[..|h.0|] == h.0 && line[|h.0| + 1..] == " " + h.1;
  }

  lemma ParseHeaderText(headers: seq<Header>, h: Header)
    requires WellFormed(h)
    ensures PlainLine(HeaderText(h)) && HeaderText(h) != ""
    ensures ParseLine(headers, HeaderText(h)) == headers + [h]
  {
    HeaderTextPlain(h);
    HeaderLineRead(headers, h);
  }

  lemma HeaderLineRead(headers: seq<Header>, h: Header)
    requires WellFormed(h)
    ensures ParseLine(headers, HeaderText(h)) == headers + [h]
  {
    hide SplitOnce, Trim, TrimStart, WellFormed, GoodName, HeaderText;
    HeaderParts(h);
    HeaderTextCut(h);
    FirstOfText(h);
  }

  lemma HeaderParts(h: Header)
    requires WellFormed(h)
    ensures GoodName(h.0) && Trim(h.0) == h.0 && TrimStart(" " + h.1) == h.1
  {
    hide Trim, TrimStart, PlainLine;
    TrimSpace(h.1);
  }

  lemma FirstOfText(h: Header)
    requires GoodName(h.0)
    ensures var line := HeaderText(h); line != "" && line[0] != ' ' && line[0] != '\t'
  {
    hide GoodName;
    if h.0 != "" {
      NameStarts(h.0);
      assert HeaderText(h)[0] == h.0[0];
    } else {
      assert HeaderText(h)[0] == ':';
    }
  }

  lemma {:induction false} HeaderTextsPlain(headers: seq<Header>)
    requires AllWellFormed(headers)
    ensures PlainLines(HeaderTexts(headers)) && |HeaderTexts(headers)| == |headers|
    ensures FullLines(HeaderTexts(headers))
  {
    hide WellFormed, HeaderText;
    if headers != [] {
      HeaderTextsPlain(headers[..|headers| - 1]);
      HeaderTextPlain(headers[|headers| - 1]);
    }
  }

  lemma {:induction false} ParseAppend(headers: seq<Header>, a: seq<string>, b: seq<string>)
    requires FullLines(a)
    ensures ParseLines(headers, a + b) == ParseLines(ParseLines(headers, a), b)
    decreases |a|
  {
    hide ParseLine;
    if a == [] {
      assert a + b == b;
    } else {
      assert (a + b)[0] == a[0] && (a + b)[1..] == a[1..] + b;
      ParseAppend(ParseLine(headers, a[0]), a[1..], b);
    }
  }

  lemma {:induction false} ParseHeaderTexts(headers: seq<Header>)
    requires AllWellFormed(headers)
    ensures ParseLines([], HeaderTexts(headers)) == headers
  {
    hide WellFormed, ParseLine, HeaderText;
    if headers != [] {
      var k := |headers| - 1;
      var last := HeaderText(headers[k]);
      ParseHeaderTexts(headers[..k]);
      HeaderTextsPlain(headers[..k]);
      ParseAppend([], HeaderTexts(headers[..k]), [last]);
      ParseHeaderText(headers[..k], headers[k]);
      assert [last][1..] == [];
      assert ParseLines(headers[..k], [last]) == ParseLines(ParseLine(headers[..k], last), []);
    }
  }

  /** Reading the text form gives the headers back, whatever follows it. */
  lemma ParseFollowed(headers: seq<Header>, rest: string)
    requires AllWellFormed(headers) && '\r' !in rest
    ensures ParseHeaders(Encode(Render(headers) + rest)) == headers
  {
    hide WellFormed, ParseLine, HeaderText, HeaderTexts, Terminated, Encode, UnixText, Lines;
    var lines := HeaderTexts(headers);
    HeaderTextsPlain(headers);
    TerminatedPlain(lines);
    UnixTextPlain(Render(headers) + rest);
    assert Render(headers) + rest == Terminated(lines) + ("\n" + rest);
    LinesTerminated(lines, "\n" + rest);
    ParseAppend([], lines, Lines("\n" + rest));
    ParseHeaderTexts(headers);
    LinesStep("", rest);
    assert "" + "\n" + rest == "\n" + rest;
  }

  lemma ParseRendered(headers: seq<Header>)
    requires AllWellFormed(headers)
    ensures ParseHeaders(Encode(Render(headers))) == headers
  {
    hide ParseHeaders, Render, AllWellFormed, Encode;
    ParseFollowed(headers, "");
    assert Render(headers) + "" == Render(headers);
  }

  lemma {:induction false} CleanLine(a: seq<byte>, b: seq<byte>)
    requires 10 !in a
    ensures CleanBody(a + b) == a + CleanBody(b)
  {
    if a == [] {
      assert a + b == b;
    } else {
      assert (a + b)[1..] == a[1..] + b;
      CleanLine(a[1..], b);
    }
  }

  /** Of lines that are not empty, followed by one that is, only the empty one is cleaned away. */
  lemma {:induction false} CleanTerminated(lines: seq<string>)
    requires lines != [] && FullLines(lines)
    ensures CleanBody(Encode(Terminated(lines) + "\n")) == Encode(Terminated(lines))
  {
    hide Encode, CleanBody;
    var line, rest := lines[0], Terminated(lines[1..]);
    assert Terminated(lines) == line + "\n" + rest;
    assert Terminated(lines) + "\n" == line + "\n" + (rest + "\n");
    NoNewlineByte(line);
    NewlineThen(line, rest + "\n");
    NewlineThen(line, rest);
    CleanLine(Encode(line), [10] + Encode(rest + "\n"));
    if |lines| == 1 {
      EncodeAscii("\n");
      EncodeAscii("");
      assert rest == "" && rest + "\n" == "\n";
      assert [10] + Encode(rest + "\n") == [10, 10] && [10] + Encode(rest) == [10];
      CleanPair();
    } else {
      assert FullLines(lines[1..]);
      CleanTerminated(lines[1..]);
      FirstByte(lines[1..]);
      CleanSingle(Encode(rest + "\n"));
    }
  }

  lemma CleanPair()
    ensures CleanBody([10, 10]) == [10]
  {
    assert [10, 10][2..] == [];
  }

  lemma CleanSingle(rest: seq<byte>)
    requires rest != [] && rest[0] != 10
    ensures CleanBody([10] + rest) == [10] + CleanBody(rest)
  {
    var s := [10] + rest;
    assert s[1..] == rest && s[1] == rest[0];
  }

  lemma FirstByte(lines: seq<string>)
    requires lines != [] && FullLines(lines)
    ensures
      var b := Encode(Terminated(lines) + "\n");
      b != [] && b[0] != 10
  {
    hide Encode;
    var line, rest := lines[0], Terminated(lines[1..]);
    assert Terminated(lines) + "\n" == line + "\n" + (rest + "\n");
    NewlineThen(line, rest + "\n");
    NoNewlineByte(line);
    assert Encode(line)[0] in Encode(line);
  }

  lemma NewlineThen(line: string, rest: string)
    ensures Encode(line + "\n" + rest) == Encode(line) + ([10] + Encode(rest))
  {
    hide Encode;
    EncodeConcat(line + "\n", rest);
    EncodeConcat(line, "\n");
    EncodeAscii("\n");
  }

  /** Cleaning leaves the text form of a message with headers as it is, */
  lemma CleanRendered(headers: seq<Header>)
    requires AllWellFormed(headers) && headers != []
    ensures Clean(Encode(Render(headers))) == Encode(Render(headers))
  {
    hide WellFormed, HeaderText, Encode, CleanBody;
    HeaderTextsPlain(headers);
    var lines := HeaderTexts(headers);
    CleanTerminated(lines);
    EncodeConcat(Terminated(lines), "\n");
    EncodeAscii("\n");
  }

  lemma NoHeaders()
    ensures ParseHeaders(Clean(Encode(Render([])))) == []
  {
    hide UnixText, Encode, CleanBody, Lines, Render;
    EncodeAscii("\n");
    EncodeAscii("\n\n");
    EmptyRender();
    CleanNewline();
    assert Encode("\n") == [10] && Encode("\n\n") == [10, 10];
    assert Clean([10]) == [10] + [10] == [10, 10];
    UnixTextPlain("\n\n");
    LinesStep("", "\n");
    assert "" + "\n" + "\n" == "\n\n";
  }

  lemma EmptyRender()
    ensures Render([]) == "\n"
  {
  }

  lemma CleanNewline()
    ensures CleanBody([10]) == [10]
  {
    assert [10][1..] == [];
  }

  /** so the server reads exactly the headers that were sent. */
  lemma WireRoundTrip(headers: seq<Header>)
    requires AllWellFormed(headers)
    ensures ParseHeaders(Clean(Encode(Render(headers)))) == headers
  {
    hide ParseHeaders, Clean, Render, WellFormed;
    if headers == [] {
      NoHeaders();
    } else {
      CleanRendered(headers);
      ParseRendered(headers);
    }
  }

  // ----- packets with doubled line ends -----

  function Doubled(b: seq<byte>): seq<byte> {
    if b == [] then [] else (if b[0] == 10 then [10, 10] else [b[0]]) + Doubled(b[1..])
  }

  lemma {:induction false} CleanDoubled(b: seq<byte>)
    ensures CleanBody(Doubled(b)) == b
  {
    hide CleanBody;
    if b == [] {
      CleanNothing();
    } else {
      var rest := Doubled(b[1..]);
      CleanDoubled(b[1..]);
      if b[0] == 10 {
        NewlinePairFirst(rest);
      } else {
        CleanLine([b[0]], rest);
      }
    }
  }

  lemma NewlinePairFirst(rest: seq<byte>)
    ensures CleanBody([10, 10] + rest) == [10] + CleanBody(rest)
  {
    assert ([10, 10] + rest)[2..] == rest;
  }

  /** Old clients double every line end; the server reads the same headers. */
  lemma DoubledIsRead(headers: seq<Header>)
    requires AllWellFormed(headers)
    ensures ParseHeaders(Clean(Doubled(Encode(Render(headers))))) == headers
  {
    hide ParseHeaders, Render, AllWellFormed, Encode, Doubled, CleanBody;
    var text := Render(headers);
    CleanDoubled(Encode(text));
    EncodeConcat(text, "\n");
    EncodeAscii("\n");
    assert Encode("\n") == [10];
    ParseFollowed(headers, "\n");
  }
}
