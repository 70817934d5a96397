/** Splitting multipart bodies and mbox files into messages (src/digest.rs), and putting them together. */
module Multipart {
  import opened Text
  import opened Utf8

  function Piece(lines: seq<string>): seq<byte> {
    Encode(Join(lines, "\n"))
  }

  // ===== multipart =====

  /** Where the multipart scanner is: the parts so far and the open one. */
  datatype Scan = Scan(parts: seq<seq<byte>>, current: seq<string>, inside: bool, closed: bool)

  function Close(s: Scan): seq<seq<byte>> {
    if s.inside && s.current != [] then s.parts + [Piece(s.current)] else s.parts
  }

  function ScanLine(s: Scan, line: string, boundary: string): Scan {
    if s.closed then s
    else if TrimEnd(line) == "--" + boundary then
      Scan(Close(s), if s.inside then [] else s.current, true, false)
    else if TrimEnd(line) == "--" + boundary + "--" then
      Scan(Close(s), s.current, s.inside, true)
    else if s.inside then s.(current := s.current + [line])
    else s
  }

  function ScanLines(s: Scan, lines: seq<string>, boundary: string): Scan
    decreases |lines|
  {
    if lines == [] then s else ScanLines(ScanLine(s, lines[0], boundary), lines[1..], boundary)
  }

  function Finish(s: Scan): seq<seq<byte>> {
    if s.closed then s.parts else Close(s)
  }

  const START: Scan := Scan([], [], false, false)

  function Parts(bytes: seq<byte>, boundary: string): seq<seq<byte>> {
    Finish(ScanLines(START, Lines(UnixText(bytes)), boundary))
  }

  method SplitMultipart(bytes: seq<byte>, boundary: string) returns (parts: seq<seq<byte>>)
    ensures parts == Parts(bytes, boundary)
  {
    hide TrimEnd, Encode, Join;
    var lines := Lines(UnixText(bytes));
    var marker := "--" + boundary;
    var closing := "--" + boundary + "--";
    parts := [];
    var current: seq<string> := [];
    var inside, closed := false, false;
    var i := 0;
    while i < |lines|
      invariant i <= |lines| && !closed
      invariant ScanLines(START, lines, boundary)
             == ScanLines(Scan(parts, current, inside, closed), lines[i..], boundary)
    {
      var line := lines[i];
      assert lines[i..][1..] == lines[i + 1..];
      i := i + 1;
      if TrimEnd(line) == marker {
        if inside && current != [] {
          parts := parts + [Piece(current)];
          current := [];
        }
        inside := true;
        continue;
      }
      if TrimEnd(line) == closing {
        if inside && current != [] {
          parts := parts + [Piece(current)];
        }
        closed := true;
        ScanClosed(Scan(parts, current, inside, closed), lines[i..], boundary);
        break;
      }
      if inside {
        current := current + [line];
      }
    }
    if inside && !closed && current != [] {
      parts := parts + [Piece(current)];
    }
  }

  lemma {:induction false} ScanClosed(s: Scan, lines: seq<string>, boundary: string)
    requires s.closed
    ensures ScanLines(s, lines, boundary) == s
    decreases |lines|
  {
    if lines != [] {
      ScanClosed(s, lines[1..], boundary);
    }
  }

  // ----- assembling a multipart body, section 5.1.1 of RFC 2046 -----

  /** A delimiter line: the marker, possibly padded with white space. */
  predicate IsDelimiter(line: string, marker: string) {
    PlainLine(line) && |line| >= |marker| && line[..|marker|] == marker && AllWhitespace(line[|marker|..])
  }

  /** A line that the scanner takes for neither a delimiter nor the close. */
  predicate IsContent(line: string, boundary: string) {
    PlainLine(line) && TrimEnd(line) != "--" + boundary && TrimEnd(line) != "--" + boundary + "--"
  }

  predicate AllContent(lines: seq<string>, boundary: string) {
    forall l | l in lines :: IsContent(l, boundary)
  }

  /** Each part after its delimiter line. */
  function Delimited(delimiters: seq<string>, parts: seq<string>): string
    requires |delimiters| == |parts|
  {
    if parts == [] then ""
    else delimiters[0] + "\n" + parts[0] + "\n" + Delimited(delimiters[1..], parts[1..])
  }

  function Assemble(preamble: seq<string>, delimiters: seq<string>, parts: seq<string>,
                    close: string, epilogue: string): string
    requires |delimiters| == |parts|
  {
    Terminated(preamble) + Delimited(delimiters, parts) + close + "\n" + epilogue
  }

  ghost predicate Assembled(boundary: string, preamble: seq<string>, delimiters: seq<string>, parts: seq<string>,
                            close: string, epilogue: string)
  {
    && |delimiters| == |parts|
    && AllContent(preamble, boundary)
    && (forall d | d in delimiters :: IsDelimiter(d, "--" + boundary))
    && (forall p | p in parts :: '\r' !in p && AllContent(Split(p, '\n'), boundary))
    && IsDelimiter(close, "--" + boundary + "--")
    && '\r' !in epilogue
  }

  function EncodedParts(parts: seq<string>): seq<seq<byte>> {
    if parts == [] then [] else [Encode(parts[0])] + EncodedParts(parts[1..])
  }

  function PartLines(delimiters: seq<string>, parts: seq<string>): seq<string>
    requires |delimiters| == |parts|
  {
    if parts == [] then []
    else [delimiters[0]] + Split(parts[0], '\n') + PartLines(delimiters[1..], parts[1..])
  }

  lemma {:induction false} DelimitedLines(delimiters: seq<string>, parts: seq<string>)
    requires |delimiters| == |parts|
    ensures Delimited(delimiters, parts) == Terminated(PartLines(delimiters, parts))
  {
    if parts != [] {
      var d, p := delimiters[0], parts[0];
      var rest := PartLines(delimiters[1..], parts[1..]);
      DelimitedLines(delimiters[1..], parts[1..]);
      TerminatedAppend(Split(p, '\n'), rest);
      TerminatedSplit(p);
      assert PartLines(delimiters, parts) == [d] + (Split(p, '\n') + rest);
    }
  }

  lemma {:induction false} PartLinesPlain(boundary: string, delimiters: seq<string>, parts: seq<string>)
    requires |delimiters| == |parts|
    requires forall d | d in delimiters :: IsDelimiter(d, "--" + boundary)
    requires forall p | p in parts :: AllContent(Split(p, '\n'), boundary)
    ensures PlainLines(PartLines(delimiters, parts))
  {
    hide TrimEnd, Split;
    if parts != [] {
      PartLinesPlain(boundary, delimiters[1..], parts[1..]);
      assert IsDelimiter(delimiters[0], "--" + boundary);
      assert AllContent(Split(parts[0], '\n'), boundary);
    }
  }

  lemma {:induction false} ScanAppend(s: Scan, a: seq<string>, b: seq<string>, boundary: string)
    ensures ScanLines(s, a + b, boundary) == ScanLines(ScanLines(s, a, boundary), b, boundary)
    decreases |a|
  {
    hide ScanLine;
    if a == [] {
      assert a + b == b;
    } else {
      assert (a + b)[1..] == a[1..] + b;
      ScanAppend(ScanLine(s, a[0], boundary), a[1..], b, boundary);
    }
  }

  /** Content lines extend the open part, or are skipped before the first delimiter. */
  lemma {:induction false} ScanContent(s: Scan, lines: seq<string>, boundary: string)
    requires AllContent(lines, boundary) && !s.closed
    ensures ScanLines(s, lines, boundary) == if s.inside then s.(current := s.current + lines) else s
    decreases |lines|
  {
    hide TrimEnd;
    if lines != [] {
      assert IsContent(lines[0], boundary);
      var next := if s.inside then s.(current := s.current + [lines[0]]) else s;
      ScanContent(next, lines[1..], boundary);
      assert s.current + [lines[0]] + lines[1..] == s.current + lines;
    } else {
      assert s.current + lines == s.current;
    }
  }

  predicate EndsInWhitespace(s: string) {
    s != "" && IsWhitespace(s[|s| - 1])
  }

  lemma MarkerTrims(line: string, marker: string)
    requires IsDelimiter(line, marker) && !EndsInWhitespace(marker)
    ensures TrimEnd(line) == marker
  {
    assert line == marker + line[|marker|..];
    TrimEndPad(marker, line[|marker|..]);
  }

  /** A delimiter line and the lines of a part close what was open and open that part. */
  lemma ScanOnePart(s: Scan, boundary: string, d: string, p: string)
    requires !s.closed && (s.inside || s.current == []) && !EndsInWhitespace(boundary)
    requires IsDelimiter(d, "--" + boundary) && AllContent(Split(p, '\n'), boundary)
    ensures
      && ScanLines(s, [d] + Split(p, '\n'), boundary) == Scan(Close(s), Split(p, '\n'), true, false)
      && Close(Scan(Close(s), Split(p, '\n'), true, false)) == Close(s) + [Encode(p)]
  {
    hide TrimEnd, Split, Join, Encode;
    var lines := Split(p, '\n');
    MarkerTrims(d, "--" + boundary);
    ScanContent(Scan(Close(s), [], true, false), lines, boundary);
    assert [] + lines == lines;
    assert ([d] + lines)[1..] == lines;
    JoinSplit(p, '\n');
  }

  lemma {:induction false} ScanPartLines(s: Scan, boundary: string, delimiters: seq<string>, parts: seq<string>)
    requires !s.closed && (s.inside || s.current == []) && !EndsInWhitespace(boundary)
    requires |delimiters| == |parts|
    requires forall d | d in delimiters :: IsDelimiter(d, "--" + boundary)
    requires forall p | p in parts :: AllContent(Split(p, '\n'), boundary)
    ensures
      var r := ScanLines(s, PartLines(delimiters, parts), boundary);
      !r.closed && Close(r) == Close(s) + EncodedParts(parts)
    decreases |parts|
  {
    hide TrimEnd, Split, Join, Encode, EncodedParts, Close, IsDelimiter, AllContent, ScanLine, ScanLines, EndsInWhitespace;
    if parts == [] {
      ScanNothing(s, boundary);
      NoEncodedParts();
      assert Close(s) + [] == Close(s);
    } else {
      var d, p := delimiters[0], parts[0];
      var lines, rest := Split(p, '\n'), PartLines(delimiters[1..], parts[1..]);
      ScanOnePart(s, boundary, d, p);
      ScanAppend(s, [d] + lines, rest, boundary);
      ScanPartLines(Scan(Close(s), lines, true, false), boundary, delimiters[1..], parts[1..]);
      FirstPart(Close(s), parts);
    }
  }

  lemma ScanNothing(s: Scan, boundary: string)
    ensures ScanLines(s, [], boundary) == s
  {
  }

  lemma {:induction false} ScanWithoutMarker(s: Scan, lines: seq<string>, boundary: string)
    requires EndsInWhitespace(boundary) && !s.inside && s.parts == []
    ensures Finish(ScanLines(s, lines, boundary)) == []
    decreases |lines|
  {
    if lines != [] {
      assert ("--" + boundary)[|boundary| + 1] == boundary[|boundary| - 1];
      ScanWithoutMarker(ScanLine(s, lines[0], boundary), lines[1..], boundary);
    }
  }

  lemma AssembledLines(boundary: string, preamble: seq<string>, delimiters: seq<string>, parts: seq<string>,
                       close: string, epilogue: string)
    requires Assembled(boundary, preamble, delimiters, parts, close, epilogue)
    ensures
      Lines(UnixText(Encode(Assemble(preamble, delimiters, parts, close, epilogue))))
      == preamble + PartLines(delimiters, parts) + [close] + Lines(epilogue)
  {
    hide TrimEnd, Split, Encode, UnixText, Lines, Delimited, Terminated, PartLines;
    var lines := PartLines(delimiters, parts);
    var all := preamble + lines + [close];
    PartLinesPlain(boundary, delimiters, parts);
    PreamblePlain(preamble, boundary);
    assert PlainLines(all);
    AssembleTerminated(preamble, delimiters, parts, close, epilogue);
    TerminatedPlain(all);
    UnixTextPlain(Terminated(all) + epilogue);
    LinesTerminated(all, epilogue);
  }

  lemma AssembleTerminated(preamble: seq<string>, delimiters: seq<string>, parts: seq<string>,
                           close: string, epilogue: string)
    requires |delimiters| == |parts|
    ensures
      Assemble(preamble, delimiters, parts, close, epilogue)
      == Terminated(preamble + PartLines(delimiters, parts) + [close]) + epilogue
  {
    var lines := PartLines(delimiters, parts);
    DelimitedLines(delimiters, parts);
    TerminatedAppend(preamble, lines);
    TerminatedAppend(preamble + lines, [close]);
    assert Terminated([close]) == close + "\n" + Terminated([]);
  }

  lemma PreamblePlain(preamble: seq<string>, boundary: string)
    requires AllContent(preamble, boundary)
    ensures PlainLines(preamble)
  {
    forall l | l in preamble
      ensures PlainLine(l)
    {
      assert IsContent(l, boundary);
    }
  }

  /** Splitting gives back the assembled parts, and nothing else, exactly when the boundary does not
      end in white space (a delimiter line is compared after trimming its end). */
  lemma SplitAssembled(boundary: string, preamble: seq<string>, delimiters: seq<string>, parts: seq<string>,
                       close: string, epilogue: string)
    requires Assembled(boundary, preamble, delimiters, parts, close, epilogue)
    ensures
      Parts(Encode(Assemble(preamble, delimiters, parts, close, epilogue)), boundary) == EncodedParts(parts)
      <==> parts == [] || !EndsInWhitespace(boundary)
  {
    hide TrimEnd, Split, Encode, Assemble, Lines, UnixText;
    AssembledLines(boundary, preamble, delimiters, parts, close, epilogue);
    var lines, rest := PartLines(delimiters, parts), Lines(epilogue);
    var all := preamble + lines + [close] + rest;
    if EndsInWhitespace(boundary) {
      ScanWithoutMarker(START, all, boundary);
    } else {
      assert all == preamble + (lines + ([close] + rest));
      ScanAppend(START, preamble, lines + ([close] + rest), boundary);
      ScanContent(START, preamble, boundary);
      ScanAppend(START, lines, [close] + rest, boundary);
      ScanPartLines(START, boundary, delimiters, parts);
      var open := ScanLines(START, lines, boundary);
      MarkerTrims(close, "--" + boundary + "--");
      assert ([close] + rest)[1..] == rest;
      ScanClosed(ScanLine(open, close, boundary), rest, boundary);
    }
  }

  /** A body that was cut off: parts, but no closing line. Its last line may lack its newline. */
  function Unclosed(preamble: seq<string>, delimiters: seq<string>, parts: seq<string>, ended: bool): string
    requires |delimiters| == |parts|
  {
    var text := Terminated(preamble) + Delimited(delimiters, parts);
    if ended || text == "" then text else text[..|text| - 1]
  }

  lemma {:induction false} LinesUnended(lines: seq<string>)
    requires PlainLines(lines) && lines != [] && lines[|lines| - 1] != ""
    ensures var t := Terminated(lines); t != "" && Lines(t[..|t| - 1]) == lines
  {
    hide Lines, Terminated, PlainLine;
    var n := |lines| - 1;
    var last := lines[n];
    TerminatedAppend(lines[..n], [last]);
    assert lines == lines[..n] + [last] && last in lines;
    assert forall l | l in lines[..n] :: l in lines;
    OneTerminated(last);
    var t := Terminated(lines);
    assert t[..|t| - 1] == Terminated(lines[..n]) + last;
    LinesTerminated(lines[..n], last);
    LastOfLines(last);
  }

  lemma OneTerminated(line: string)
    ensures Terminated([line]) == line + "\n"
  {
    assert Terminated([line]) == line + "\n" + Terminated([]);
  }

  lemma LastOfLines(line: string)
    requires PlainLine(line) && line != ""
    ensures Lines(line) == [line]
  {
    FindNone(line, '\n');
  }

  lemma UnclosedLines(boundary: string, preamble: seq<string>, delimiters: seq<string>, parts: seq<string>, ended: bool)
    requires |delimiters| == |parts| && AllContent(preamble, boundary)
    requires forall d | d in delimiters :: IsDelimiter(d, "--" + boundary)
    requires forall p | p in parts :: '\r' !in p && AllContent(Split(p, '\n'), boundary)
    requires var lines := preamble + PartLines(delimiters, parts); ended || lines == [] || lines[|lines| - 1] != ""
    ensures
      Lines(UnixText(Encode(Unclosed(preamble, delimiters, parts, ended)))) == preamble + PartLines(delimiters, parts)
  {
    hide TrimEnd, Split, Encode, UnixText, Lines, Delimited, Terminated, PartLines, IsDelimiter, AllContent;
    var lines := preamble + PartLines(delimiters, parts);
    PartLinesPlain(boundary, delimiters, parts);
    PreamblePlain(preamble, boundary);
    assert PlainLines(lines);
    DelimitedLines(delimiters, parts);
    TerminatedAppend(preamble, PartLines(delimiters, parts));
    TerminatedPlain(lines);
    LinesTerminated(lines, "");
    NothingLeft();
    var t := Terminated(lines);
    assert t + "" == t && lines + [] == lines;
    if !ended && t != "" {
      if lines != [] {
        LinesUnended(lines);
      }
    }
    UnixTextPlain(Unclosed(preamble, delimiters, parts, ended));
  }

  lemma NothingLeft()
    ensures Lines("") == [] && Terminated([]) == ""
  {
  }

  /** Without a closing line the part that is open at the end counts, up to the end. */
  lemma SplitUnclosed(boundary: string, preamble: seq<string>, delimiters: seq<string>, parts: seq<string>, ended: bool)
    requires |delimiters| == |parts| && AllContent(preamble, boundary)
    requires forall d | d in delimiters :: IsDelimiter(d, "--" + boundary)
    requires forall p | p in parts :: '\r' !in p && AllContent(Split(p, '\n'), boundary)
    requires var lines := preamble + PartLines(delimiters, parts); ended || lines == [] || lines[|lines| - 1] != ""
    ensures
      Parts(Encode(Unclosed(preamble, delimiters, parts, ended)), boundary)
      == if EndsInWhitespace(boundary) then [] else EncodedParts(parts)
  {
    hide TrimEnd, Split, Encode, Unclosed, Lines, UnixText, PartLines, IsDelimiter, AllContent, ScanLines, ScanLine;
    UnclosedLines(boundary, preamble, delimiters, parts, ended);
    var lines := PartLines(delimiters, parts);
    if EndsInWhitespace(boundary) {
      ScanWithoutMarker(START, preamble + lines, boundary);
    } else {
      ScanAppend(START, preamble, lines, boundary);
      ScanContent(START, preamble, boundary);
      ScanPartLines(START, boundary, delimiters, parts);
      assert [] + EncodedParts(parts) == EncodedParts(parts);
    }
  }

  // ===== mbox =====

  datatype Mbox = Mbox(messages: seq<seq<byte>>, current: seq<string>, seen: bool)

  predicate IsFrom(line: string) {
    "From " <= line
  }

  lemma FromExactly(line: string)
    ensures IsFrom(line) <==> exists rest :: line == "From " + rest
  {
    if IsFrom(line) {
      assert line == "From " + line[5..];
    }
  }

  function MboxLine(s: Mbox, line: string): Mbox {
    if IsFrom(line) then
      if s.seen && s.current != [] then Mbox(s.messages + [Piece(s.current)], [], true) else s.(seen := true)
    else s.(current := s.current + [line])
  }

  function MboxLines(s: Mbox, lines: seq<string>): Mbox
    decreases |lines|
  {
    if lines == [] then s else MboxLines(MboxLine(s, lines[0]), lines[1..])
  }

  function MboxMessages(s: Mbox): seq<seq<byte>> {
    if s.current != [] || !s.seen then s.messages + [Piece(s.current)] else s.messages
  }

  const EMPTY: Mbox := Mbox([], [], false)

  method SplitMbox(bytes: seq<byte>) returns (messages: seq<seq<byte>>)
    ensures messages == MboxMessages(MboxLines(EMPTY, Lines(UnixText(bytes))))
  {
    hide Encode, Join;
    var lines := Lines(UnixText(bytes));
    messages := [];
    var current: seq<string>, seen := [], false;
    for i := 0 to |lines|
      invariant MboxLines(EMPTY, lines) == MboxLines(Mbox(messages, current, seen), lines[i..])
    {
      var line := lines[i];
      assert lines[i..][1..] == lines[i + 1..];
      if IsFrom(line) {
        if seen && current != [] {
          messages := messages + [Piece(current)];
          current := [];
        }
        seen := true;
      } else {
        current := current + [line];
      }
    }
    if current != [] || !seen {
      messages := messages + [Piece(current)];
    }
  }

  predicate NoFrom(lines: seq<string>) {
    forall l | l in lines :: PlainLine(l) && !IsFrom(l)
  }

  ghost predicate MboxAssembled(preamble: seq<string>, froms: seq<string>, messages: seq<string>) {
    && |froms| == |messages| > 0
    && NoFrom(preamble)
    && (forall f | f in froms :: PlainLine(f) && IsFrom(f))
    && (forall m | m in messages :: NoFrom(Split(m, '\n')))
  }

  lemma {:induction false} MboxAppend(s: Mbox, a: seq<string>, b: seq<string>)
    ensures MboxLines(s, a + b) == MboxLines(MboxLines(s, a), b)
    decreases |a|
  {
    hide MboxLine;
    if a == [] {
      assert a + b == b;
    } else {
      assert (a + b)[1..] == a[1..] + b;
      MboxAppend(MboxLine(s, a[0]), a[1..], b);
    }
  }

  lemma {:induction false} MboxContent(s: Mbox, lines: seq<string>)
    requires NoFrom(lines)
    ensures MboxLines(s, lines) == s.(current := s.current + lines)
    decreases |lines|
  {
    if lines != [] {
      MboxContent(s.(current := s.current + [lines[0]]), lines[1..]);
      assert s.current + [lines[0]] + lines[1..] == s.current + lines;
    } else {
      assert s.current + lines == s.current;
    }
  }

  /** A "From " line and a message's lines: the message joins whatever was open before any "From " line. */
  lemma MboxOne(s: Mbox, from: string, m: string)
    requires IsFrom(from) && NoFrom(Split(m, '\n'))
    ensures
      var lines := Split(m, '\n');
      && MboxLines(s, [from] + lines)
         == (if s.seen && s.current != [] then Mbox(s.messages + [Piece(s.current)], lines, true)
             else Mbox(s.messages, s.current + lines, true))
      && Piece(lines) == Encode(m)
  {
    hide Split, Join, Encode;
    var lines := Split(m, '\n');
    assert ([from] + lines)[1..] == lines;
    MboxContent(MboxLine(s, from), lines);
    assert [] + lines == lines;
    JoinSplit(m, '\n');
  }

  lemma {:induction false} MboxRest(s: Mbox, froms: seq<string>, messages: seq<string>)
    requires s.seen && s.current != [] && |froms| == |messages|
    requires forall f | f in froms :: IsFrom(f)
    requires forall m | m in messages :: NoFrom(Split(m, '\n'))
    ensures
      MboxMessages(MboxLines(s, PartLines(froms, messages)))
      == s.messages + [Piece(s.current)] + EncodedParts(messages)
    decreases |messages|
  {
    hide Split, Piece, Encode, IsFrom, NoFrom, MboxLine, MboxLines, EncodedParts;
    if messages == [] {
      MboxNothing(s);
      NoEncodedParts();
    } else {
      var f, m := froms[0], messages[0];
      var lines, rest := Split(m, '\n'), PartLines(froms[1..], messages[1..]);
      MboxOne(s, f, m);
      MboxAppend(s, [f] + lines, rest);
      MboxRest(Mbox(s.messages + [Piece(s.current)], lines, true), froms[1..], messages[1..]);
      FirstPart(s.messages + [Piece(s.current)], messages);
    }
  }

  lemma NoEncodedParts()
    ensures EncodedParts([]) == []
  {
  }

  lemma FirstPart(before: seq<seq<byte>>, parts: seq<string>)
    requires parts != []
    ensures before + EncodedParts(parts) == before + [Encode(parts[0])] + EncodedParts(parts[1..])
  {
    hide Encode;
  }

  lemma MboxNothing(s: Mbox)
    ensures MboxLines(s, []) == s
  {
  }

  /** An mbox file splits into its messages, except that text before the first "From " line
      becomes part of the first message. */
  lemma SplitAssembledMbox(preamble: seq<string>, froms: seq<string>, messages: seq<string>)
    requires MboxAssembled(preamble, froms, messages)
    ensures
      MboxMessages(MboxLines(EMPTY, preamble + PartLines(froms, messages)))
      == [Piece(preamble + Split(messages[0], '\n'))] + EncodedParts(messages[1..])
  {
    hide Split, Piece, Encode, IsFrom, NoFrom, MboxLine, MboxLines;
    var lines, rest := Split(messages[0], '\n'), PartLines(froms[1..], messages[1..]);
    MboxAppend(EMPTY, preamble, PartLines(froms, messages));
    MboxContent(EMPTY, preamble);
    assert [] + preamble == preamble;
    var before := EMPTY.(current := preamble);
    MboxOne(before, froms[0], messages[0]);
    MboxAppend(before, [froms[0]] + lines, rest);
    MboxRest(Mbox([], preamble + lines, true), froms[1..], messages[1..]);
    assert [] + [Piece(preamble + lines)] + EncodedParts(messages[1..])
        == [Piece(preamble + lines)] + EncodedParts(messages[1..]);
  }

  lemma {:induction false} JoinLonger(a: seq<string>, b: seq<string>)
    requires a != [] && b != []
    ensures |Join(a + b, "\n")| > |Join(b, "\n")|
  {
    assert (a + b)[1..] == a[1..] + b;
    if |a| > 1 {
      JoinLonger(a[1..], b);
    } else {
      assert a[1..] + b == b;
    }
  }

  /** Splitting an mbox file gives back exactly its messages if and only if nothing precedes the first
      "From " line. */
  lemma MboxRoundTrip(preamble: seq<string>, froms: seq<string>, messages: seq<string>)
    requires MboxAssembled(preamble, froms, messages)
    ensures
      var file := Encode(Terminated(preamble) + Delimited(froms, messages));
      MboxMessages(MboxLines(EMPTY, Lines(UnixText(file)))) == EncodedParts(messages) <==> preamble == []
  {
    hide Split, Encode, Lossy, IsFrom, Lines, UnixText, MboxLine, MboxLines, Delimited, Join, Terminated;
    var lines := PartLines(froms, messages);
    MboxFileLines(preamble, froms, messages);
    SplitAssembledMbox(preamble, froms, messages);
    var first := Split(messages[0], '\n');
    JoinSplit(messages[0], '\n');
    if preamble == [] {
      assert preamble + first == first;
    } else {
      JoinLonger(preamble, first);
      ReadEncoded(Join(preamble + first, "\n"));
      ReadEncoded(messages[0]);
      assert EncodedParts(messages)[0] == Encode(messages[0]);
    }
  }

  lemma MboxFileLines(preamble: seq<string>, froms: seq<string>, messages: seq<string>)
    requires MboxAssembled(preamble, froms, messages)
    ensures
      Lines(UnixText(Encode(Terminated(preamble) + Delimited(froms, messages))))
      == preamble + PartLines(froms, messages)
  {
    hide Split, Encode, IsFrom, UnixText, Delimited, Terminated;
    var lines := PartLines(froms, messages);
    MboxLinesPlain(froms, messages);
    assert PlainLines(preamble + lines);
    DelimitedLines(froms, messages);
    TerminatedAppend(preamble, lines);
    TerminatedPlain(preamble + lines);
    UnixTextPlain(Terminated(preamble + lines));
    LinesTerminated(preamble + lines, "");
    assert Terminated(preamble + lines) + "" == Terminated(preamble + lines);
    assert Lines("") == [];
  }

  lemma {:induction false} MboxLinesPlain(froms: seq<string>, messages: seq<string>)
    requires |froms| == |messages|
    requires forall f | f in froms :: PlainLine(f)
    requires forall m | m in messages :: NoFrom(Split(m, '\n'))
    ensures PlainLines(PartLines(froms, messages))
  {
    hide Split;
    if messages != [] {
      MboxLinesPlain(froms[1..], messages[1..]);
      assert NoFrom(Split(messages[0], '\n'));
    }
  }
}
