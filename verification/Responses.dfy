/** How a client reads what the server answers (src/server.rs, src/message.rs). */
module Responses {
  import opened Wrappers
  import opened Errors
  import opened Text
  import opened Utf8
  import opened Headers
  import opened Messages
  import opened Accounts
  import opened Engines
  import opened Server

  predicate IsBlank(c: char) {
    c == ' ' || c == '\t'
  }

  /** Every newline is followed by something other than a blank, if by anything. */
  predicate Tidy(s: string) {
    forall k | 0 <= k < |s| - 1 && s[k] == '\n' :: !IsBlank(s[k + 1])
  }

  predicate StartsTidily(s: string) {
    s != "" ==> !IsBlank(s[0])
  }

  /** What a value that was read looks like: continued lines were trimmed and joined by newlines. */
  predicate ReadValue(v: string) {
    '\r' !in v && Tidy(v) && (v != "" ==> v[0] == '\n' || !IsWhitespace(v[0]))
  }

  predicate ReadValues(headers: seq<Header>) {
    forall k | 0 <= k < |headers| :: ReadValue(headers[k].1)
  }

  predicate PlainLinesAll(lines: seq<string>) {
    forall k | 0 <= k < |lines| :: PlainLine(lines[k])
  }

  lemma TidyConcat(a: string, b: string)
    requires Tidy(a) && Tidy(b) && (a != "" && a[|a| - 1] == '\n' ==> StartsTidily(b))
    ensures Tidy(a + b)
  {
    hide IsBlank;
    var s := a + b;
    forall k | 0 <= k < |s| - 1 && s[k] == '\n'
      ensures !IsBlank(s[k + 1])
    {
      assert k < |a| - 1 ==> s[k] == a[k] && s[k + 1] == a[k + 1];
      assert k == |a| - 1 ==> s[k] == a[k] && s[k + 1] == b[0];
      assert k >= |a| ==> s[k] == b[k - |a|] && s[k + 1] == b[k + 1 - |a|];
    }
  }

  lemma PlainIsTidy(s: string)
    requires '\n' !in s
    ensures Tidy(s)
  {
    assert forall k | 0 <= k < |s| :: s[k] in s;
  }

  lemma PlainSlice(s: string, i: nat, j: nat)
    requires PlainLine(s) && i <= j <= |s|
    ensures PlainLine(s[i..j])
  {
    assert forall k | 0 <= k < j - i :: s[i..j][k] == s[i + k];
  }

  lemma TrimmedLine(line: string)
    requires PlainLine(line)
    ensures PlainLine(Trim(line)) && StartsTidily(Trim(line)) && PlainLine(TrimStart(line))
  {
    hide IsWhitespace, TrimStart, TrimEnd, PlainLine;
    Blanks();
    var t := TrimStart(line);
    PlainSlice(line, |line| - |t|, |line|);
    assert line[|line| - |t|..|line|] == t;
    var u := TrimEnd(t);
    PlainSlice(t, 0, |u|);
    assert t[0..|u|] == u;
    assert u != "" ==> u[0] == t[0];
  }

  lemma ReadContinuation(headers: seq<Header>, line: string)
    requires headers != [] && ReadValues(headers) && PlainLine(line)
    ensures
      var last := headers[|headers| - 1];
      ReadValues(headers[|headers| - 1 := (last.0, last.1 + "\n" + Trim(line))])
  {
    hide Trim, ReadValue, PlainLine;
    TrimmedLine(line);
    ContinuedValue(headers[|headers| - 1].1, Trim(line));
  }

  lemma ReadFirst(headers: seq<Header>, line: string)
    requires ReadValues(headers) && PlainLine(line)
    ensures
      var cut := SplitOnce(line, ':');
      cut.Some? ==> ReadValues(headers + [(Trim(cut.value.0), TrimStart(cut.value.1))])
  {
    hide Trim, TrimStart, ReadValue, PlainLine, SplitOnce;
    var cut := SplitOnce(line, ':');
    if cut.Some? {
      SecondHalf(line);
      FirstValue(cut.value.1);
    }
  }

  lemma ReadLine(headers: seq<Header>, line: string)
    requires ReadValues(headers) && PlainLine(line)
    ensures ReadValues(ParseLine(headers, line))
  {
    hide Trim, TrimStart, SplitOnce, ReadValues, PlainLine;
    ReadFirst(headers, line);
    if headers != [] {
      ReadContinuation(headers, line);
    }
  }

  lemma SecondHalf(line: string)
    requires PlainLine(line) && SplitOnce(line, ':').Some?
    ensures PlainLine(SplitOnce(line, ':').value.1)
  {
    var second := SplitOnce(line, ':').value.1;
    assert forall k | 0 <= k < |second| :: second[k] == line[k + |line| - |second|];
  }

  lemma FirstValue(value: string)
    requires PlainLine(value)
    ensures ReadValue(TrimStart(value))
  {
    hide IsWhitespace, Tidy;
    TrimmedLine(value);
    PlainIsTidy(TrimStart(value));
  }

  lemma ContinuedValue(value: string, more: string)
    requires ReadValue(value) && PlainLine(more) && StartsTidily(more)
    ensures ReadValue(value + "\n" + more)
  {
    hide IsWhitespace, Tidy;
    PlainIsTidy(more);
    NewlineIsTidy();
    TidyConcat("\n", more);
    TidyConcat(value, "\n" + more);
    assert value + "\n" + more == value + ("\n" + more);
  }

  lemma NewlineIsTidy()
    ensures Tidy("\n") && StartsTidily("\n")
  {
  }

  lemma {:induction false} ReadLines(headers: seq<Header>, lines: seq<string>)
    requires ReadValues(headers) && PlainLinesAll(lines)
    ensures ReadValues(ParseLines(headers, lines))
    decreases |lines|
  {
    hide ParseLine, ReadValues, PlainLine;
    if lines != [] && lines[0] != "" {
      ReadLine(headers, lines[0]);
      ReadLines(ParseLine(headers, lines[0]), lines[1..]);
    }
  }

  lemma {:induction false} ReplaceReturns(s: string)
    ensures '\r' !in Replace(s, "\r", "\n")
  {
    if s != "" {
      ReplaceReturns(s[1..]);
    }
  }

  lemma {:induction false} LinesPlain(s: string)
    requires '\r' !in s
    ensures PlainLinesAll(Lines(s))
  {
    hide Find;
    if s != "" {
      var i := Find(s, '\n');
      if i < |s| {
        LinesPlain(s[i + 1..]);
        assert PlainLine(s[..i]) by {
          assert forall k | 0 <= k < i :: s[..i][k] == s[k];
        }
      }
    }
  }

  /** Whatever bytes were read, their values look like that. */
  lemma RequestValues(bytes: seq<byte>)
    ensures ReadValues(ParseHeaders(bytes))
  {
    hide Lossy, Lines, ParseLines;
    ReplaceReturns(Replace(Lossy(bytes), "\r\n", "\n"));
    LinesPlain(UnixText(bytes));
    ReadLines([], Lines(UnixText(bytes)));
  }

  lemma {:induction false} FoundValue(headers: seq<Header>, name: string)
    requires ReadValues(headers)
    ensures FindHeader(headers, name).Some? ==> ReadValue(FindHeader(headers, name).value)
  {
    hide Lower, ReadValue;
    if headers != [] {
      assert ReadValue(headers[0].1);
      FoundValue(headers[1..], name);
    }
  }

  // ----- the response as it is printed -----

  /** A header whose printed form starts with a name, and has a value that was read or is one line. */
  predicate Printable(h: Header) {
    h.0 != "" && GoodName(h.0) && ReadValue(h.1)
  }

  predicate AllPrintable(headers: seq<Header>) {
    forall k | 0 <= k < |headers| :: Printable(headers[k])
  }

  lemma GoodIsRead(value: string)
    requires GoodValue(value)
    ensures ReadValue(value)
  {
    hide IsWhitespace, Tidy;
    PlainIsTidy(value);
    assert TrimStart(value) == value;
  }

  lemma ReadIsGood(value: string)
    requires ReadValue(value) && '\n' !in value
    ensures GoodValue(value)
  {
    hide IsWhitespace, Tidy;
  }

  lemma PrintedLine(h: Header)
    requires Printable(h)
    ensures
      var s := HeaderText(h) + "\n";
      Tidy(s) && StartsTidily(s) && '\r' !in s && s[|s| - 1] == '\n'
  {
    hide Tidy, IsWhitespace, Trim;
    FirstOfTrimmed(h.0);
    Blanks();
    PlainIsTidy(h.0 + ": ");
    TidyConcat(h.0 + ": ", h.1);
    NewlineIsTidy();
    TidyConcat(h.0 + ": " + h.1, "\n");
  }

  lemma {:induction false} PrintedLines(headers: seq<Header>)
    requires AllPrintable(headers)
    ensures
      var s := Terminated(HeaderTexts(headers));
      Tidy(s) && StartsTidily(s) && '\r' !in s && (s != "" ==> s[|s| - 1] == '\n')
  {
    hide Printable, HeaderText, Tidy;
    if headers == [] {
      PlainIsTidy("");
    } else {
      var n := |headers| - 1;
      var before, last := HeaderTexts(headers[..n]), HeaderText(headers[n]);
      PrintedLines(headers[..n]);
      PrintedLine(headers[n]);
      TerminatedSnoc(before, last);
      assert Terminated(before) + last + "\n" == Terminated(before) + (last + "\n");
      TidyConcat(Terminated(before), last + "\n");
    }
  }

  predicate NoContinuation(line: string) {
    '\n' !in line && StartsTidily(line)
  }

  predicate NoContinuations(lines: seq<string>) {
    forall k | 0 <= k < |lines| :: NoContinuation(lines[k])
  }

  lemma {:induction false} TidyLines(s: string)
    requires Tidy(s) && StartsTidily(s) && '\r' !in s
    ensures NoContinuations(Lines(s))
  {
    hide Find, IsBlank;
    if s != "" {
      var i := Find(s, '\n');
      if i < |s| {
        var line, rest := s[..i], s[i + 1..];
        assert forall k | 0 <= k < i :: line[k] == s[k];
        assert forall k | 0 <= k < |rest| :: rest[k] == s[k + i + 1];
        TidyLines(rest);
        assert StripCr(line) == line;
      }
    }
  }

  predicate OneLineValues(headers: seq<Header>) {
    forall k | 0 <= k < |headers| :: '\n' !in headers[k].1
  }

  lemma OneLine(headers: seq<Header>, line: string)
    requires OneLineValues(headers) && NoContinuation(line)
    ensures OneLineValues(ParseLine(headers, line))
  {
    hide Trim, Find;
    var cut := SplitOnce(line, ':');
    if cut.Some? {
      var v := TrimStart(cut.value.1);
      assert forall k | 0 <= k < |v| :: v[k] == line[k + |line| - |v|];
    }
  }

  /** Where no line continues another, no value that is read has a newline. */
  lemma {:induction false} OneLines(headers: seq<Header>, lines: seq<string>)
    requires OneLineValues(headers) && NoContinuations(lines)
    ensures OneLineValues(ParseLines(headers, lines))
    decreases |lines|
  {
    hide ParseLine, OneLineValues, NoContinuation;
    if lines != [] && lines[0] != "" {
      OneLine(headers, lines[0]);
      OneLines(ParseLine(headers, lines[0]), lines[1..]);
    }
  }

  /** Printed and read again, such headers are what they were exactly when no value has a newline. */
  lemma PrintedSurvives(headers: seq<Header>)
    requires AllPrintable(headers)
    ensures ParseHeaders(Encode(Render(headers))) == headers <==> OneLineValues(headers)
  {
    hide Encode, UnixText, Lines, ParseLines, HeaderTexts, Terminated, GoodName, GoodValue, ReadValue;
    if OneLineValues(headers) {
      forall h | h in headers
        ensures WellFormed(h)
      {
        ReadIsGood(h.1);
      }
      ParseRendered(headers);
    } else {
      PrintedLines(headers);
      NewlineIsTidy();
      var s := Terminated(HeaderTexts(headers));
      TidyConcat(s, "\n");
      UnixTextPlain(Render(headers));
      TidyLines(Render(headers));
      OneLines([], Lines(Render(headers)));
    }
  }

  // ----- every response is printable -----

  lemma ResponseNamesGood()
    ensures forall name | name in {"Code", "Diag", "PV", "Thread", "Count", "WL-Count", "Entered", "Updated", "WL-Entered",
                                   "WL-Updated"} :: name != "" && GoodName(name)
  {
    hide GoodName, GoodValue;
    NoSpaceText("Code");
    NoSpaceText("Diag");
    NoSpaceText("PV");
    NoSpaceText("Thread");
    NoSpaceText("Count");
    NoSpaceText("WL-Count");
    NoSpaceText("Entered");
    NoSpaceText("Updated");
    NoSpaceText("WL-Entered");
    NoSpaceText("WL-Updated");
  }

  lemma ReadInt(n: int)
    ensures ReadValue(IntText(n)) && '\n' !in IntText(n)
  {
    hide IntText, ReadValue;
    IntTextPlain(n);
    GoodIsRead(IntText(n));
  }

  /** A text of one line that starts with a letter or a digit. */
  lemma Diagnostic(s: string)
    requires '\n' !in s && '\r' !in s && s != "" && !IsWhitespace(s[0])
    ensures ReadValue(s)
  {
    hide IsWhitespace, Tidy;
    PlainIsTidy(s);
  }

  lemma BasePrintable(thread: Option<string>)
    requires thread.Some? ==> ReadValue(thread.value)
    ensures AllPrintable(Response(thread))
  {
    hide ReadValue, GoodName;
    ResponseNamesGood();
    Diagnostic("200");
    Diagnostic("OK");
    Diagnostic(PROTO_VERSION);
  }

  lemma AnswersPrintable(op: string, digests: seq<string>, store: Store)
    ensures AllPrintable(AnswerFor(op, digests, store)) && OneLineValues(AnswerFor(op, digests, store))
  {
    hide ReadValue, GoodName, IntText, Lookup;
    ResponseNamesGood();
    Diagnostic("0");
    forall n: int
      ensures ReadValue(IntText(n)) && '\n' !in IntText(n)
    {
      ReadInt(n);
    }
  }

  predicate OneLineError(error: PyzorError) {
    PlainLine(error.message)
  }

  lemma TimeMessages()
    ensures PlainLine("Missing timestamp.") && PlainLine("Invalid timestamp.")
  {
  }

  lemma SignatureMessages()
    ensures PlainLine("Missing signature.") && PlainLine("Invalid signature.")
  {
  }

  lemma UserMessages()
    ensures PlainLine("Missing user.") && PlainLine("Unknown user.")
  {
  }

  lemma RangeMessage()
    ensures PlainLine("Timestamp not within allowed range.")
  {
  }

  lemma VersionMessages()
    ensures PlainLine("Invalid Protocol Version") && PlainLine("")
  {
  }

  lemma NoVersionMessage()
    ensures PlainLine("Protocol Version not specified in request")
  {
  }

  lemma AccessMessage()
    ensures PlainLine(NOT_AUTHORIZED)
  {
    hide PlainLine;
    AccessWords();
    PlainConcat("User is not authorized ", "to request the operation.");
  }

  lemma AccessWords()
    ensures PlainLine("User is not authorized ") && PlainLine("to request the operation.")
  {
    hide PlainLine;
    FirstWords();
    LastWords();
  }

  lemma FirstWords()
    ensures PlainLine("User is not authorized ")
  {
  }

  lemma LastWords()
    ensures PlainLine("to request the operation.")
  {
  }

  lemma OperationMessage()
    ensures PlainLine(NOT_IMPLEMENTED)
  {
  }

  lemma RequestedMessage()
    ensures PlainLine(REQUESTED_OPERATION)
  {
  }

  lemma VerifyMessages(request: seq<Header>, key: string, now: i64, lib: Library)
    ensures
      var verified := Verify(request, key, now, lib.lower);
      verified.Err? ==> OneLineError(verified.error)
  {
    hide FindHeader, SignText, HashKey, RemoveIn, TimeGap, PlainLine, ParseI64;
    TimeMessages();
    SignatureMessages();
    UserMessages();
    RangeMessage();
  }

  lemma AdmittedMessages(request: seq<Header>, config: Config, now: i64, lib: Library)
    ensures
      var admitted := Admitted(request, config, now, lib);
      admitted.Err? ==> OneLineError(admitted.error)
  {
    hide FindHeader, Verify, PlainLine, Allowed, OpOf, UserOf;
    VerifyMessages(request, if UserOf(request) in config.accounts then config.accounts[UserOf(request)] else "", now, lib);
    UserMessages();
    VersionMessages();
    NoVersionMessage();
    AccessMessage();
    OperationMessage();
    RequestedMessage();
    PlainConcat(NOT_IMPLEMENTED, REQUESTED_OPERATION);
  }

  lemma Prefixed(prefix: string, message: string)
    requires PlainLine(prefix) && prefix != "" && !IsWhitespace(prefix[0]) && PlainLine(message)
    ensures ReadValue(prefix + message) && '\n' !in prefix + message
  {
    hide IsWhitespace, ReadValue;
    Diagnostic(prefix + message);
  }

  lemma VersionPrefix()
    ensures PlainLine("Version Not Supported: ") && !IsWhitespace("Version Not Supported: "[0])
  {
  }

  lemma RequestPrefix()
    ensures PlainLine("Bad request: ") && !IsWhitespace("Bad request: "[0])
  {
  }

  lemma SignaturePrefix()
    ensures PlainLine("Unauthorized: Signature Error: ") && !IsWhitespace("Unauthorized: Signature Error: "[0])
  {
  }

  lemma AccessPrefix()
    ensures PlainLine("Forbidden: ") && !IsWhitespace("Forbidden: "[0])
  {
  }

  lemma ServerPrefix()
    ensures PlainLine("Internal Server Error: ") && !IsWhitespace("Internal Server Error: "[0])
  {
  }

  lemma OperationPrefix(message: string)
    requires NOT_IMPLEMENTED <= message
    ensures message != "" && !IsWhitespace(message[0])
  {
    assert message[0] == NOT_IMPLEMENTED[0] == 'N';
  }

  lemma DiagPrintable(error: PyzorError)
    requires OneLineError(error)
    ensures ReadValue(ErrorDiag(error)) && '\n' !in ErrorDiag(error)
  {
    hide ReadValue, IsWhitespace;
    match error {
      case UnsupportedVersion(message) =>
        VersionPrefix();
        Prefixed("Version Not Supported: ", message);
      case Protocol(message) =>
        RequestPrefix();
        Prefixed("Bad request: ", message);
      case IncompleteMessage(message) =>
        RequestPrefix();
        Prefixed("Bad request: ", message);
      case Signature(message) =>
        SignaturePrefix();
        Prefixed("Unauthorized: Signature Error: ", message);
      case Authorization(message) =>
        AccessPrefix();
        Prefixed("Forbidden: ", message);
      case Comm(message) =>
        if NOT_IMPLEMENTED <= message {
          OperationPrefix(message);
          Diagnostic(message);
        } else {
          ServerPrefix();
          Prefixed("Internal Server Error: ", message);
        }
    }
  }

  lemma {:induction false} SetPrintable(headers: seq<Header>, name: string, value: string)
    requires AllPrintable(headers) && Printable((name, value))
    ensures AllPrintable(SetIn(headers, name, value))
  {
    hide GoodName, ReadValue, Lower;
    if headers != [] {
      assert Printable(headers[0]);
      if !EqIgnoreAsciiCase(headers[0].0, name) {
        SetPrintable(headers[1..], name, value);
      }
    }
  }

  /** Setting keeps what is said of every value but the ones that are set. */
  lemma ErrorResponse(thread: Option<string>, error: PyzorError)
    requires (thread.Some? ==> ReadValue(thread.value)) && OneLineError(error)
    ensures
      var r := WithError(Response(thread), error);
      AllPrintable(r) && (OneLineValues(r) <==> thread.None? || '\n' !in thread.value)
  {
    hide GoodName, ReadValue, IntText, ErrorDiag, OneLineError, SetIn, Response, AllPrintable, OneLineValues;
    ResponseNamesGood();
    BasePrintable(thread);
    ReadInt(ErrorCode(error));
    DiagPrintable(error);
    var code, diag := IntText(ErrorCode(error)), ErrorDiag(error);
    SetPrintable(Response(thread), "Code", code);
    SetPrintable(SetIn(Response(thread), "Code", code), "Diag", diag);
    SetBoth(thread, code, diag);
    ErrorOneLine(thread, code, diag);
  }

  lemma ErrorOneLine(thread: Option<string>, code: string, diag: string)
    requires '\n' !in code && '\n' !in diag
    ensures
      var r := [("Code", code), ("Diag", diag), ("PV", PROTO_VERSION)]
               + if thread.Some? then [("Thread", thread.value)] else [];
      OneLineValues(r) <==> thread.None? || '\n' !in thread.value
  {
    PlainVersion();
    var r := [("Code", code), ("Diag", diag), ("PV", PROTO_VERSION)]
             + if thread.Some? then [("Thread", thread.value)] else [];
    assert r[0].1 == code && r[1].1 == diag && r[2].1 == PROTO_VERSION;
    assert thread.Some? ==> r[3].1 == thread.value;
  }

  lemma PlainVersion()
    ensures '\n' !in PROTO_VERSION && '\n' !in "200" && '\n' !in "OK"
  {
  }

  lemma SetBoth(thread: Option<string>, code: string, diag: string)
    ensures SetIn(SetIn(Response(thread), "Code", code), "Diag", diag)
         == [("Code", code), ("Diag", diag), ("PV", PROTO_VERSION)]
            + if thread.Some? then [("Thread", thread.value)] else []
  {
    hide Lower;
    ResponseNames();
    CodeAndDiag();
    var r, one := Response(thread), SetIn(Response(thread), "Code", code);
    assert one == [("Code", code)] + r[1..];
    assert one[1..][0] == ("Diag", "OK") && one[1..] == r[1..];
    assert SetIn(one[1..], "Diag", diag) == [("Diag", diag)] + one[1..][1..];
    assert SetIn(one, "Diag", diag) == [one[0]] + SetIn(one[1..], "Diag", diag);
  }

  lemma CodeAndDiag()
    ensures !EqIgnoreAsciiCase("Code", "Diag")
  {
    assert Lower("Diag")[0] == 'd' && Lower("Code")[0] == 'c';
  }

  lemma AnswerResponse(thread: Option<string>, op: string, digests: seq<string>, store: Store)
    requires thread.Some? ==> ReadValue(thread.value)
    ensures
      var r := Response(thread) + AnswerFor(op, digests, store);
      AllPrintable(r) && (OneLineValues(r) <==> thread.None? || '\n' !in thread.value)
  {
    hide AllPrintable, OneLineValues, AnswerFor, Response, ReadValue;
    BasePrintable(thread);
    AnswersPrintable(op, digests, store);
    BaseOneLine(thread);
    BothParts(Response(thread), AnswerFor(op, digests, store));
  }

  lemma BothParts(a: seq<Header>, b: seq<Header>)
    ensures AllPrintable(a + b) <==> AllPrintable(a) && AllPrintable(b)
    ensures OneLineValues(a + b) <==> OneLineValues(a) && OneLineValues(b)
  {
    hide Printable;
    var s := a + b;
    assert forall k | 0 <= k < |a| :: s[k] == a[k];
    assert forall k | 0 <= k < |b| :: s[k + |a|] == b[k];
  }

  lemma BaseOneLine(thread: Option<string>)
    ensures OneLineValues(Response(thread)) <==> thread.None? || '\n' !in thread.value
  {
    PlainVersion();
    var base := Response(thread);
    assert thread.Some? ==> base[3] == ("Thread", thread.value);
    assert base[0].1 == "200" && base[1].1 == "OK" && base[2].1 == PROTO_VERSION;
  }

  /** A client reads a response as the server built it exactly when the thread of the request, which the response
      echoes, was on one line: a continued one comes back as a line of its own. */
  lemma ResponseSurvivesWire(p: Packet, store: Store, lib: Library)
    ensures
      var response, thread := ResponseTo(p, store, lib), FindHeader(RequestOf(p), "Thread");
      ParseHeaders(Encode(Render(response))) == response <==> thread.None? || '\n' !in thread.value
  {
    hide FindHeader, ParseHeaders, Encode, Render, Clean, Admitted, AnswerFor, WithError, Response, AllPrintable,
         OneLineValues, ReadValue, DigestsOf, OneLineError;
    var thread := FindHeader(RequestOf(p), "Thread");
    RequestValues(Clean(p.bytes));
    FoundValue(RequestOf(p), "Thread");
    match AdmittedOf(p, lib) {
      case Err(error) =>
        AdmittedMessages(RequestOf(p), p.config, p.clock(0), lib);
        ErrorResponse(thread, error);
      case Ok(op) =>
        AnswerResponse(thread, op, DigestsOf(RequestOf(p)), store);
    }
    PrintedSurvives(ResponseTo(p, store, lib));
  }
}
