/** The request handler as a state machine over the stored records (src/server.rs). */
module Server {
  import opened Wrappers
  import opened Errors
  import opened Text
  import opened Utf8
  import opened Headers
  import opened Messages
  import opened Accounts
  import opened Records
  import opened Engines

  const PROTO_MAJOR: int := 2
  const NOT_AUTHORIZED: string := "User is not authorized " + "to request the operation."
  const NOT_IMPLEMENTED: string := "Not implemented:"
  const REQUESTED_OPERATION: string := " Requested operation is not implemented."

  datatype Config = Config(accounts: map<string, string>, acl: map<string, set<string>>)

  /** Library functions the handler depends on: lower case, and a version text read as a floating point
      number and truncated. */
  datatype Library = Library(lower: LowerCase, major: string -> Option<i64>)

  // ----- who may do what -----

  function UserOf(request: seq<Header>): string {
    FindHeader(request, "User").GetOr(ANONYMOUS_USER)
  }

  function Authenticated(request: seq<Header>, config: Config, now: i64, lib: Library): Result<(), PyzorError> {
    var user := UserOf(request);
    if user == ANONYMOUS_USER then Ok(())
    else if user !in config.accounts then Err(Signature("Unknown user."))
    else Verify(request, config.accounts[user], now, lib.lower)
  }

  function Versioned(request: seq<Header>, lib: Library): Result<(), PyzorError> {
    var pv := FindHeader(request, "PV");
    if pv.None? then Err(Protocol("Protocol Version not specified in request"))
    else
      var major := lib.major(pv.value);
      if major.None? then Err(Protocol("Invalid Protocol Version"))
      else if major.value != PROTO_MAJOR then Err(UnsupportedVersion(""))
      else Ok(())
  }

  function OpOf(request: seq<Header>): string {
    FindHeader(request, "Op").GetOr("")
  }

  predicate Allowed(config: Config, user: string, op: string) {
    user in config.acl && op in config.acl[user]
  }

  const OPERATIONS: set<string> := {"ping", "pong", "check", "info", "report", "whitelist"}

  /** The operation to perform, or the first error of the checks in their order. */
  function Admitted(request: seq<Header>, config: Config, now: i64, lib: Library): Result<string, PyzorError> {
    var authenticated := Authenticated(request, config, now, lib);
    if authenticated.Err? then Err(authenticated.error)
    else
      var versioned := Versioned(request, lib);
      if versioned.Err? then Err(versioned.error)
      else if !Allowed(config, UserOf(request), OpOf(request)) then
        Err(Authorization(NOT_AUTHORIZED))
      else if OpOf(request) !in OPERATIONS then
        Err(Comm(NOT_IMPLEMENTED + REQUESTED_OPERATION))
      else Ok(OpOf(request))
  }

  // ----- what an admitted operation does -----

  /** The clock during one packet: reading 0 checks the signature, reading 1 + i dates the i-th digest. */
  type Clock = nat -> i64

  function Readings(clock: Clock, n: nat): (times: seq<i64>)
    ensures |times| == n && forall i | 0 <= i < n :: times[i] == clock(i + 1)
  {
    seq(n, i requires 0 <= i < n => clock(i + 1))
  }

  function DigestsOf(request: seq<Header>): seq<string> {
    ValuesOf(request, "Op-Digest")
  }

  function UpdatesFor(op: string, digests: seq<string>, clock: Clock): seq<Update> {
    if op == "report" then UpdatesOf(Report, digests, Readings(clock, |digests|))
    else if op == "whitelist" then UpdatesOf(Whitelist, digests, Readings(clock, |digests|))
    else []
  }

  function Counts(r: Record): seq<Header> {
    [("Count", IntText(r.rCount)), ("WL-Count", IntText(r.wlCount))]
  }

  function Times(r: Record): seq<Header> {
    [("Entered", IntText(r.rEntered.GetOr(0))), ("Updated", IntText(r.rUpdated.GetOr(0))),
     ("WL-Entered", IntText(r.wlEntered.GetOr(0))), ("WL-Updated", IntText(r.wlUpdated.GetOr(0)))]
  }

  /** The headers an operation adds to the response, about the first digest of the request. */
  function AnswerFor(op: string, digests: seq<string>, store: Store): seq<Header> {
    if digests == [] then []
    else if op == "pong" then [("Count", IntText(CAP)), ("WL-Count", "0")]
    else if op == "check" then Counts(Lookup(store, digests[0]))
    else if op == "info" then Times(Lookup(store, digests[0])) + Counts(Lookup(store, digests[0]))
    else []
  }

  function ErrorCode(error: PyzorError): int {
    match error
    case UnsupportedVersion(_) => 505
    case Protocol(_) | IncompleteMessage(_) => 400
    case Signature(_) => 401
    case Authorization(_) => 403
    case Comm(message) => if NOT_IMPLEMENTED <= message then 501 else 500
  }

  function ErrorDiag(error: PyzorError): string {
    match error
    case UnsupportedVersion(message) => "Version Not Supported: " + message
    case Protocol(message) => "Bad request: " + message
    case IncompleteMessage(message) => "Bad request: " + message
    case Signature(message) => "Unauthorized: Signature Error: " + message
    case Authorization(message) => "Forbidden: " + message
    case Comm(message) => if NOT_IMPLEMENTED <= message then message else "Internal Server Error: " + message
  }

  function WithError(response: seq<Header>, error: PyzorError): seq<Header> {
    SetIn(SetIn(response, "Code", IntText(ErrorCode(error))), "Diag", ErrorDiag(error))
  }

  method ApplyError(response: Message, error: PyzorError)
    modifies response
    ensures response.headers == WithError(old(response.headers), error)
  {
    hide SetIn;
    response.SetHeader("Code", IntText(ErrorCode(error)));
    response.SetHeader("Diag", ErrorDiag(error));
  }

  const MAX_PACKET_SIZE: nat := 8192

  /** What the socket reads of a datagram: as much as the buffer holds. */
  function Received(sent: seq<byte>): seq<byte> {
    if |sent| <= MAX_PACKET_SIZE then sent else sent[..MAX_PACKET_SIZE]
  }

  datatype Packet = Packet(bytes: seq<byte>, config: Config, clock: Clock)

  function RequestOf(p: Packet): seq<Header> {
    ParseHeaders(Clean(p.bytes))
  }

  function AdmittedOf(p: Packet, lib: Library): Result<string, PyzorError> {
    Admitted(RequestOf(p), p.config, p.clock(0), lib)
  }

  /** The updates a packet makes: none when it is refused. */
  function PacketUpdates(p: Packet, lib: Library): seq<Update> {
    var op := AdmittedOf(p, lib);
    if op.Err? then [] else UpdatesFor(op.value, DigestsOf(RequestOf(p)), p.clock)
  }

  function ResponseTo(p: Packet, store: Store, lib: Library): seq<Header> {
    var request := RequestOf(p);
    var response := Response(FindHeader(request, "Thread"));
    match AdmittedOf(p, lib)
    case Err(error) => WithError(response, error)
    case Ok(op) => response + AnswerFor(op, DigestsOf(request), store)
  }

  method ReallyHandle(request: Message, response: Message, db: FileDatabase, config: Config, clock: Clock, lib: Library)
    returns (r: Result<(), PyzorError>)
    requires request != response
    modifies response, db
    ensures
      var op := Admitted(request.headers, config, clock(0), lib);
      && request.headers == old(request.headers)
      && r == (if op.Ok? then Ok(()) else Err(op.error))
      && db.records == Run(old(db.records),
                           if op.Ok? then UpdatesFor(op.value, DigestsOf(request.headers), clock) else [])
      && response.headers == old(response.headers)
                             + if op.Ok? then AnswerFor(op.value, DigestsOf(request.headers), old(db.records)) else []
  {
    hide FindHeader, ValuesOf, Verify, Run, IntText;
    RunNothing(db.records);
    var user := UserOf(request.headers);
    if user != ANONYMOUS_USER {
      if user !in config.accounts {
        return Err(Signature("Unknown user."));
      }
      var verified := VerifySignature(request, config.accounts[user], clock(0), lib.lower);
      if verified.Err? {
        return Err(verified.error);
      }
    }
    var pv := FindHeader(request.headers, "PV");
    if pv.None? {
      return Err(Protocol("Protocol Version not specified in request"));
    }
    var major := lib.major(pv.value);
    if major.None? {
      return Err(Protocol("Invalid Protocol Version"));
    }
    if major.value != PROTO_MAJOR {
      return Err(UnsupportedVersion(""));
    }
    var opcode := OpOf(request.headers);
    if !Allowed(config, user, opcode) {
      return Err(Authorization(NOT_AUTHORIZED));
    }
    assert Authenticated(request.headers, config, clock(0), lib).Ok? && Versioned(request.headers, lib).Ok?;
    r := Dispatch(opcode, DigestsOf(request.headers), response, db, clock);
  }

  lemma RunNothing(store: Store)
    ensures Run(store, []) == store
  {
  }

  lemma NoDigests(op: string, digests: seq<string>, clock: Clock)
    requires digests == []
    ensures UpdatesFor(op, digests, clock) == []
  {
  }

  method AddCounts(response: Message, record: Record)
    modifies response
    ensures response.headers == old(response.headers) + Counts(record)
  {
    response.AddHeader("Count", IntText(record.rCount));
    response.AddHeader("WL-Count", IntText(record.wlCount));
  }

  method AddTimes(response: Message, record: Record)
    modifies response
    ensures response.headers == old(response.headers) + Times(record)
  {
    response.AddHeader("Entered", IntText(record.rEntered.GetOr(0)));
    response.AddHeader("Updated", IntText(record.rUpdated.GetOr(0)));
    response.AddHeader("WL-Entered", IntText(record.wlEntered.GetOr(0)));
    response.AddHeader("WL-Updated", IntText(record.wlUpdated.GetOr(0)));
  }

  method Dispatch(opcode: string, digests: seq<string>, response: Message, db: FileDatabase, clock: Clock)
    returns (r: Result<(), PyzorError>)
    modifies response, db
    ensures r == if opcode in OPERATIONS then Ok(())
                 else Err(Comm(NOT_IMPLEMENTED + REQUESTED_OPERATION))
    ensures db.records == Run(old(db.records), UpdatesFor(opcode, digests, clock))
    ensures response.headers == old(response.headers) + AnswerFor(opcode, digests, old(db.records))
  {
    hide Run, IntText, Lookup, UpdatesOf, Readings, Counts, Times;
    RunNothing(db.records);
    r := Ok(());
    match opcode
    case "ping" =>
    case "pong" =>
      if digests != [] {
        response.AddHeader("Count", IntText(CAP));
        response.AddHeader("WL-Count", "0");
      }
    case "check" =>
      if digests != [] {
        AddCounts(response, db.Get(digests[0]));
      }
    case "info" =>
      if digests != [] {
        var record := db.Get(digests[0]);
        AddTimes(response, record);
        AddCounts(response, record);
      }
    case "report" =>
      if digests != [] {
        db.UpdateAll(Report, digests, Readings(clock, |digests|));
      } else {
        NoDigests(opcode, digests, clock);
      }
    case "whitelist" =>
      if digests != [] {
        db.UpdateAll(Whitelist, digests, Readings(clock, |digests|));
      } else {
        NoDigests(opcode, digests, clock);
      }
    case _ =>
      r := Err(Comm(NOT_IMPLEMENTED + REQUESTED_OPERATION));
  }

  method HandlePacket(p: Packet, db: FileDatabase, lib: Library) returns (response: Message)
    modifies db
    ensures db.records == Run(old(db.records), PacketUpdates(p, lib))
    ensures response.headers == ResponseTo(p, old(db.records), lib)
  {
    hide ParseHeaders, Clean, FindHeader, ValuesOf, Admitted, UpdatesFor, AnswerFor, Run, WithError;
    var cleaned := CleanLegacyPacket(p.bytes);
    var request := new Message.Parse(cleaned);
    response := new Message();
    response.headers := Response(FindHeader(request.headers, "Thread"));
    var r := ReallyHandle(request, response, db, p.config, p.clock, lib);
    assert Response(FindHeader(request.headers, "Thread")) + [] == Response(FindHeader(request.headers, "Thread"));
    if r.Err? {
      ApplyError(response, r.error);
    }
  }

  // ----- runs -----

  /** The store after the server handled some packets one after the other. */
  function Served(packets: seq<Packet>, lib: Library): Store {
    if packets == [] then map[]
    else Run(Served(packets[..|packets| - 1], lib), PacketUpdates(packets[|packets| - 1], lib))
  }

  function AllUpdates(packets: seq<Packet>, lib: Library): seq<Update> {
    if packets == [] then []
    else AllUpdates(packets[..|packets| - 1], lib) + PacketUpdates(packets[|packets| - 1], lib)
  }

  lemma {:induction false} ServedIsRun(packets: seq<Packet>, lib: Library)
    ensures Served(packets, lib) == Run(map[], AllUpdates(packets, lib))
  {
    hide PacketUpdates, Run;
    if packets == [] {
      RunNothing(map[]);
    } else {
      var k := |packets| - 1;
      ServedIsRun(packets[..k], lib);
      RunAppend(map[], AllUpdates(packets[..k], lib), PacketUpdates(packets[k], lib));
    }
  }

  function OpName(kind: Kind): string {
    if kind.Report? then "report" else "whitelist"
  }

  /** How often accepted packets of one kind name a digest, repetitions within a packet included. */
  function Occurrences(packets: seq<Packet>, kind: Kind, digest: string, lib: Library): nat {
    if packets == [] then 0
    else
      var p := packets[|packets| - 1];
      Occurrences(packets[..|packets| - 1], kind, digest, lib)
      + if AdmittedOf(p, lib) == Ok(OpName(kind)) then multiset(DigestsOf(RequestOf(p)))[digest] else 0
  }

  lemma {:induction false} TimesAppend(a: seq<Update>, b: seq<Update>, kind: Kind, digest: string)
    ensures TimesOf(a + b, kind, digest) == TimesOf(a, kind, digest) + TimesOf(b, kind, digest)
  {
    if b == [] {
      assert a + b == a;
    } else {
      var k := |b| - 1;
      assert (a + b)[..|a| + k] == a + b[..k];
      TimesAppend(a, b[..k], kind, digest);
    }
  }

  lemma {:induction false} TimesOfBatch(kind: Kind, digests: seq<string>, times: seq<i64>, other: Kind, digest: string)
    requires |times| == |digests|
    ensures |TimesOf(UpdatesOf(kind, digests, times), other, digest)|
         == if other == kind then multiset(digests)[digest] else 0
  {
    hide UpdatesOf;
    if digests != [] {
      var k := |digests| - 1;
      TimesOfBatch(kind, digests[..k], times[..k], other, digest);
      UpdatesLast(kind, digests, times);
      MultisetLast(digests, digest);
    }
  }

  lemma UpdatesLast(kind: Kind, digests: seq<string>, times: seq<i64>)
    requires |times| == |digests| > 0
    ensures
      var us, k := UpdatesOf(kind, digests, times), |digests| - 1;
      us[..k] == UpdatesOf(kind, digests[..k], times[..k]) && us[k] == Update(kind, digests[k], times[k])
  {
  }

  lemma MultisetLast(digests: seq<string>, digest: string)
    requires digests != []
    ensures
      var k := |digests| - 1;
      multiset(digests)[digest] == multiset(digests[..k])[digest] + if digests[k] == digest then 1 else 0
  {
    var k := |digests| - 1;
    assert digests == digests[..k] + [digests[k]];
  }

  lemma {:induction false} OccurrencesCounted(packets: seq<Packet>, kind: Kind, digest: string, lib: Library)
    ensures |TimesOf(AllUpdates(packets, lib), kind, digest)| == Occurrences(packets, kind, digest, lib)
  {
    hide AdmittedOf, RequestOf, UpdatesOf, TimesOf;
    if packets == [] {
      assert TimesOf([], kind, digest) == [] by {
        NoTimes(kind, digest);
      }
    } else {
      var k := |packets| - 1;
      var p := packets[k];
      OccurrencesCounted(packets[..k], kind, digest, lib);
      TimesAppend(AllUpdates(packets[..k], lib), PacketUpdates(p, lib), kind, digest);
      var digests := DigestsOf(RequestOf(p));
      TimesOfBatch(Report, digests, Readings(p.clock, |digests|), kind, digest);
      TimesOfBatch(Whitelist, digests, Readings(p.clock, |digests|), kind, digest);
      NoTimes(kind, digest);
    }
  }

  lemma NoTimes(kind: Kind, digest: string)
    ensures TimesOf([], kind, digest) == []
  {
  }

  /** After any run from an empty store, each digest's count is the capped number of its occurrences in accepted
      requests of that kind; it entered with the first of them and was updated with the last. */
  lemma ServedCounts(packets: seq<Packet>, kind: Kind, digest: string, lib: Library)
    ensures
      var r, n := Lookup(Served(packets, lib), digest), Occurrences(packets, kind, digest, lib);
      var times := TimesOf(AllUpdates(packets, lib), kind, digest);
      && CountOf(r, kind) == (if n <= CAP then n else CAP)
      && |times| == n
      && EnteredOf(r, kind) == (if n == 0 then None else Some(times[0]))
      && UpdatedOf(r, kind) == (if n == 0 then None else Some(times[n - 1]))
  {
    hide Served, AllUpdates, Occurrences, TimesOf, Run;
    ServedIsRun(packets, lib);
    RunSummary(AllUpdates(packets, lib), kind, digest);
    OccurrencesCounted(packets, kind, digest, lib);
  }

  /** Along a run no count falls and no time of entry changes once it is set. */
  lemma {:induction false} RunGrows(store: Store, updates: seq<Update>, kind: Kind, digest: string)
    ensures
      var before, after := Lookup(store, digest), Lookup(Run(store, updates), digest);
      && CountOf(before, kind) <= CountOf(after, kind)
      && (EnteredOf(before, kind).Some? ==> EnteredOf(after, kind) == EnteredOf(before, kind))
  {
    if updates != [] {
      RunGrows(store, updates[..|updates| - 1], kind, digest);
    }
  }

  predicate Monotone(times: seq<i64>) {
    forall i, j | 0 <= i <= j < |times| :: times[i] <= times[j]
  }

  function TimesOfAll(updates: seq<Update>): (times: seq<i64>)
    ensures |times| == |updates| && forall i | 0 <= i < |updates| :: times[i] == updates[i].now
  {
    seq(|updates|, i requires 0 <= i < |updates| => updates[i].now)
  }

  lemma {:induction false} MonotoneTimes(updates: seq<Update>, kind: Kind, digest: string)
    requires Monotone(TimesOfAll(updates))
    ensures
      var times := TimesOf(updates, kind, digest);
      && Monotone(times)
      && (times != [] ==> updates != [] && times[|times| - 1] <= updates[|updates| - 1].now)
  {
    hide Monotone;
    if updates != [] {
      var k := |updates| - 1;
      var all := TimesOfAll(updates);
      assert TimesOfAll(updates[..k]) == all[..k];
      MonotonePrefix(all, k);
      MonotoneTimes(updates[..k], kind, digest);
      MonotoneSnoc(TimesOf(updates[..k], kind, digest), updates[k].now);
      assert TimesOf(updates[..k], kind, digest) + [] == TimesOf(updates[..k], kind, digest);
    } else {
      assert Monotone([]) by {
        NoTimesMonotone();
      }
    }
  }

  lemma NoTimesMonotone()
    ensures Monotone([])
  {
  }

  lemma MonotonePrefix(times: seq<i64>, k: nat)
    requires Monotone(times) && k < |times|
    ensures Monotone(times[..k]) && (k > 0 ==> times[k - 1] <= times[k])
  {
  }

  lemma MonotoneSnoc(times: seq<i64>, t: i64)
    requires Monotone(times) && (times != [] ==> times[|times| - 1] <= t)
    ensures Monotone(times + [t])
  {
  }

  /** With a clock that never runs backwards, no record was updated before it entered. */
  lemma EnteredBeforeUpdated(packets: seq<Packet>, kind: Kind, digest: string, lib: Library)
    requires Monotone(TimesOfAll(AllUpdates(packets, lib)))
    ensures
      var r := Lookup(Served(packets, lib), digest);
      EnteredOf(r, kind).Some? ==> UpdatedOf(r, kind).Some? && EnteredOf(r, kind).value <= UpdatedOf(r, kind).value
  {
    hide Served, AllUpdates, Occurrences, TimesOf;
    ServedCounts(packets, kind, digest, lib);
    MonotoneTimes(AllUpdates(packets, lib), kind, digest);
  }

  /** A refused packet, and an accepted ping, pong, check or info, leaves the store as it is. */
  lemma ReadOnlyPackets(p: Packet, store: Store, lib: Library)
    ensures AdmittedOf(p, lib) != Ok("report") && AdmittedOf(p, lib) != Ok("whitelist") ==>
              Run(store, PacketUpdates(p, lib)) == store
  {
    hide AdmittedOf, DigestsOf, RequestOf;
  }

  /** The response says 200 exactly when the request was admitted, and otherwise names the first failed check;
      it always carries the thread of the request. */
  lemma ResponseCode(p: Packet, store: Store, lib: Library)
    ensures
      var response, admitted := ResponseTo(p, store, lib), AdmittedOf(p, lib);
      && FindHeader(response, "Code") == Some(if admitted.Ok? then "200" else IntText(ErrorCode(admitted.error)))
      && FindHeader(response, "Thread") == FindHeader(RequestOf(p), "Thread")
      && (FindHeader(response, "Code") == Some("200") <==> admitted.Ok?)
  {
    hide AdmittedOf, RequestOf, DigestsOf, Lower, FindHeader, IntText, SetIn, AnswerFor, ErrorDiag;
    var thread := FindHeader(RequestOf(p), "Thread");
    ResponseNames();
    BaseResponse(thread);
    match AdmittedOf(p, lib) {
      case Ok(op) =>
        AnswerNames(op, DigestsOf(RequestOf(p)), store);
        FindAppend(Response(thread), AnswerFor(op, DigestsOf(RequestOf(p)), store), "Code");
        FindAppend(Response(thread), AnswerFor(op, DigestsOf(RequestOf(p)), store), "Thread");
      case Err(error) =>
        var code := IntText(ErrorCode(error));
        GetAfterSet(Response(thread), "Code", code, "Code");
        GetAfterSet(Response(thread), "Code", code, "Thread");
        var coded := SetIn(Response(thread), "Code", code);
        GetAfterSet(coded, "Diag", ErrorDiag(error), "Code");
        GetAfterSet(coded, "Diag", ErrorDiag(error), "Thread");
        CodeTexts(error);
    }
  }

  /** The text that goes with the code. */
  lemma ResponseDiag(p: Packet, store: Store, lib: Library)
    ensures FindHeader(ResponseTo(p, store, lib), "PV") == Some("2.1")
    ensures FindHeader(ResponseTo(p, store, lib), "Diag") == Some(
              match AdmittedOf(p, lib)
              case Ok(_) => "OK"
              case Err(UnsupportedVersion(message)) => "Version Not Supported: " + message
              case Err(Protocol(message)) => "Bad request: " + message
              case Err(IncompleteMessage(message)) => "Bad request: " + message
              case Err(Signature(message)) => "Unauthorized: Signature Error: " + message
              case Err(Authorization(message)) => "Forbidden: " + message
              case Err(Comm(message)) =>
                if "Not implemented:" <= message then message else "Internal Server Error: " + message)
  {
    hide AdmittedOf, RequestOf, DigestsOf, Lower, FindHeader, IntText, SetIn, AnswerFor;
    var thread := FindHeader(RequestOf(p), "Thread");
    ResponseNames();
    VersionName();
    BaseDiag(thread);
    match AdmittedOf(p, lib) {
      case Ok(op) =>
        FindAppend(Response(thread), AnswerFor(op, DigestsOf(RequestOf(p)), store), "Diag");
        FindAppend(Response(thread), AnswerFor(op, DigestsOf(RequestOf(p)), store), "PV");
      case Err(error) =>
        var code := IntText(ErrorCode(error));
        GetAfterSet(Response(thread), "Code", code, "PV");
        GetAfterSet(SetIn(Response(thread), "Code", code), "Diag", ErrorDiag(error), "Diag");
        GetAfterSet(SetIn(Response(thread), "Code", code), "Diag", ErrorDiag(error), "PV");
    }
  }

  lemma VersionName()
    ensures !EqIgnoreAsciiCase("Code", "PV") && !EqIgnoreAsciiCase("Diag", "PV")
    ensures !EqIgnoreAsciiCase("Code", "Diag")
  {
    assert Lower("Diag")[0] == 'd' && Lower("Code")[0] == 'c';
  }

  lemma BaseDiag(thread: Option<string>)
    ensures FindHeader(Response(thread), "Diag") == Some("OK") && FindHeader(Response(thread), "PV") == Some("2.1")
  {
    hide Lower;
    VersionName();
    var r := Response(thread);
    assert r[1..][0] == r[1] && r[1..][1..] == r[2..] && r[2..][0] == r[2];
    assert FindHeader(r, "PV") == FindHeader(r[1..], "PV") == FindHeader(r[2..], "PV");
  }

  lemma CodeTexts(error: PyzorError)
    ensures IntText(ErrorCode(error)) != "200"
  {
    hide IntText, NatText;
    var code: i64 := ErrorCode(error);
    ParseIntText(code);
    ParseIntText(200);
    assert IntText(200) == "200" by {
      TwoHundred();
    }
  }

  lemma TwoHundred()
    ensures IntText(200) == "200"
  {
    assert NatText(2) == "2" && NatText(20) == NatText(2) + "0" && NatText(200) == NatText(20) + "0";
  }

  lemma ResponseNames()
    ensures !EqIgnoreAsciiCase("Code", "Thread") && !EqIgnoreAsciiCase("Diag", "Thread")
    ensures !EqIgnoreAsciiCase("PV", "Thread") && !EqIgnoreAsciiCase("Diag", "Code") && !EqIgnoreAsciiCase("PV", "Code")
  {
    assert Lower("Diag")[0] == 'd' && Lower("Code")[0] == 'c';
  }

  lemma BaseResponse(thread: Option<string>)
    ensures FindHeader(Response(thread), "Code") == Some("200") && FindHeader(Response(thread), "Thread") == thread
  {
    hide Lower;
    ResponseNames();
    var r := Response(thread);
    var tail := if thread.Some? then [("Thread", thread.value)] else [];
    assert r[1..][0] == r[1] && r[1..][1..] == r[2..] && r[2..][0] == r[2] && r[2..][1..] == tail;
    assert FindHeader(r, "Thread") == FindHeader(r[1..], "Thread");
    assert FindHeader(r[1..], "Thread") == FindHeader(r[2..], "Thread");
    assert FindHeader(r[2..], "Thread") == FindHeader(tail, "Thread") == thread;
  }

  lemma {:induction false} FindAppend(a: seq<Header>, b: seq<Header>, name: string)
    ensures FindHeader(a + b, name) == if Contains(a, name) then FindHeader(a, name) else FindHeader(b, name)
  {
    hide Lower;
    if a == [] {
      assert a + b == b;
    } else {
      assert (a + b)[1..] == a[1..] + b;
      FindAppend(a[1..], b, name);
    }
  }

  lemma {:induction false} NoneFound(headers: seq<Header>, name: string)
    requires forall k | 0 <= k < |headers| :: !EqIgnoreAsciiCase(headers[k].0, name)
    ensures FindHeader(headers, name) == None
  {
    hide Lower;
    if headers != [] {
      NoneFound(headers[1..], name);
    }
  }

  lemma AnswerNames(op: string, digests: seq<string>, store: Store)
    ensures FindHeader(AnswerFor(op, digests, store), "Thread") == None
  {
    hide Lower, Lookup, IntText;
    AnswerHeaderNames();
    NoneFound(AnswerFor(op, digests, store), "Thread");
  }

  lemma AnswerHeaderNames()
    ensures forall name | name in {"Count", "WL-Count", "Entered", "Updated", "WL-Entered", "WL-Updated"} ::
              !EqIgnoreAsciiCase(name, "Thread")
  {
    assert |"Thread"| == 6;
  }

  /** Which check refuses a request, told by the code alone. */
  lemma RefusalCodes(request: seq<Header>, config: Config, now: i64, lib: Library)
    ensures
      var user, pv, admitted := UserOf(request), FindHeader(request, "PV"), Admitted(request, config, now, lib);
      var trusted := user == ANONYMOUS_USER
                     || (user in config.accounts && Verify(request, config.accounts[user], now, lib.lower).Ok?);
      var readable := pv.Some? && lib.major(pv.value).Some?;
      var code := if admitted.Ok? then 200 else ErrorCode(admitted.error);
      && (code == 401 <==> !trusted)
      && (code == 400 <==> trusted && !readable)
      && (code == 505 <==> trusted && readable && lib.major(pv.value).value != 2)
      && (code == 403 <==> trusted && readable && lib.major(pv.value).value == 2 && !Allowed(config, user, OpOf(request)))
      && (code == 501 <==> trusted && readable && lib.major(pv.value).value == 2 && Allowed(config, user, OpOf(request))
                           && OpOf(request) !in {"ping", "pong", "check", "info", "report", "whitelist"})
      && (code == 200 <==> trusted && readable && lib.major(pv.value).value == 2 && Allowed(config, user, OpOf(request))
                           && OpOf(request) in {"ping", "pong", "check", "info", "report", "whitelist"})
  {
    hide FindHeader, Verify, Allowed, OpOf, UserOf;
    UnknownOperation();
    VerifyErrors(request, if UserOf(request) in config.accounts then config.accounts[UserOf(request)] else "", now, lib);
  }

  /** What each refusal says, as the first check that fails. */
  lemma RefusalErrors(request: seq<Header>, config: Config, now: i64, lib: Library)
    ensures
      var user, pv, r := FindHeader(request, "User"), FindHeader(request, "PV"), Admitted(request, config, now, lib);
      && UserOf(request) == (if user.Some? then user.value else "anonymous")
      && (UserOf(request) != "anonymous" && UserOf(request) !in config.accounts ==> r == Err(Signature("Unknown user.")))
      && (UserOf(request) != "anonymous" && UserOf(request) in config.accounts ==>
            var verified := Verify(request, config.accounts[UserOf(request)], now, lib.lower);
            verified.Err? ==> r == Err(verified.error))
      && (Authenticated(request, config, now, lib).Ok? ==>
            && (pv.None? ==> r == Err(Protocol("Protocol Version not specified in request")))
            && (pv.Some? && lib.major(pv.value).None? ==> r == Err(Protocol("Invalid Protocol Version")))
            && (pv.Some? && lib.major(pv.value).Some? ==>
                  && (lib.major(pv.value).value != 2 ==> r == Err(UnsupportedVersion("")))
                  && (lib.major(pv.value).value == 2 && !Allowed(config, UserOf(request), OpOf(request)) ==>
                        r == Err(Authorization("User is not authorized " + "to request the operation.")))
                  && (lib.major(pv.value).value == 2 && Allowed(config, UserOf(request), OpOf(request)) &&
                      OpOf(request) !in {"ping", "pong", "check", "info", "report", "whitelist"} ==>
                        r == Err(Comm("Not implemented:" + " Requested operation is not implemented.")))))
  {
    hide FindHeader, Verify, Allowed, OpOf;
  }

  lemma UnknownOperation()
    ensures NOT_IMPLEMENTED <= NOT_IMPLEMENTED + REQUESTED_OPERATION
  {
  }

  lemma VerifyErrors(request: seq<Header>, key: string, now: i64, lib: Library)
    ensures
      var verified := Verify(request, key, now, lib.lower);
      verified.Err? ==> verified.error.Signature?
  {
    hide FindHeader, SignText, HashKey, RemoveIn, TimeGap;
  }

  /** The request of a packet is what was printed into it, with its line ends doubled or not. */
  lemma RequestRead(headers: seq<Header>, config: Config, clock: Clock)
    requires AllWellFormed(headers)
    ensures RequestOf(Packet(Encode(Render(headers)), config, clock)) == headers
    ensures RequestOf(Packet(Doubled(Encode(Render(headers))), config, clock)) == headers
  {
    hide ParseHeaders, Clean, Encode, Render, Doubled, AllWellFormed;
    WireRoundTrip(headers);
    DoubledIsRead(headers);
  }

  // ----- what a client is told -----

  function CountHeader(kind: Kind): string {
    if kind.Report? then "Count" else "WL-Count"
  }

  function EnteredHeader(kind: Kind): string {
    if kind.Report? then "Entered" else "WL-Entered"
  }

  function UpdatedHeader(kind: Kind): string {
    if kind.Report? then "Updated" else "WL-Updated"
  }

  const ANSWER_NAMES: set<string> := {"Count", "WL-Count", "Entered", "Updated", "WL-Entered", "WL-Updated"}

  lemma BaseHasNoAnswers(thread: Option<string>, name: string)
    requires name in ANSWER_NAMES
    ensures FindHeader(Response(thread), name) == None
  {
    hide Lower;
    NoneFound(Response(thread), name);
  }

  lemma AnswerNamesDiffer()
    ensures !EqIgnoreAsciiCase("Entered", "Updated") && !EqIgnoreAsciiCase("WL-Entered", "WL-Updated")
  {
    hide Lower;
    LowerAt("Entered", 0);
    LowerAt("Updated", 0);
    LowerAt("WL-Entered", 3);
    LowerAt("WL-Updated", 3);
  }

  lemma {:induction false} LowerAt(s: string, k: nat)
    requires k < |s|
    ensures Lower(s)[k] == LowerChar(s[k])
  {
    if k > 0 {
      LowerAt(s[1..], k - 1);
    }
  }

  lemma CountsFound(r: Record, kind: Kind)
    ensures FindHeader(Counts(r), CountHeader(kind)) == Some(IntText(CountOf(r, kind)))
  {
    hide Lower, IntText;
    var c := Counts(r);
    assert c[1..] == [c[1]];
    assert |"Count"| == 5 && |"WL-Count"| == 8;
  }

  lemma TimesFound(r: Record, kind: Kind)
    ensures FindHeader(Times(r), EnteredHeader(kind)) == Some(IntText(EnteredOf(r, kind).GetOr(0)))
    ensures FindHeader(Times(r), UpdatedHeader(kind)) == Some(IntText(UpdatedOf(r, kind).GetOr(0)))
    ensures FindHeader(Times(r), CountHeader(kind)) == None
  {
    hide Lower, IntText;
    AnswerNamesDiffer();
    var t := Times(r);
    assert t[1..][0] == t[1] && t[1..][1..] == t[2..] && t[2..][0] == t[2] && t[2..][1..] == t[3..] && t[3..] == [t[3]];
    FindFrom(t, EnteredHeader(kind), if kind.Report? then 0 else 2);
    FindFrom(t, UpdatedHeader(kind), if kind.Report? then 1 else 3);
    NoneFound(t, CountHeader(kind));
  }

  lemma {:induction false} FindFrom(headers: seq<Header>, name: string, k: nat)
    requires k < |headers| && EqIgnoreAsciiCase(headers[k].0, name)
    requires forall j | 0 <= j < k :: !EqIgnoreAsciiCase(headers[j].0, name)
    ensures FindHeader(headers, name) == Some(headers[k].1)
  {
    hide Lower;
    if k > 0 {
      FindFrom(headers[1..], name, k - 1);
    }
  }

  /** A check reports, as decimal text, the capped number of accepted reports and whitelistings before it. */
  lemma CheckAnswers(packets: seq<Packet>, p: Packet, kind: Kind, lib: Library)
    ensures AdmittedOf(p, lib) == Ok("check") && DigestsOf(RequestOf(p)) != [] ==>
      var n := Occurrences(packets, kind, DigestsOf(RequestOf(p))[0], lib);
      FindHeader(ResponseTo(p, Served(packets, lib), lib), CountHeader(kind)) == Some(IntText(if n <= CAP then n else CAP))
  {
    hide AdmittedOf, RequestOf, DigestsOf, Lower, FindHeader, IntText, Occurrences, Served, Counts, Times, Lookup, Response,
         AllUpdates, TimesOf;
    if AdmittedOf(p, lib) != Ok("check") || DigestsOf(RequestOf(p)) == [] {
      return;
    }
    var digest := DigestsOf(RequestOf(p))[0];
    var r := Lookup(Served(packets, lib), digest);
    var thread := FindHeader(RequestOf(p), "Thread");
    ServedCounts(packets, kind, digest, lib);
    BaseHasNoAnswers(thread, CountHeader(kind));
    CountsFound(r, kind);
    FindAppend(Response(thread), Counts(r), CountHeader(kind));
  }

  /** A pong claims the largest count for its digest, and no whitelisting. */
  lemma PongAnswers(p: Packet, store: Store, lib: Library)
    ensures AdmittedOf(p, lib) == Ok("pong") && DigestsOf(RequestOf(p)) != [] ==>
      var response := ResponseTo(p, store, lib);
      && FindHeader(response, CountHeader(Report)) == Some(IntText(CAP))
      && FindHeader(response, CountHeader(Whitelist)) == Some(IntText(0))
  {
    hide AdmittedOf, RequestOf, DigestsOf, Lower, FindHeader, IntText, Counts, Response;
    var thread := FindHeader(RequestOf(p), "Thread");
    var r := DEFAULT.(rCount := CAP);
    ZeroText();
    BaseHasNoAnswers(thread, CountHeader(Report));
    BaseHasNoAnswers(thread, CountHeader(Whitelist));
    CountsFound(r, Report);
    CountsFound(r, Whitelist);
    CountsOf(r);
    FindAppend(Response(thread), Counts(r), CountHeader(Report));
    FindAppend(Response(thread), Counts(r), CountHeader(Whitelist));
  }

  lemma ZeroText()
    ensures IntText(0) == "0"
  {
  }

  lemma CountsOf(r: Record)
    ensures Counts(r) == [("Count", IntText(r.rCount)), ("WL-Count", IntText(r.wlCount))]
  {
  }

  /** A ping adds nothing to the response, whatever digests it carries. */
  lemma PingAnswers(p: Packet, store: Store, lib: Library)
    ensures AdmittedOf(p, lib) == Ok("ping") ==>
      ResponseTo(p, store, lib) == Response(FindHeader(RequestOf(p), "Thread"))
  {
    hide AdmittedOf, RequestOf, DigestsOf, FindHeader, Response;
    var response := Response(FindHeader(RequestOf(p), "Thread"));
    assert response + [] == response;
  }

  /** An info request is told the same counts, and the times of the first and the last of them. */
  lemma InfoAnswers(packets: seq<Packet>, p: Packet, kind: Kind, lib: Library)
    ensures AdmittedOf(p, lib) == Ok("info") && DigestsOf(RequestOf(p)) != [] ==>
      var digest := DigestsOf(RequestOf(p))[0];
      var n, times := Occurrences(packets, kind, digest, lib), TimesOf(AllUpdates(packets, lib), kind, digest);
      var response := ResponseTo(p, Served(packets, lib), lib);
      && |times| == n
      && FindHeader(response, CountHeader(kind)) == Some(IntText(if n <= CAP then n else CAP))
      && FindHeader(response, EnteredHeader(kind)) == Some(IntText(if n == 0 then 0 else times[0]))
      && FindHeader(response, UpdatedHeader(kind)) == Some(IntText(if n == 0 then 0 else times[n - 1]))
  {
    hide AdmittedOf, RequestOf, DigestsOf, Lower, FindHeader, IntText, Occurrences, Served, Counts, Times, Lookup, Response,
         AllUpdates, TimesOf;
    if AdmittedOf(p, lib) != Ok("info") || DigestsOf(RequestOf(p)) == [] {
      return;
    }
    var digest := DigestsOf(RequestOf(p))[0];
    var r := Lookup(Served(packets, lib), digest);
    var thread := FindHeader(RequestOf(p), "Thread");
    ServedCounts(packets, kind, digest, lib);
    CountsFound(r, kind);
    TimesFound(r, kind);
    forall name | name in {CountHeader(kind), EnteredHeader(kind), UpdatedHeader(kind)}
      ensures FindHeader(Response(thread) + (Times(r) + Counts(r)), name)
           == if Contains(Times(r), name) then FindHeader(Times(r), name) else FindHeader(Counts(r), name)
    {
      BaseHasNoAnswers(thread, name);
      FindAppend(Response(thread), Times(r) + Counts(r), name);
      FindAppend(Times(r), Counts(r), name);
    }
  }
}
