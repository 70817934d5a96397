/** The client's side: signed requests, and batches of digests (src/client.rs). */
module Clients {
  import opened Wrappers
  import opened Text
  import opened Utf8
  import opened Headers
  import opened Messages
  import opened Accounts
  import opened Engines
  import opened Server
  import Access

  // ----- one request -----

  function SignedRequest(headers: seq<Header>, thread: string, account: Account, timestamp: i64, lower: LowerCase)
    : seq<Header>
  {
    Signed(Initialised(headers, thread), account, timestamp, lower)
  }

  /** The thread is drawn and the clock read by the caller. */
  method Sign(msg: Message, thread: string, account: Account, timestamp: i64, lower: LowerCase)
    modifies msg
    ensures msg.headers == SignedRequest(old(msg.headers), thread, account, timestamp, lower)
  {
    hide Initialised, Signed;
    msg.InitForSending(thread);
    SignForAccount(msg, account, timestamp, lower);
  }

  lemma SentNames()
    ensures forall name | name in {"Thread", "PV", "User", "Time", "Sig"} ::
              && !EqIgnoreAsciiCase(name, "Op") && !EqIgnoreAsciiCase(name, "Op-Digest") && GoodName(name)
    ensures forall name | name in {"Thread", "PV"} :: !EqIgnoreAsciiCase(name, "Sig")
    ensures forall name | name in {"User", "Time", "Sig"} :: !EqIgnoreAsciiCase(name, "PV")
  {
    hide GoodName, GoodValue, Lower;
    SignNames();
    NoSpaceText("Thread");
    NoSpaceText("PV");
    LowerFirst("PV", "Op");
  }

  /** Names that start with different letters, in any case, are different. */
  lemma LowerFirst(a: string, b: string)
    requires a != "" && b != "" && LowerChar(a[0]) != LowerChar(b[0])
    ensures !EqIgnoreAsciiCase(a, b)
  {
    assert Lower(a)[0] == LowerChar(a[0]) && Lower(b)[0] == LowerChar(b[0]);
  }

  lemma InitialisedFields(headers: seq<Header>, thread: string)
    requires !Contains(headers, "Sig")
    ensures
      var h := Initialised(headers, thread);
      && !Contains(h, "Sig") && FindHeader(h, "PV") == Some(PROTO_VERSION)
      && ValuesOf(h, "Op") == ValuesOf(headers, "Op") && ValuesOf(h, "Op-Digest") == ValuesOf(headers, "Op-Digest")
  {
    hide Lower, FindHeader, ValuesOf, SetIn;
    SentNames();
    var threaded := if Contains(headers, "Thread") then headers else headers + [("Thread", thread)];
    if !Contains(headers, "Thread") {
      AbsentIsAppended(headers, "Thread", thread);
      assert threaded == SetIn(headers, "Thread", thread);
      GetAfterSet(headers, "Thread", thread, "Sig");
      ValuesAfterSet(headers, "Thread", thread, "Op");
      ValuesAfterSet(headers, "Thread", thread, "Op-Digest");
    }
    GetAfterSet(threaded, "PV", PROTO_VERSION, "Sig");
    GetAfterSet(threaded, "PV", PROTO_VERSION, "PV");
    ValuesAfterSet(threaded, "PV", PROTO_VERSION, "Op");
    ValuesAfterSet(threaded, "PV", PROTO_VERSION, "Op-Digest");
  }

  lemma InitialisedWellFormed(headers: seq<Header>, thread: string)
    requires AllWellFormed(headers) && GoodValue(thread)
    ensures AllWellFormed(Initialised(headers, thread))
  {
    hide GoodName, GoodValue, SetIn, FindHeader, Lower;
    SentNames();
    NoSpaceText(PROTO_VERSION);
    WellFormedAfterSet(if Contains(headers, "Thread") then headers else headers + [("Thread", thread)],
                       "PV", PROTO_VERSION);
  }

  lemma SignedKeeps(headers: seq<Header>, account: Account, timestamp: i64, lower: LowerCase)
    ensures
      var s := Signed(headers, account, timestamp, lower);
      && FindHeader(s, "PV") == FindHeader(headers, "PV")
      && ValuesOf(s, "Op") == ValuesOf(headers, "Op") && ValuesOf(s, "Op-Digest") == ValuesOf(headers, "Op-Digest")
  {
    hide Lower, FindHeader, ValuesOf, SetIn, SignText, HashKey, IntText;
    SentNames();
    var one := SetIn(headers, "User", account.username);
    var stamped := Stamped(headers, account, timestamp);
    var sig := SignText(HashKey(account.key, account.username, lower), timestamp, stamped);
    GetAfterSet(headers, "User", account.username, "PV");
    GetAfterSet(one, "Time", IntText(timestamp), "PV");
    GetAfterSet(stamped, "Sig", sig, "PV");
    ValuesAfterSet(headers, "User", account.username, "Op");
    ValuesAfterSet(one, "Time", IntText(timestamp), "Op");
    ValuesAfterSet(stamped, "Sig", sig, "Op");
    ValuesAfterSet(headers, "User", account.username, "Op-Digest");
    ValuesAfterSet(one, "Time", IntText(timestamp), "Op-Digest");
    ValuesAfterSet(stamped, "Sig", sig, "Op-Digest");
  }

  /** The server knows the account. */
  predicate Knows(config: Config, account: Account) {
    account.username != ANONYMOUS_USER ==>
      account.username in config.accounts && config.accounts[account.username] == account.key
  }

  /** A signature is not asked for, or was made at most 300 seconds before or after. */
  predicate Trusted(account: Account, timestamp: i64, now: i64) {
    account.username == ANONYMOUS_USER || -300 <= now - timestamp <= 300
  }

  /** A request that was signed, printed, sent, cleaned and parsed carries the digests it was built with, and if it fits
      the server's buffer it is admitted for its operation exactly when the account may do it and is anonymous or has a
      clock that agrees. */
  lemma RequestAdmitted(headers: seq<Header>, thread: string, account: Account, timestamp: i64,
                        config: Config, clock: Clock, lib: Library)
    requires AllWellFormed(headers) && GoodValue(thread) && GoodValue(account.username)
    requires !Contains(headers, "Sig") && OpOf(headers) in OPERATIONS
    requires Knows(config, account) && lib.major(PROTO_VERSION) == Some(PROTO_MAJOR)
    requires timestamp >= 0 && clock(0) >= 0
    ensures
      var request := SignedRequest(headers, thread, account, timestamp, lib.lower);
      var sent := Encode(Render(request));
      var p := Packet(Received(sent), config, clock);
      && DigestsOf(request) == DigestsOf(headers)
      && (|sent| <= MAX_PACKET_SIZE ==>
            && RequestOf(p) == request
            && (AdmittedOf(p, lib) == Ok(OpOf(headers))
                <==> Allowed(config, account.username, OpOf(headers)) && Trusted(account, timestamp, clock(0))))
  {
    hide Lower, FindHeader, ValuesOf, Initialised, Signed, ParseHeaders, Clean, Render, Encode, Verify, Fresh,
         GoodValue, AllWellFormed, SetIn, Stamped, HashKey, SignText, RemoveIn, IntText;
    InitialisedFields(headers, thread);
    InitialisedWellFormed(headers, thread);
    var initialised := Initialised(headers, thread);
    SignedSurvivesWire(initialised, account, timestamp, clock(0), lib.lower);
    SignedKeeps(initialised, account, timestamp, lib.lower);
    SignedFields(initialised, account, timestamp, lib.lower);
    FindIsFirst(headers, "Op");
    FindIsFirst(SignedRequest(headers, thread, account, timestamp, lib.lower), "Op");
  }

  /** Without an access file, a signature or an account, every operation but whitelist is open to everyone whose request
      fits the buffer. */
  lemma DefaultAccess(op: string, digest: string, thread: string, timestamp: i64, accounts: map<string, string>,
                      names: seq<string>, clock: Clock, lib: Library)
    requires op in {"ping", "pong", "check", "info", "report", "whitelist"} && GoodValue(digest) && GoodValue(thread)
    requires lib.major("2.1") == Some(2) && timestamp >= 0 && clock(0) >= 0
    ensures
      var request := SignedRequest(DigestRequest(op, digest), thread, Account("anonymous", None, ""), timestamp, lib.lower);
      var sent := Encode(Render(request));
      var p := Packet(Received(sent), Config(accounts, Access.AclOf(None, names, lib.lower)), clock);
      |sent| <= MAX_PACKET_SIZE ==>
        DigestsOf(RequestOf(p)) == [digest] && (AdmittedOf(p, lib) == Ok(op) <==> op != "whitelist")
  {
    hide Lower, SignedRequest, AdmittedOf, RequestOf, DigestsOf, OpOf, Render, Encode, GoodValue, GoodName, DigestRequest,
         AllWellFormed, Contains, Received, Allowed, Access.AclOf;
    DigestRequestFields(op, digest);
    NoSpaceText(ANONYMOUS_USER);
    DefaultAllows("anonymous", op, accounts, names, lib.lower);
    RequestAdmitted(DigestRequest(op, digest), thread, Account(ANONYMOUS_USER, None, ""), timestamp,
                    Config(accounts, Access.AclOf(None, names, lib.lower)), clock, lib);
  }

  lemma DefaultAllows(user: string, op: string, accounts: map<string, string>, names: seq<string>, lower: LowerCase)
    ensures Allowed(Config(accounts, Access.AclOf(None, names, lower)), user, op)
       <==> user == "anonymous" && op in {"ping", "pong", "check", "info", "report"}
  {
  }

  lemma DigestRequestFields(op: string, digest: string)
    requires op in OPERATIONS && GoodValue(digest)
    ensures
      var h := DigestRequest(op, digest);
      AllWellFormed(h) && !Contains(h, "Sig") && OpOf(h) == op && DigestsOf(h) == [digest]
  {
    hide Lower, GoodValue, GoodName;
    NoSpaceText("Op");
    NoSpaceText("Op-Digest");
    NoSpaceText(op);
    var h := DigestRequest(op, digest);
    assert |"Op"| == 2 && |"Sig"| == 3 && |"Op-Digest"| == 9;
    NoneFound(h, "Sig");
    assert h[1..] == [("Op-Digest", digest)] && h[1..][1..] == [];
    assert ValuesOf([], "Op-Digest") == [] && ValuesOf(h[1..], "Op-Digest") == [digest];
  }

  // ----- batches -----

  type Address = (string, nat)

  type Requests = map<Address, seq<Header>>

  datatype Settings = Settings(size: nat, spec: seq<(nat, nat)>)

  /** The open batches, and the messages handed to the socket with their addresses. */
  datatype Outbox = Outbox(reports: Requests, whitelists: Requests, sent: seq<(Address, seq<Header>)>) {
    function Table(kind: Kind): Requests {
      if kind.Report? then reports else whitelists
    }

    function WithTable(kind: Kind, requests: Requests): Outbox {
      if kind.Report? then this.(reports := requests) else this.(whitelists := requests)
    }
  }

  const IDLE: Outbox := Outbox(map[], map[], [])

  function NewBatch(kind: Kind, spec: seq<(nat, nat)>): seq<Header> {
    Request(OpName(kind)) + [("Op-Spec", SpecText(spec))]
  }

  function Entry(requests: Requests, kind: Kind, spec: seq<(nat, nat)>, address: Address): seq<Header> {
    if address in requests then requests[address] else NewBatch(kind, spec)
  }

  function Grown(requests: Requests, s: Settings, kind: Kind, digest: string, address: Address): seq<Header> {
    Entry(requests, kind, s.spec, address) + [("Op-Digest", digest)]
  }

  predicate Full(msg: seq<Header>, size: nat) {
    |DigestsOf(msg)| >= size
  }

  /** One more digest: its batch is sent once it is full. */
  function Added(o: Outbox, s: Settings, kind: Kind, digest: string, address: Address): Outbox {
    var msg := Grown(o.Table(kind), s, kind, digest, address);
    if Full(msg, s.size) then
      o.WithTable(kind, o.Table(kind) - {address}).(sent := o.sent + [(address, msg)])
    else o.WithTable(kind, o.Table(kind)[address := msg])
  }

  /** The messages sent to one address, in order. */
  function To(sent: seq<(Address, seq<Header>)>, address: Address): seq<seq<Header>> {
    if sent == [] then []
    else
      var last := sent[|sent| - 1];
      To(sent[..|sent| - 1], address) + if last.0 == address then [last.1] else []
  }

  function Open(requests: Requests, address: Address): seq<seq<Header>> {
    if address in requests then [requests[address]] else []
  }

  /** All open batches are sent, reports first; the addresses come in the table's own order. */
  ghost predicate Forced(o: Outbox, after: Outbox) {
    && after.reports == map[] && after.whitelists == map[] && o.sent <= after.sent
    && forall a: Address :: To(after.sent, a) == To(o.sent, a) + Open(o.reports, a) + Open(o.whitelists, a)
  }

  class BatchClient {
    const settings: Settings
    var reports: Requests
    var whitelists: Requests
    ghost var sent: seq<(Address, seq<Header>)>

    ghost function State(): Outbox
      reads this
    {
      Outbox(reports, whitelists, sent)
    }

    constructor (settings: Settings)
      ensures this.settings == settings && State() == IDLE
    {
      this.settings := settings;
      reports := map[];
      whitelists := map[];
      sent := [];
    }

    /** Hands a message over; signing and the socket come after that. */
    method SendOnly(msg: seq<Header>, address: Address)
      modifies this`sent
      ensures sent == old(sent) + [(address, msg)]
    {
      sent := sent + [(address, msg)];
    }

    method AddDigest(requests: Requests, kind: Kind, digest: string, address: Address)
      returns (after: Requests)
      modifies this`sent
      ensures
        var msg := Grown(requests, settings, kind, digest, address);
        && after == (if Full(msg, settings.size) then requests - {address} else requests[address := msg])
        && sent == old(sent) + if Full(msg, settings.size) then [(address, msg)] else []
    {
      hide ValuesOf, SpecText;
      var msg := if address in requests then requests[address] else NewBatch(kind, settings.spec);
      msg := msg + [("Op-Digest", digest)];
      after := requests[address := msg];
      if |ValuesOf(msg, "Op-Digest")| >= settings.size {
        after := after - {address};
        SendOnly(msg, address);
      }
    }

    method ReportDigest(digest: string, address: Address)
      modifies this
      ensures State() == Added(old(State()), settings, Report, digest, address)
    {
      reports := AddDigest(reports, Report, digest, address);
    }

    method WhitelistDigest(digest: string, address: Address)
      modifies this
      ensures State() == Added(old(State()), settings, Whitelist, digest, address)
    {
      whitelists := AddDigest(whitelists, Whitelist, digest, address);
    }

    /** Drops all open batches without sending them. */
    method Flush()
      modifies this
      ensures State() == old(State()).(reports := map[], whitelists := map[])
    {
      reports := map[];
      whitelists := map[];
    }

    method SendAll(requests: Requests)
      modifies this`sent
      ensures old(sent) <= sent
      ensures forall a: Address :: To(sent, a) == To(old(sent), a) + Open(requests, a)
    {
      hide To;
      var left := requests.Keys;
      while left != {}
        invariant left <= requests.Keys && old(sent) <= sent
        invariant forall a: Address ::
                    To(sent, a) == To(old(sent), a) + if a in left then [] else Open(requests, a)
        decreases left
      {
        var address :| address in left;
        ghost var before := sent;
        SendOnly(requests[address], address);
        SentOne(before, address, requests[address]);
        left := left - {address};
      }
    }

    method Force()
      modifies this
      ensures Forced(old(State()), State())
    {
      hide To, Open;
      var taken := reports;
      reports := map[];
      SendAll(taken);
      taken := whitelists;
      whitelists := map[];
      SendAll(taken);
    }
  }

  lemma SentOne(sent: seq<(Address, seq<Header>)>, address: Address, msg: seq<Header>)
    ensures forall a: Address :: To(sent + [(address, msg)], a) == To(sent, a) + if a == address then [msg] else []
  {
    assert (sent + [(address, msg)])[..|sent|] == sent;
  }
}
