/** What batches of digests keep (the BatchClient of src/client.rs, with src/server.rs). */
module Batching {
  import opened Wrappers
  import opened Text
  import opened Utf8
  import opened Headers
  import opened Messages
  import opened Accounts
  import opened Engines
  import opened Server
  import opened Clients

  datatype Call = Add(kind: Kind, digest: string, address: Address) | Force

  ghost predicate Step(o: Outbox, call: Call, after: Outbox, s: Settings) {
    match call
    case Add(kind, digest, address) => after == Added(o, s, kind, digest, address)
    case Force => Forced(o, after)
  }

  ghost predicate Execution(states: seq<Outbox>, calls: seq<Call>, s: Settings) {
    && |states| == |calls| + 1 && states[0] == IDLE
    && forall k | 0 <= k < |calls| :: Step(states[k], calls[k], states[k + 1], s)
  }

  // ----- digests asked for, waiting and handed over -----

  /** The digests of one kind that messages carry, in order. */
  function Handed(msgs: seq<seq<Header>>, kind: Kind): seq<string> {
    if msgs == [] then []
    else Handed(msgs[..|msgs| - 1], kind) + Carried(msgs[|msgs| - 1], kind)
  }

  function Carried(msg: seq<Header>, kind: Kind): seq<string> {
    if OpOf(msg) == OpName(kind) then DigestsOf(msg) else []
  }

  function Waiting(o: Outbox, kind: Kind, a: Address): seq<string> {
    if a in o.Table(kind) then DigestsOf(o.Table(kind)[a]) else []
  }

  /** The digests of one kind that were added for one address, in order. */
  function Asked(calls: seq<Call>, kind: Kind, a: Address): seq<string> {
    if calls == [] then []
    else
      var last := calls[|calls| - 1];
      Asked(calls[..|calls| - 1], kind, a)
      + if last.Add? && last.kind == kind && last.address == a then [last.digest] else []
  }

  function DigestHeaders(digests: seq<string>): seq<Header> {
    if digests == [] then []
    else DigestHeaders(digests[..|digests| - 1]) + [("Op-Digest", digests[|digests| - 1])]
  }

  /** A batch message of some digests. */
  function BatchOf(kind: Kind, spec: seq<(nat, nat)>, digests: seq<string>): seq<Header> {
    NewBatch(kind, spec) + DigestHeaders(digests)
  }

  predicate IsBatch(msg: seq<Header>, kind: Kind, spec: seq<(nat, nat)>) {
    msg == BatchOf(kind, spec, DigestsOf(msg))
  }

  lemma BatchNames()
    ensures !EqIgnoreAsciiCase("Op", "Op-Digest") && !EqIgnoreAsciiCase("Op-Spec", "Op-Digest")
    ensures !EqIgnoreAsciiCase("Op-Digest", "Op") && !EqIgnoreAsciiCase("Op-Spec", "Op")
  {
    assert |"Op-Digest"| == 9 && |"Op"| == 2 && |"Op-Spec"| == 7;
  }

  lemma NewBatchFields(kind: Kind, spec: seq<(nat, nat)>)
    ensures DigestsOf(NewBatch(kind, spec)) == [] && OpOf(NewBatch(kind, spec)) == OpName(kind)
  {
    hide Lower, SpecText;
    BatchNames();
    var b := NewBatch(kind, spec);
    assert b[1..] == [("Op-Spec", SpecText(spec))] && b[1..][1..] == [];
    assert DigestsOf(b) == ValuesOf(b[1..], "Op-Digest") == ValuesOf([], "Op-Digest");
  }

  lemma OneDigest(digest: string)
    ensures ValuesOf([("Op-Digest", digest)], "Op-Digest") == [digest]
  {
    hide Lower;
    assert [("Op-Digest", digest)][1..] == [];
  }

  lemma {:induction false} DigestHeadersValues(digests: seq<string>)
    ensures ValuesOf(DigestHeaders(digests), "Op-Digest") == digests
  {
    hide Lower, ValuesOf;
    if digests == [] {
      assert ValuesOf([], "Op-Digest") == [] by {
        NoValues();
      }
    } else {
      var k := |digests| - 1;
      DigestHeadersValues(digests[..k]);
      ValuesAppend(DigestHeaders(digests[..k]), [("Op-Digest", digests[k])], "Op-Digest");
      OneDigest(digests[k]);
    }
  }

  lemma NoValues()
    ensures ValuesOf([], "Op-Digest") == []
  {
  }

  /** A batch message carries its digests and its operation. */
  lemma BatchFields(kind: Kind, spec: seq<(nat, nat)>, digests: seq<string>)
    ensures DigestsOf(BatchOf(kind, spec, digests)) == digests && OpOf(BatchOf(kind, spec, digests)) == OpName(kind)
    ensures IsBatch(BatchOf(kind, spec, digests), kind, spec)
  {
    hide Lower, ValuesOf, FindHeader, NewBatch, DigestHeaders;
    NewBatchFields(kind, spec);
    DigestHeadersValues(digests);
    ValuesAppend(NewBatch(kind, spec), DigestHeaders(digests), "Op-Digest");
    FindAppend(NewBatch(kind, spec), DigestHeaders(digests), "Op");
    NewBatchHasOp(kind, spec);
  }

  lemma NewBatchHasOp(kind: Kind, spec: seq<(nat, nat)>)
    ensures Contains(NewBatch(kind, spec), "Op")
  {
    hide Lower;
  }

  // ----- the invariant -----

  function Limit(size: nat): nat {
    if size == 0 then 1 else size
  }

  predicate OpenAt(o: Outbox, s: Settings, kind: Kind, a: Address) {
    a in o.Table(kind) ==>
      IsBatch(o.Table(kind)[a], kind, s.spec) && 0 < |DigestsOf(o.Table(kind)[a])| < s.size
  }

  ghost predicate OpenInv(o: Outbox, s: Settings) {
    forall kind: Kind, a: Address :: OpenAt(o, s, kind, a)
  }

  /** What may be sent: a batch of either kind that holds a digest and no more than fit. */
  predicate GoodMessage(msg: seq<Header>, s: Settings) {
    (IsBatch(msg, Report, s.spec) || IsBatch(msg, Whitelist, s.spec)) && 0 < |DigestsOf(msg)| <= Limit(s.size)
  }

  predicate GoodMessages(msgs: seq<seq<Header>>, s: Settings) {
    forall k | 0 <= k < |msgs| :: GoodMessage(msgs[k], s)
  }

  /** The digests of one kind for one address that went in: handed over, then waiting. */
  function Through(o: Outbox, kind: Kind, a: Address): seq<string> {
    Handed(To(o.sent, a), kind) + Waiting(o, kind, a)
  }

  predicate ConservedAt(o: Outbox, calls: seq<Call>, kind: Kind, a: Address) {
    Through(o, kind, a) == Asked(calls, kind, a)
  }

  ghost predicate Conserved(o: Outbox, calls: seq<Call>) {
    forall kind: Kind, a: Address :: ConservedAt(o, calls, kind, a)
  }

  predicate SentAt(o: Outbox, s: Settings, a: Address) {
    GoodMessages(To(o.sent, a), s)
  }

  ghost predicate SentInv(o: Outbox, s: Settings) {
    forall a: Address :: SentAt(o, s, a)
  }

  lemma {:induction false} HandedAppend(a: seq<seq<Header>>, b: seq<seq<Header>>, kind: Kind)
    ensures Handed(a + b, kind) == Handed(a, kind) + Handed(b, kind)
  {
    hide Carried;
    if b == [] {
      assert a + b == a;
    } else {
      var k := |b| - 1;
      assert (a + b)[..|a| + k] == a + b[..k];
      HandedAppend(a, b[..k], kind);
    }
  }

  lemma HandedOne(msg: seq<Header>, kind: Kind)
    ensures Handed([msg], kind) == if OpOf(msg) == OpName(kind) then DigestsOf(msg) else []
    ensures Handed([], kind) == []
  {
    hide OpOf, DigestsOf;
    assert [msg][..0] == [];
  }

  lemma BatchOp(msg: seq<Header>, kind: Kind, spec: seq<(nat, nat)>)
    requires IsBatch(msg, kind, spec)
    ensures OpOf(msg) == OpName(kind)
  {
    hide OpOf, DigestsOf, BatchOf;
    BatchFields(kind, spec, DigestsOf(msg));
  }

  lemma GrownBatch(o: Outbox, s: Settings, kind: Kind, digest: string, a: Address)
    requires OpenInv(o, s)
    ensures
      var msg := Grown(o.Table(kind), s, kind, digest, a);
      IsBatch(msg, kind, s.spec) && DigestsOf(msg) == Waiting(o, kind, a) + [digest]
  {
    hide NewBatch, FindHeader, ValuesOf, Lower;
    assert OpenAt(o, s, kind, a);
    var was := Waiting(o, kind, a);
    NewBatchFields(kind, s.spec);
    assert Entry(o.Table(kind), kind, s.spec, a) == BatchOf(kind, s.spec, was);
    var digests := was + [digest];
    assert digests[..|was|] == was;
    assert Grown(o.Table(kind), s, kind, digest, a) == BatchOf(kind, s.spec, digests);
    BatchFields(kind, s.spec, digests);
  }

  lemma AddedState(o: Outbox, s: Settings, kind: Kind, digest: string, address: Address, k: Kind, a: Address)
    ensures
      var msg := Grown(o.Table(kind), s, kind, digest, address);
      var after := Added(o, s, kind, digest, address);
      var here := k == kind && a == address;
      && To(after.sent, a) == To(o.sent, a) + (if a == address && Full(msg, s.size) then [msg] else [])
      && (a in after.Table(k) <==> if here then !Full(msg, s.size) else a in o.Table(k))
      && (a in after.Table(k) ==> after.Table(k)[a] == if here then msg else o.Table(k)[a])
  {
    hide Grown, DigestsOf, To;
    var msg := Grown(o.Table(kind), s, kind, digest, address);
    SentOne(o.sent, address, msg);
  }

  lemma AddKeepsOpen(o: Outbox, s: Settings, kind: Kind, digest: string, address: Address)
    requires OpenInv(o, s)
    ensures OpenInv(Added(o, s, kind, digest, address), s)
  {
    hide Grown, DigestsOf, To, IsBatch, Added;
    GrownBatch(o, s, kind, digest, address);
    forall k: Kind, a: Address
      ensures OpenAt(Added(o, s, kind, digest, address), s, k, a)
    {
      AddedState(o, s, kind, digest, address, k, a);
      assert OpenAt(o, s, k, a);
    }
  }

  /** A batch is sent as soon as it is full, and not before. */
  lemma SentWhenFull(o: Outbox, s: Settings, kind: Kind, digest: string, a: Address)
    requires OpenInv(o, s)
    ensures
      var digests, after := Waiting(o, kind, a) + [digest], Added(o, s, kind, digest, a);
      if |digests| >= s.size then
        after.sent == o.sent + [(a, BatchOf(kind, s.spec, digests))] && Waiting(after, kind, a) == []
      else after.sent == o.sent && Waiting(after, kind, a) == digests
  {
    hide Grown, DigestsOf, To, BatchOf;
    GrownBatch(o, s, kind, digest, a);
  }

  lemma AddKeepsSent(o: Outbox, s: Settings, kind: Kind, digest: string, address: Address)
    requires OpenInv(o, s) && SentInv(o, s)
    ensures SentInv(Added(o, s, kind, digest, address), s)
  {
    hide Grown, DigestsOf, To, IsBatch, Added;
    GrownBatch(o, s, kind, digest, address);
    assert OpenAt(o, s, kind, address);
    assert |Waiting(o, kind, address)| < Limit(s.size);
    forall a: Address
      ensures SentAt(Added(o, s, kind, digest, address), s, a)
    {
      AddedState(o, s, kind, digest, address, kind, a);
      assert SentAt(o, s, a);
    }
  }

  lemma AddConserves(o: Outbox, s: Settings, kind: Kind, digest: string, address: Address, calls: seq<Call>)
    requires OpenInv(o, s) && Conserved(o, calls)
    ensures Conserved(Added(o, s, kind, digest, address), calls + [Add(kind, digest, address)])
  {
    hide ConservedAt;
    forall k: Kind, a: Address
      ensures ConservedAt(Added(o, s, kind, digest, address), calls + [Add(kind, digest, address)], k, a)
    {
      AddConservesAt(o, s, kind, digest, address, calls, k, a);
    }
  }

  lemma AddedHanded(o: Outbox, s: Settings, kind: Kind, digest: string, address: Address, k: Kind, a: Address)
    requires OpenInv(o, s)
    ensures
      var full := Full(Grown(o.Table(kind), s, kind, digest, address), s.size);
      var after := Added(o, s, kind, digest, address);
      var here := k == kind && a == address;
      var now := Waiting(o, kind, address) + [digest];
      && Handed(To(after.sent, a), k) == Handed(To(o.sent, a), k) + (if here && full then now else [])
      && Waiting(after, k, a) == if here then (if full then [] else now) else Waiting(o, k, a)
  {
    hide Grown, DigestsOf, To, IsBatch, Added, OpOf, Handed, OpenInv, Full;
    var msg := Grown(o.Table(kind), s, kind, digest, address);
    GrownBatch(o, s, kind, digest, address);
    BatchOp(msg, kind, s.spec);
    AddedState(o, s, kind, digest, address, k, a);
    HandedAppend(To(o.sent, a), [msg], k);
    HandedOne(msg, k);
    assert OpName(k) == OpName(kind) <==> k == kind;
    assert To(o.sent, a) + [] == To(o.sent, a) && Handed(To(o.sent, a), k) + [] == Handed(To(o.sent, a), k);
  }

  /** Adding a digest adds it to what went in for its kind and address, and to nothing else. */
  lemma AddedThrough(o: Outbox, s: Settings, kind: Kind, digest: string, address: Address, k: Kind, a: Address)
    requires OpenInv(o, s)
    ensures Through(Added(o, s, kind, digest, address), k, a)
         == Through(o, k, a) + if k == kind && a == address then [digest] else []
  {
    hide Grown, Full, DigestsOf, To, IsBatch, Added, OpOf, Handed, Waiting, OpenInv;
    AddedHanded(o, s, kind, digest, address, k, a);
    Regroup(Handed(To(o.sent, a), k), Waiting(o, k, a), [digest]);
  }

  lemma AddConservesAt(o: Outbox, s: Settings, kind: Kind, digest: string, address: Address, calls: seq<Call>,
                       k: Kind, a: Address)
    requires OpenInv(o, s) && ConservedAt(o, calls, k, a)
    ensures ConservedAt(Added(o, s, kind, digest, address), calls + [Add(kind, digest, address)], k, a)
  {
    hide Added, Asked, Through, OpenInv;
    AddedThrough(o, s, kind, digest, address, k, a);
    AskedSnoc(calls, Add(kind, digest, address), k, a);
  }

  lemma Regroup<T>(a: seq<T>, b: seq<T>, c: seq<T>)
    ensures a + b + c == a + (b + c) && a + (b + c) + [] == a + b + c && a + [] + b == a + b + []
  {
  }

  lemma AskedSnoc(calls: seq<Call>, call: Call, kind: Kind, a: Address)
    ensures Asked(calls + [call], kind, a)
         == Asked(calls, kind, a) + if call.Add? && call.kind == kind && call.address == a then [call.digest] else []
  {
    assert (calls + [call])[..|calls|] == calls;
  }

  lemma OpenHanded(o: Outbox, s: Settings, kind: Kind, k: Kind, a: Address)
    requires OpenInv(o, s)
    ensures Handed(Open(o.Table(kind), a), k) == if k == kind then Waiting(o, k, a) else []
    ensures GoodMessages(Open(o.Table(kind), a), s)
  {
    hide DigestsOf, IsBatch, OpOf, Handed;
    assert OpenAt(o, s, kind, a);
    if a in o.Table(kind) {
      var msg := o.Table(kind)[a];
      BatchOp(msg, kind, s.spec);
      HandedOne(msg, k);
    } else {
      HandedOne([], k);
    }
  }

  lemma GoodAppend(a: seq<seq<Header>>, b: seq<seq<Header>>, s: Settings)
    requires GoodMessages(a, s) && GoodMessages(b, s)
    ensures GoodMessages(a + b, s)
  {
    hide GoodMessage;
  }

  /** Forcing hands over what was waiting, and neither loses nor repeats any of it. */
  lemma ForcedThrough(o: Outbox, after: Outbox, s: Settings, k: Kind, a: Address)
    requires OpenInv(o, s) && Forced(o, after)
    ensures Through(after, k, a) == Through(o, k, a) && Waiting(after, k, a) == []
  {
    hide DigestsOf, IsBatch, To, Open, Handed, GoodMessages, OpenInv;
    var sent, r, w := To(o.sent, a), Open(o.reports, a), Open(o.whitelists, a);
    OpenHanded(o, s, Report, k, a);
    OpenHanded(o, s, Whitelist, k, a);
    HandedAppend(sent + r, w, k);
    HandedAppend(sent, r, k);
    assert To(after.sent, a) == sent + r + w;
  }

  lemma ForceKeepsAt(o: Outbox, after: Outbox, s: Settings, calls: seq<Call>, k: Kind, a: Address)
    requires OpenInv(o, s) && ConservedAt(o, calls, k, a) && SentAt(o, s, a) && Forced(o, after)
    ensures ConservedAt(after, calls + [Force], k, a) && SentAt(after, s, a) && Waiting(after, k, a) == []
  {
    hide DigestsOf, To, Open, Handed, GoodMessages, Asked, OpenInv, Through;
    AskedSnoc(calls, Force, k, a);
    ForcedThrough(o, after, s, k, a);
    OpenHanded(o, s, Report, k, a);
    OpenHanded(o, s, Whitelist, k, a);
    var sent, r, w := To(o.sent, a), Open(o.reports, a), Open(o.whitelists, a);
    GoodAppend(sent, r, s);
    GoodAppend(sent + r, w, s);
    assert To(after.sent, a) == sent + r + w;
  }

  lemma ForceKeeps(o: Outbox, after: Outbox, s: Settings, calls: seq<Call>)
    requires OpenInv(o, s) && Conserved(o, calls) && SentInv(o, s) && Forced(o, after)
    ensures OpenInv(after, s) && Conserved(after, calls + [Force]) && SentInv(after, s)
  {
    hide ConservedAt, SentAt, Waiting;
    forall k: Kind, a: Address
      ensures ConservedAt(after, calls + [Force], k, a)
    {
      ForceKeepsAt(o, after, s, calls, k, a);
    }
    forall a: Address
      ensures SentAt(after, s, a)
    {
      ForceKeepsAt(o, after, s, calls, Report, a);
    }
    assert forall k: Kind, a: Address :: OpenAt(after, s, k, a);
  }

  lemma IdleKeeps(s: Settings)
    ensures OpenInv(IDLE, s) && Conserved(IDLE, []) && SentInv(IDLE, s)
  {
  }

  /** In every state, and for each address and kind, the digests handed over followed by the waiting ones are those
      added, in order; every message sent is a batch of at least one digest and no more than fit. */
  lemma {:induction false} BatchesConserve(states: seq<Outbox>, calls: seq<Call>, s: Settings)
    requires Execution(states, calls, s)
    ensures
      var o := states[|calls|];
      OpenInv(o, s) && Conserved(o, calls) && SentInv(o, s)
    decreases |calls|
  {
    hide Added, Forced, OpenInv, Conserved, SentInv;
    if calls == [] {
      IdleKeeps(s);
    } else {
      var k := |calls| - 1;
      assert Execution(states[..k + 1], calls[..k], s);
      BatchesConserve(states[..k + 1], calls[..k], s);
      var o := states[k];
      assert calls == calls[..k] + [calls[k]] && Step(o, calls[k], states[k + 1], s);
      match calls[k] {
        case Add(kind, digest, address) =>
          AddKeepsOpen(o, s, kind, digest, address);
          AddKeepsSent(o, s, kind, digest, address);
          AddConserves(o, s, kind, digest, address, calls[..k]);
        case Force =>
          ForceKeeps(o, states[k + 1], s, calls[..k]);
      }
    }
  }

  /** After a force nothing waits: exactly what was added has been handed over, in order. */
  lemma ForceHandsAll(states: seq<Outbox>, calls: seq<Call>, s: Settings, kind: Kind, a: Address)
    requires Execution(states, calls + [Force], s)
    ensures Handed(To(states[|calls| + 1].sent, a), kind) == Asked(calls, kind, a)
  {
    hide Added, To, Handed, Forced, OpenInv, Asked;
    var k := |calls|;
    var all := calls + [Force];
    assert forall i | 0 <= i < k :: all[i] == calls[i];
    assert all[..k] == calls && all[k] == Force && Step(states[k], all[k], states[k + 1], s);
    assert Execution(states[..k + 1], calls, s);
    BatchesConserve(states[..k + 1], calls, s);
    ForceKeepsAt(states[k], states[k + 1], s, calls, kind, a);
    AskedSnoc(calls, Force, kind, a);
    var handed := Handed(To(states[k + 1].sent, a), kind);
    assert handed + [] == handed && Asked(calls, kind, a) + [] == Asked(calls, kind, a);
  }

  // ----- batches or single requests: the server counts the same -----

  /** The packet is admitted for what the message asks. */
  predicate Carries(p: Packet, msg: seq<Header>, lib: Library) {
    AdmittedOf(p, lib) == Ok(OpOf(msg)) && DigestsOf(RequestOf(p)) == DigestsOf(msg)
  }

  lemma {:induction false} HandedIsCounted(packets: seq<Packet>, msgs: seq<seq<Header>>, kind: Kind, digest: string,
                                           lib: Library)
    requires |packets| == |msgs| && forall k | 0 <= k < |msgs| :: Carries(packets[k], msgs[k], lib)
    ensures Occurrences(packets, kind, digest, lib) == multiset(Handed(msgs, kind))[digest]
  {
    hide AdmittedOf, RequestOf, OpOf, DigestsOf;
    if msgs != [] {
      var k := |msgs| - 1;
      HandedIsCounted(packets[..k], msgs[..k], kind, digest, lib);
      assert Carries(packets[k], msgs[k], lib);
    }
  }

  predicate GoodDigests(digests: seq<string>) {
    forall k | 0 <= k < |digests| :: GoodValue(digests[k])
  }

  lemma {:induction false} DigestHeadersWellFormed(digests: seq<string>)
    requires GoodDigests(digests)
    ensures AllWellFormed(DigestHeaders(digests)) && !Contains(DigestHeaders(digests), "Sig")
  {
    hide GoodName, GoodValue, Lower, FindHeader;
    if digests == [] {
      NoSig([], "");
    } else {
      var k := |digests| - 1;
      DigestHeadersWellFormed(digests[..k]);
      NoSpaceText("Op-Digest");
      NoSig(DigestHeaders(digests[..k]), digests[k]);
    }
  }

  lemma NoSig(headers: seq<Header>, digest: string)
    ensures Contains(headers + [("Op-Digest", digest)], "Sig") == Contains(headers, "Sig")
    ensures !Contains([], "Sig")
  {
    hide Lower;
    FindAppend(headers, [("Op-Digest", digest)], "Sig");
    assert [("Op-Digest", digest)][1..] == [];
    assert |"Op-Digest"| == 9;
  }

  predicate Numeric(s: string) {
    forall k | 0 <= k < |s| :: IsDigit(s[k]) || s[k] == ','
  }

  lemma DigitsAreNumeric(s: string)
    requires AllDigits(s)
    ensures Numeric(s)
  {
    assert forall k | 0 <= k < |s| :: s[k] in s;
  }

  lemma {:induction false} JoinedNumbers(parts: seq<string>)
    requires forall k | 0 <= k < |parts| :: Numeric(parts[k])
    ensures Numeric(Join(parts, ","))
  {
    if |parts| > 1 {
      JoinedNumbers(parts[1..]);
    }
  }

  lemma {:induction false} SpecNumbersNumeric(spec: seq<(nat, nat)>)
    ensures forall k | 0 <= k < |SpecNumbers(spec)| :: Numeric(SpecNumbers(spec)[k])
  {
    hide NatText, Numeric;
    if spec != [] {
      SpecNumbersNumeric(spec[1..]);
      DigitsAreNumeric(NatText(spec[0].0));
      DigitsAreNumeric(NatText(spec[0].1));
    }
  }

  lemma SpecTextGood(spec: seq<(nat, nat)>)
    ensures GoodValue(SpecText(spec))
  {
    hide SpecNumbers, Join, GoodValue;
    SpecNumbersNumeric(spec);
    JoinedNumbers(SpecNumbers(spec));
    NoSpaceText(SpecText(spec));
  }

  lemma BatchWellFormed(kind: Kind, spec: seq<(nat, nat)>, digests: seq<string>)
    requires GoodDigests(digests)
    ensures AllWellFormed(BatchOf(kind, spec, digests)) && !Contains(BatchOf(kind, spec, digests), "Sig")
  {
    hide GoodName, GoodValue, Lower, SpecText, DigestHeaders;
    DigestHeadersWellFormed(digests);
    NoSpaceText("Op");
    NoSpaceText("Op-Spec");
    NoSpaceText(OpName(kind));
    SpecTextGood(spec);
    FindAppend(NewBatch(kind, spec), DigestHeaders(digests), "Sig");
    NoSigInNew(kind, spec);
  }

  lemma NoSigInNew(kind: Kind, spec: seq<(nat, nat)>)
    ensures !Contains(NewBatch(kind, spec), "Sig")
  {
    hide Lower, SpecText;
    NoneFound(NewBatch(kind, spec), "Sig");
  }

  /** A batch of well-formed digests that fits the server's buffer, signed and sent, is admitted for what it carries
      exactly when the account may do the operation and is anonymous or has a clock that agrees. */
  lemma BatchAdmitted(kind: Kind, spec: seq<(nat, nat)>, digests: seq<string>, thread: string, account: Account,
                      timestamp: i64, config: Config, clock: Clock, lib: Library)
    requires GoodDigests(digests) && GoodValue(thread) && GoodValue(account.username)
    requires Knows(config, account) && lib.major(PROTO_VERSION) == Some(PROTO_MAJOR)
    requires timestamp >= 0 && clock(0) >= 0
    ensures
      var msg := BatchOf(kind, spec, digests);
      var sent := Encode(Render(SignedRequest(msg, thread, account, timestamp, lib.lower)));
      |sent| <= MAX_PACKET_SIZE ==>
        (Carries(Packet(Received(sent), config, clock), msg, lib)
         <==> Allowed(config, account.username, OpName(kind)) && Trusted(account, timestamp, clock(0)))
  {
    hide GoodValue, BatchOf, SignedRequest, AdmittedOf, OpOf, RequestOf, DigestsOf, Knows, Allowed, Trusted, Render, Encode,
         Contains, AllWellFormed;
    BatchWellFormed(kind, spec, digests);
    BatchFields(kind, spec, digests);
    RequestAdmitted(BatchOf(kind, spec, digests), thread, account, timestamp, config, clock, lib);
  }

  lemma SpecDigestRequestFields(kind: Kind, digest: string, spec: seq<(nat, nat)>)
    requires GoodValue(digest)
    ensures
      var h := SpecDigestRequest(OpName(kind), digest, spec);
      AllWellFormed(h) && !Contains(h, "Sig") && OpOf(h) == OpName(kind) && DigestsOf(h) == [digest]
  {
    hide Lower, GoodValue, GoodName, SpecText, FindHeader, ValuesOf;
    var base, last := DigestRequest(OpName(kind), digest), [("Op-Spec", SpecText(spec))];
    DigestRequestFields(OpName(kind), digest);
    SpecTextGood(spec);
    NoSpaceText("Op-Spec");
    SpecHeader(spec);
    FindAppend(base, last, "Sig");
    FindAppend(base, last, "Op");
    ValuesAppend(base, last, "Op-Digest");
    assert OpName(kind) in OPERATIONS;
    OpIsThere(kind, digest);
  }

  lemma OpIsThere(kind: Kind, digest: string)
    ensures Contains(DigestRequest(OpName(kind), digest), "Op")
  {
    hide Lower;
  }

  lemma SpecHeader(spec: seq<(nat, nat)>)
    ensures
      var h := [("Op-Spec", SpecText(spec))];
      !Contains(h, "Sig") && ValuesOf(h, "Op-Digest") == []
  {
    hide Lower, SpecText;
    BatchNames();
    assert |"Op-Spec"| == 7 && |"Sig"| == 3;
    NoneFound([("Op-Spec", SpecText(spec))], "Sig");
    assert [("Op-Spec", SpecText(spec))][1..] == [];
    NoValues();
  }

  /** So is a request of its own for each digest, as a client sends without batching. */
  lemma SingleAdmitted(kind: Kind, spec: seq<(nat, nat)>, digest: string, thread: string, account: Account,
                       timestamp: i64, config: Config, clock: Clock, lib: Library)
    requires GoodValue(digest) && GoodValue(thread) && GoodValue(account.username)
    requires Knows(config, account) && lib.major(PROTO_VERSION) == Some(PROTO_MAJOR)
    requires timestamp >= 0 && clock(0) >= 0
    ensures
      var msg := SpecDigestRequest(OpName(kind), digest, spec);
      var sent := Encode(Render(SignedRequest(msg, thread, account, timestamp, lib.lower)));
      |sent| <= MAX_PACKET_SIZE ==>
        (CarriesOne(Packet(Received(sent), config, clock), (kind, digest), lib)
         <==> Allowed(config, account.username, OpName(kind)) && Trusted(account, timestamp, clock(0)))
  {
    hide GoodValue, SpecDigestRequest, SignedRequest, AdmittedOf, OpOf, RequestOf, DigestsOf, Knows, Allowed, Trusted, Render,
         Encode, Contains, AllWellFormed;
    SpecDigestRequestFields(kind, digest, spec);
    RequestAdmitted(SpecDigestRequest(OpName(kind), digest, spec), thread, account, timestamp, config, clock, lib);
  }

  /** The digests added for one address, each with its kind. */
  function AskedAt(calls: seq<Call>, a: Address): seq<(Kind, string)> {
    if calls == [] then []
    else
      var last := calls[|calls| - 1];
      AskedAt(calls[..|calls| - 1], a) + if last.Add? && last.address == a then [(last.kind, last.digest)] else []
  }

  function OfKind(asked: seq<(Kind, string)>, kind: Kind): seq<string> {
    if asked == [] then []
    else
      var last := asked[|asked| - 1];
      OfKind(asked[..|asked| - 1], kind) + if last.0 == kind then [last.1] else []
  }

  lemma {:induction false} AskedOfKind(calls: seq<Call>, kind: Kind, a: Address)
    ensures OfKind(AskedAt(calls, a), kind) == Asked(calls, kind, a)
  {
    if calls != [] {
      var k := |calls| - 1;
      AskedOfKind(calls[..k], kind, a);
      var before, last := AskedAt(calls[..k], a), calls[k];
      if last.Add? && last.address == a {
        assert AskedAt(calls, a)[..|before|] == before;
      } else {
        assert AskedAt(calls, a) == before;
      }
    }
  }

  predicate CarriesOne(p: Packet, asked: (Kind, string), lib: Library) {
    AdmittedOf(p, lib) == Ok(OpName(asked.0)) && DigestsOf(RequestOf(p)) == [asked.1]
  }

  lemma {:induction false} SinglesAreCounted(singles: seq<Packet>, asked: seq<(Kind, string)>, kind: Kind,
                                             digest: string, lib: Library)
    requires |singles| == |asked| && forall k | 0 <= k < |asked| :: CarriesOne(singles[k], asked[k], lib)
    ensures Occurrences(singles, kind, digest, lib) == multiset(OfKind(asked, kind))[digest]
  {
    hide AdmittedOf, RequestOf, DigestsOf;
    if asked != [] {
      var k := |asked| - 1;
      SinglesAreCounted(singles[..k], asked[..k], kind, digest, lib);
      assert CarriesOne(singles[k], asked[k], lib);
    }
  }

  /** For any digests, kinds, batch size and moments of forcing: a server that admits the batches sent to it ends
      with the same counts as one that admits each digest in a request of its own. */
  lemma BatchingKeepsCounts(states: seq<Outbox>, calls: seq<Call>, s: Settings, a: Address,
                            packets: seq<Packet>, singles: seq<Packet>, kind: Kind, digest: string, lib: Library)
    requires Execution(states, calls + [Force], s)
    requires
      var msgs := To(states[|calls| + 1].sent, a);
      |packets| == |msgs| && forall k | 0 <= k < |msgs| :: Carries(packets[k], msgs[k], lib)
    requires
      var asked := AskedAt(calls, a);
      |singles| == |asked| && forall k | 0 <= k < |asked| :: CarriesOne(singles[k], asked[k], lib)
    ensures CountOf(Lookup(Served(packets, lib), digest), kind) == CountOf(Lookup(Served(singles, lib), digest), kind)
  {
    hide Step, Carries, CarriesOne, To, Served, Lookup, Occurrences, Handed, OfKind, AskedAt, AllUpdates, TimesOf;
    ForceHandsAll(states, calls, s, kind, a);
    HandedIsCounted(packets, To(states[|calls| + 1].sent, a), kind, digest, lib);
    AskedOfKind(calls, kind, a);
    SinglesAreCounted(singles, AskedAt(calls, a), kind, digest, lib);
    ServedCounts(packets, kind, digest, lib);
    ServedCounts(singles, kind, digest, lib);
  }
}
