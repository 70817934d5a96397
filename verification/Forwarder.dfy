/** The forwarder: a bounded queue, a worker that batches what it takes from it, and a flag that stops the worker
    (src/forwarder.rs). */
module Forwarders {
  import opened Wrappers
  import opened Engines
  import opened Clients
  import opened Batching

  datatype ForwardRequest = ForwardRequest(digest: string, kind: Kind)

  // ----- the worker's own code -----

  /** What forwarding one request to the first `n` listed servers does to the batches. */
  function Forwarded(o: Outbox, s: Settings, request: ForwardRequest, servers: seq<Address>): Outbox {
    if servers == [] then o
    else
      var n := |servers| - 1;
      Added(Forwarded(o, s, request, servers[..n]), s, request.kind, request.digest, servers[n])
  }

  function ForwardedAll(o: Outbox, s: Settings, requests: seq<ForwardRequest>, servers: seq<Address>): Outbox {
    if requests == [] then o
    else
      var n := |requests| - 1;
      Forwarded(ForwardedAll(o, s, requests[..n], servers), s, requests[n], servers)
  }

  method ForwardOne(client: BatchClient, servers: seq<Address>, request: ForwardRequest)
    modifies client
    ensures client.State() == Forwarded(old(client.State()), client.settings, request, servers)
  {
    hide Added;
    for i := 0 to |servers|
      invariant client.State() == Forwarded(old(client.State()), client.settings, request, servers[..i])
    {
      assert servers[..i + 1][..i] == servers[..i];
      if request.kind.Whitelist? {
        client.WhitelistDigest(request.digest, servers[i]);
      } else {
        client.ReportDigest(request.digest, servers[i]);
      }
    }
    assert servers[..|servers|] == servers;
  }

  /** What one wait for a request may bring: a request, a timeout with the flag as it was read, or the end of all
      senders. */
  datatype Received = Got(request: ForwardRequest) | Timeout(shutdown: bool) | Disconnected

  /** The requests received before the loop ends. */
  function Taken(received: seq<Received>): seq<ForwardRequest> {
    if received == [] then []
    else match received[0]
      case Got(request) => [request] + Taken(received[1..])
      case Timeout(shutdown) => if shutdown then [] else Taken(received[1..])
      case Disconnected => []
  }

  lemma {:induction false} ForwardedAppend(o: Outbox, s: Settings, a: seq<ForwardRequest>, b: seq<ForwardRequest>,
                                           servers: seq<Address>)
    ensures ForwardedAll(o, s, a + b, servers) == ForwardedAll(ForwardedAll(o, s, a, servers), s, b, servers)
  {
    hide Forwarded;
    if b == [] {
      assert a + b == a;
    } else {
      var k := |b| - 1;
      assert (a + b)[..|a| + k] == a + b[..k];
      ForwardedAppend(o, s, a, b[..k], servers);
    }
  }

  lemma ForwardedCons(o: Outbox, s: Settings, request: ForwardRequest, rest: seq<ForwardRequest>, servers: seq<Address>)
    ensures ForwardedAll(o, s, [request] + rest, servers)
         == ForwardedAll(Forwarded(o, s, request, servers), s, rest, servers)
  {
    hide Forwarded;
    ForwardedAppend(o, s, [request], rest, servers);
    assert [request][..0] == [] && ForwardedAll(o, s, [], servers) == o;
    assert ForwardedAll(o, s, [request], servers) == Forwarded(o, s, request, servers);
  }

  /** The worker: receives until it is told to stop or nobody can send, then takes what is left, then forces the open
      batches out. `received` is what the waits bring, `rest` what is left in the queue. */
  method ForwardLoop(client: BatchClient, servers: seq<Address>, received: seq<Received>, rest: seq<ForwardRequest>)
    modifies client
    ensures Forced(ForwardedAll(old(client.State()), client.settings, Taken(received) + rest, servers), client.State())
  {
    hide Forwarded, Forced;
    ghost var start := client.State();
    var i := 0;
    assert received[0..] == received;
    while i < |received|
      invariant i <= |received|
      invariant ForwardedAll(start, client.settings, Taken(received), servers)
             == ForwardedAll(client.State(), client.settings, Taken(received[i..]), servers)
    {
      assert received[i..][1..] == received[i + 1..] && received[i..][0] == received[i];
      match received[i] {
        case Got(request) =>
          ForwardedCons(client.State(), client.settings, request, Taken(received[i + 1..]), servers);
          ForwardOne(client, servers, request);
        case Timeout(shutdown) =>
          if shutdown {
            break;
          }
        case Disconnected =>
          break;
      }
      i := i + 1;
    }
    assert i < |received| || received[i..] == [];
    ghost var looped := client.State();
    for j := 0 to |rest|
      invariant client.State() == ForwardedAll(looped, client.settings, rest[..j], servers)
    {
      assert rest[..j + 1][..j] == rest[..j];
      ForwardOne(client, servers, rest[j]);
    }
    assert rest[..|rest|] == rest;
    ForwardedAppend(start, client.settings, Taken(received), rest, servers);
    client.Force();
  }

  // ----- senders, queue and worker together -----

  datatype Env = Env(servers: seq<Address>, capacity: nat, settings: Settings)

  datatype Phase = Looping | Draining | Forcing | Exited

  /** A request the worker has taken, and the position of the next server to forward it to. */
  datatype Hand = Hand(request: ForwardRequest, next: nat)

  /** `accepted` lists the requests that a send returned successfully for; `mark` is how many there were when the
      worker last found the queue empty. */
  datatype State = State(
    queue: seq<ForwardRequest>,
    accepted: seq<ForwardRequest>,
    senders: nat,
    shutdown: bool,
    phase: Phase,
    hand: Option<Hand>,
    client: Outbox,
    mark: nat,
    joined: bool)

  datatype Action =
    | TrySend(request: ForwardRequest)
    | CloneSender
    | DropSender
    | Stop
    | Join
    | Receive
    | ForwardNext
    | HandDone
    | TimedOut
    | SendersGone
    | FoundEmpty
    | ForceOut

  predicate Idle(s: State, phase: Phase) {
    s.phase == phase && s.hand.None?
  }

  /** One step of one thread. A send never waits: with no queue at all it succeeds only when it meets the waiting
      worker, and may then still miss it. The flag may be read late, but is never read before it is set. */
  ghost predicate Step(e: Env, s: State, action: Action, t: State) {
    match action
    case TrySend(request) =>
      s.senders > 0
      && if s.phase != Exited && |s.queue| < e.capacity then
           t == s.(queue := s.queue + [request], accepted := s.accepted + [request])
         else
           || t == s
           || (e.capacity == 0 && Idle(s, Looping)
               && t == s.(accepted := s.accepted + [request], hand := Some(Hand(request, 0))))
    case CloneSender => s.senders > 0 && t == s.(senders := s.senders + 1)
    case DropSender => s.senders > 0 && t == s.(senders := s.senders - 1)
    case Stop => t == s.(shutdown := true)
    case Join => s.shutdown && s.phase == Exited && t == s.(joined := true)
    case Receive =>
      (Idle(s, Looping) || Idle(s, Draining)) && s.queue != []
      && t == s.(queue := s.queue[1..], hand := Some(Hand(s.queue[0], 0)))
    case ForwardNext =>
      s.hand.Some? && s.hand.value.next < |e.servers|
      && var h := s.hand.value;
         t == s.(client := Added(s.client, e.settings, h.request.kind, h.request.digest, e.servers[h.next]),
                 hand := Some(h.(next := h.next + 1)))
    case HandDone => s.hand.Some? && s.hand.value.next == |e.servers| && t == s.(hand := None)
    case TimedOut => Idle(s, Looping) && (t == s || (s.shutdown && t == s.(phase := Draining)))
    case SendersGone => Idle(s, Looping) && s.senders == 0 && s.queue == [] && t == s.(phase := Draining)
    case FoundEmpty => Idle(s, Draining) && s.queue == [] && t == s.(phase := Forcing, mark := |s.accepted|)
    case ForceOut => s.phase == Forcing && Forced(s.client, t.client) && t == s.(client := t.client, phase := Exited)
  }

  const START: State := State([], [], 1, false, Looping, None, IDLE, 0, false)

  ghost predicate Execution(e: Env, states: seq<State>, actions: seq<Action>) {
    && |states| == |actions| + 1 && states[0] == START
    && forall k | 0 <= k < |actions| :: Step(e, states[k], actions[k], states[k + 1])
  }

  // ----- what is conserved -----

  /** How often an address is listed. */
  function Listed(servers: seq<Address>, a: Address): nat {
    if servers == [] then 0 else (if servers[0] == a then 1 else 0) + Listed(servers[1..], a)
  }

  function Times(digest: string, n: nat): seq<string> {
    if n == 0 then [] else [digest] + Times(digest, n - 1)
  }

  /** The digests of one kind among some requests, each as often as the address is listed. */
  function Expected(requests: seq<ForwardRequest>, kind: Kind, n: nat): seq<string> {
    if requests == [] then []
    else (if requests[0].kind == kind then Times(requests[0].digest, n) else []) + Expected(requests[1..], kind, n)
  }

  /** What the request in hand still has to bring. */
  function InHand(e: Env, s: State, kind: Kind, a: Address): seq<string> {
    if s.hand.Some? && s.hand.value.request.kind == kind && s.hand.value.next <= |e.servers| then
      Times(s.hand.value.request.digest, Listed(e.servers[s.hand.value.next..], a))
    else []
  }

  predicate BalancedAt(e: Env, s: State, kind: Kind, a: Address) {
    var n := Listed(e.servers, a);
    Through(s.client, kind, a) + InHand(e, s, kind, a) + Expected(s.queue, kind, n) == Expected(s.accepted, kind, n)
  }

  ghost predicate Balanced(e: Env, s: State) {
    forall kind: Kind, a: Address :: BalancedAt(e, s, kind, a)
  }

  ghost predicate Settled(s: State) {
    && (s.phase == Forcing || s.phase == Exited ==>
          s.hand.None? && s.mark <= |s.accepted| && s.queue == s.accepted[s.mark..])
    && (s.phase == Exited ==> forall kind: Kind, a: Address :: Waiting(s.client, kind, a) == [])
    && (s.joined ==> s.phase == Exited)
  }

  predicate InBounds(e: Env, s: State) {
    && |s.queue| <= e.capacity
    && (s.hand.Some? ==> s.hand.value.next <= |e.servers|)
  }

  ghost predicate Inv(e: Env, s: State) {
    InBounds(e, s) && OpenInv(s.client, e.settings) && Balanced(e, s) && Settled(s)
  }

  lemma {:induction false} ExpectedAppend(a: seq<ForwardRequest>, b: seq<ForwardRequest>, kind: Kind, n: nat)
    ensures Expected(a + b, kind, n) == Expected(a, kind, n) + Expected(b, kind, n)
  {
    hide Times;
    if a == [] {
      assert a + b == b;
    } else {
      assert (a + b)[1..] == a[1..] + b;
      ExpectedAppend(a[1..], b, kind, n);
    }
  }

  lemma ExpectedOne(request: ForwardRequest, kind: Kind, n: nat)
    ensures Expected([request], kind, n) == if request.kind == kind then Times(request.digest, n) else []
  {
    hide Times;
    assert [request][1..] == [];
  }

  lemma StartInv(e: Env)
    ensures Inv(e, START)
  {
    IdleKeeps(e.settings);
    forall kind: Kind, a: Address
      ensures BalancedAt(e, START, kind, a)
    {
    }
  }

  lemma SendBalances(e: Env, s: State, t: State, request: ForwardRequest)
    requires Inv(e, s) && Step(e, s, TrySend(request), t)
    ensures Balanced(e, t)
  {
    hide Through, Times, Listed, Expected, OpenInv;
    if t != s {
      forall kind: Kind, a: Address
        ensures BalancedAt(e, t, kind, a)
      {
        var n := Listed(e.servers, a);
        assert BalancedAt(e, s, kind, a);
        ExpectedAppend(s.accepted, [request], kind, n);
        ExpectedAppend(s.queue, [request], kind, n);
        ExpectedOne(request, kind, n);
        if e.capacity == 0 {
          assert s.queue == [] && e.servers[0..] == e.servers;
          ExpectedNothing(kind, n);
        }
      }
    }
  }

  lemma ExpectedNothing(kind: Kind, n: nat)
    ensures Expected([], kind, n) == []
  {
  }

  lemma ReceiveBalances(e: Env, s: State, t: State)
    requires Inv(e, s) && Step(e, s, Receive, t)
    ensures Balanced(e, t)
  {
    hide Through, Times, Listed, OpenInv;
    forall kind: Kind, a: Address
      ensures BalancedAt(e, t, kind, a)
    {
      assert BalancedAt(e, s, kind, a);
      assert e.servers[0..] == e.servers;
    }
  }

  lemma ForwardBalances(e: Env, s: State, t: State)
    requires Inv(e, s) && Step(e, s, ForwardNext, t)
    ensures Balanced(e, t)
  {
    hide BalancedAt, OpenInv, Added;
    forall kind: Kind, a: Address
      ensures BalancedAt(e, t, kind, a)
    {
      assert BalancedAt(e, s, kind, a);
      ForwardBalancesAt(e, s, t, kind, a);
    }
  }

  /** The digest a worker is about to add: one for the server it has come to. */
  function Adding(e: Env, s: State, kind: Kind, a: Address): seq<string>
    requires s.hand.Some? && s.hand.value.next < |e.servers|
  {
    var h := s.hand.value;
    if kind == h.request.kind && a == e.servers[h.next] then [h.request.digest] else []
  }

  lemma HandStep(e: Env, s: State, t: State, kind: Kind, a: Address)
    requires s.hand.Some? && s.hand.value.next < |e.servers|
    requires t.hand == Some(s.hand.value.(next := s.hand.value.next + 1))
    ensures InHand(e, s, kind, a) == Adding(e, s, kind, a) + InHand(e, t, kind, a)
  {
    var next := s.hand.value.next;
    assert e.servers[next..][1..] == e.servers[next + 1..] && e.servers[next..][0] == e.servers[next];
  }

  lemma ForwardBalancesAt(e: Env, s: State, t: State, kind: Kind, a: Address)
    requires InBounds(e, s) && OpenInv(s.client, e.settings) && BalancedAt(e, s, kind, a)
    requires Step(e, s, ForwardNext, t)
    ensures BalancedAt(e, t, kind, a)
  {
    hide Through, Expected, OpenInv, Added, InHand, Listed;
    var h := s.hand.value;
    AddedThrough(s.client, e.settings, h.request.kind, h.request.digest, e.servers[h.next], kind, a);
    HandStep(e, s, t, kind, a);
    Move(Through(s.client, kind, a), Adding(e, s, kind, a), InHand(e, t, kind, a));
  }

  lemma Move<T>(a: seq<T>, b: seq<T>, c: seq<T>)
    ensures a + (b + c) == a + b + c
  {
  }

  lemma DoneBalances(e: Env, s: State, t: State)
    requires Inv(e, s) && Step(e, s, HandDone, t)
    ensures Balanced(e, t)
  {
    hide Through, Expected, OpenInv;
    forall kind: Kind, a: Address
      ensures BalancedAt(e, t, kind, a)
    {
      assert BalancedAt(e, s, kind, a);
      assert e.servers[|e.servers|..] == [];
    }
  }

  lemma ForceBalances(e: Env, s: State, t: State)
    requires Inv(e, s) && Step(e, s, ForceOut, t)
    ensures Balanced(e, t) && OpenInv(t.client, e.settings)
    ensures forall kind: Kind, a: Address :: Waiting(t.client, kind, a) == []
  {
    hide Through, Expected, OpenInv, Forced, Waiting, Listed;
    forall kind: Kind, a: Address
      ensures BalancedAt(e, t, kind, a)
    {
      assert BalancedAt(e, s, kind, a);
      ForcedThrough(s.client, t.client, e.settings, kind, a);
    }
    forall kind: Kind, a: Address
      ensures Waiting(t.client, kind, a) == []
    {
      ForcedThrough(s.client, t.client, e.settings, kind, a);
    }
    ForcedOpen(s.client, t.client, e.settings);
  }

  lemma ForcedOpen(o: Outbox, after: Outbox, s: Settings)
    requires Forced(o, after)
    ensures OpenInv(after, s)
  {
    hide IsBatch, To;
    assert forall k: Kind, a: Address :: OpenAt(after, s, k, a);
  }

  lemma SameBalance(e: Env, s: State, t: State)
    requires Balanced(e, s) && t.client == s.client && t.hand == s.hand && t.queue == s.queue && t.accepted == s.accepted
    ensures Balanced(e, t)
  {
    hide Through, Expected, Listed, Times;
    forall kind: Kind, a: Address
      ensures BalancedAt(e, t, kind, a)
    {
      assert BalancedAt(e, s, kind, a);
    }
  }

  lemma StepBalances(e: Env, s: State, action: Action, t: State)
    requires Inv(e, s) && Step(e, s, action, t)
    ensures Balanced(e, t)
  {
    hide Balanced, OpenInv, Settled, Added, Forced;
    match action {
      case TrySend(request) => SendBalances(e, s, t, request);
      case Receive => ReceiveBalances(e, s, t);
      case ForwardNext => ForwardBalances(e, s, t);
      case HandDone => DoneBalances(e, s, t);
      case ForceOut => ForceBalances(e, s, t);
      case _ => SameBalance(e, s, t);
    }
  }

  lemma StepKeeps(e: Env, s: State, action: Action, t: State)
    requires Inv(e, s) && Step(e, s, action, t)
    ensures Inv(e, t)
  {
    hide Balanced, OpenInv, Added, Forced, Waiting;
    StepBalances(e, s, action, t);
    match action {
      case ForwardNext =>
        var h := s.hand.value;
        AddKeepsOpen(s.client, e.settings, h.request.kind, h.request.digest, e.servers[h.next]);
      case ForceOut => ForceBalances(e, s, t);
      case _ =>
    }
  }

  /** The invariant holds in every state that any interleaving reaches. */
  lemma {:induction false} Reachable(e: Env, states: seq<State>, actions: seq<Action>)
    requires Execution(e, states, actions)
    ensures Inv(e, states[|actions|])
    decreases |actions|
  {
    hide Inv, Step;
    if actions == [] {
      StartInv(e);
    } else {
      var k := |actions| - 1;
      assert Execution(e, states[..k + 1], actions[..k]);
      Reachable(e, states[..k + 1], actions[..k]);
      StepKeeps(e, states[k], actions[k], states[k + 1]);
    }
  }

  /** In every reachable state, for each address and kind: the digests handed over, then those waiting, then those in
      hand, then those queued, are the accepted ones in order, each as often as the address is listed. The queue never
      holds more than its capacity. */
  lemma NothingLost(e: Env, states: seq<State>, actions: seq<Action>, kind: Kind, a: Address)
    requires Execution(e, states, actions)
    ensures
      var s := states[|actions|];
      var n := Listed(e.servers, a);
      && |s.queue| <= e.capacity
      && Handed(To(s.client.sent, a), kind) + Waiting(s.client, kind, a) + InHand(e, s, kind, a)
         + Expected(s.queue, kind, n)
         == Expected(s.accepted, kind, n)
  {
    hide Step, OpenInv, Settled, Handed, To, Waiting, Expected, Listed, InHand;
    Reachable(e, states, actions);
    assert BalancedAt(e, states[|actions|], kind, a);
  }

  /** Once the worker has exited, nothing waits, and exactly the requests accepted before it last found the queue empty
      have been handed over; those accepted after that are still in the queue. */
  lemma AllHandedOnExit(e: Env, states: seq<State>, actions: seq<Action>, kind: Kind, a: Address)
    requires Execution(e, states, actions) && states[|actions|].phase == Exited
    ensures
      var s := states[|actions|];
      && s.mark <= |s.accepted| && s.queue == s.accepted[s.mark..]
      && Waiting(s.client, kind, a) == []
      && Handed(To(s.client.sent, a), kind) == Expected(s.accepted[..s.mark], kind, Listed(e.servers, a))
  {
    hide Step, OpenInv, Handed, To, Waiting, Expected, Listed;
    Reachable(e, states, actions);
    var s := states[|actions|];
    var n := Listed(e.servers, a);
    NothingLost(e, states, actions, kind, a);
    assert s.accepted == s.accepted[..s.mark] + s.queue;
    ExpectedAppend(s.accepted[..s.mark], s.queue, kind, n);
    CancelTail(Handed(To(s.client.sent, a), kind), Expected(s.accepted[..s.mark], kind, n), Expected(s.queue, kind, n));
  }

  lemma CancelTail<T>(a: seq<T>, b: seq<T>, c: seq<T>)
    requires a + [] + [] + c == b + c
    ensures a == b
  {
    assert a == (a + [] + [] + c)[..|a|] && b == (b + c)[..|b|];
    assert |a| == |b|;
  }

  // ----- the worker's own code hands over all it takes -----

  lemma {:induction false} ForwardedOnce(o: Outbox, s: Settings, request: ForwardRequest, servers: seq<Address>, kind: Kind,
                                         a: Address)
    requires OpenInv(o, s)
    ensures
      var after := Forwarded(o, s, request, servers);
      && OpenInv(after, s)
      && Through(after, kind, a)
         == Through(o, kind, a) + if request.kind == kind then Times(request.digest, Listed(servers, a)) else []
  {
    hide Added, OpenInv, Through;
    if servers == [] {
      assert Through(o, kind, a) + [] == Through(o, kind, a);
    } else {
      var n := |servers| - 1;
      var before := Forwarded(o, s, request, servers[..n]);
      ForwardedOnce(o, s, request, servers[..n], kind, a);
      AddKeepsOpen(before, s, request.kind, request.digest, servers[n]);
      AddedThrough(before, s, request.kind, request.digest, servers[n], kind, a);
      ListedSnoc(servers, a);
      TimesSnoc(request.digest, Listed(servers[..n], a));
    }
  }

  lemma {:induction false} ListedSnoc(servers: seq<Address>, a: Address)
    requires servers != []
    ensures
      var n := |servers| - 1;
      Listed(servers, a) == Listed(servers[..n], a) + if servers[n] == a then 1 else 0
  {
    if |servers| > 1 {
      ListedSnoc(servers[1..], a);
      assert servers[1..][..|servers| - 2] == servers[..|servers| - 1][1..];
    }
  }

  lemma {:induction false} TimesSnoc(digest: string, n: nat)
    ensures Times(digest, n + 1) == Times(digest, n) + [digest]
  {
    if n > 0 {
      TimesSnoc(digest, n - 1);
    }
  }

  lemma {:induction false} ForwardedThrough(o: Outbox, s: Settings, requests: seq<ForwardRequest>, servers: seq<Address>,
                                            kind: Kind, a: Address)
    requires OpenInv(o, s)
    ensures
      var after := ForwardedAll(o, s, requests, servers);
      && OpenInv(after, s)
      && Through(after, kind, a) == Through(o, kind, a) + Expected(requests, kind, Listed(servers, a))
  {
    hide Forwarded, OpenInv, Through, Times, Listed;
    if requests == [] {
      assert Through(o, kind, a) + [] == Through(o, kind, a);
    } else {
      var k := |requests| - 1;
      var n := Listed(servers, a);
      ForwardedThrough(o, s, requests[..k], servers, kind, a);
      ForwardedOnce(ForwardedAll(o, s, requests[..k], servers), s, requests[k], servers, kind, a);
      assert requests == requests[..k] + [requests[k]];
      ExpectedAppend(requests[..k], [requests[k]], kind, n);
      ExpectedOne(requests[k], kind, n);
    }
  }

  /** What a worker that starts without open batches ends with: every request it took has been handed over, for every
      listing of a server, in order, and nothing waits. */
  lemma LoopHandsAll(s: Settings, requests: seq<ForwardRequest>, servers: seq<Address>, after: Outbox, kind: Kind,
                     a: Address)
    requires Forced(ForwardedAll(IDLE, s, requests, servers), after)
    ensures Handed(To(after.sent, a), kind) == Expected(requests, kind, Listed(servers, a))
    ensures Waiting(after, kind, a) == []
  {
    hide ForwardedAll, OpenInv, Listed, Expected, Forced, Through, Handed, To;
    IdleKeeps(s);
    ForwardedThrough(IDLE, s, requests, servers, kind, a);
    ForcedThrough(ForwardedAll(IDLE, s, requests, servers), after, s, kind, a);
    NothingThrough(kind, a);
    ForcedWaiting(ForwardedAll(IDLE, s, requests, servers), after, kind, a);
  }

  lemma NothingThrough(kind: Kind, a: Address)
    ensures Through(IDLE, kind, a) == []
  {
  }

  lemma ForcedWaiting(o: Outbox, after: Outbox, kind: Kind, a: Address)
    requires Forced(o, after)
    ensures Waiting(after, kind, a) == [] && Through(after, kind, a) == Handed(To(after.sent, a), kind)
  {
    hide To, Handed;
    assert Handed(To(after.sent, a), kind) + [] == Handed(To(after.sent, a), kind);
  }

  predicate GoesOn(r: Received) {
    r.Got? || r == Timeout(false)
  }

  function Gots(received: seq<Received>): seq<ForwardRequest> {
    if received == [] then []
    else
      var last := received[|received| - 1];
      Gots(received[..|received| - 1]) + if last.Got? then [last.request] else []
  }

  /** The loop ends at the first timeout that finds the flag set, or when all senders are gone, and not before. */
  lemma {:induction false} TakenUntilStop(received: seq<Received>, stop: Received, rest: seq<Received>)
    requires (forall k | 0 <= k < |received| :: GoesOn(received[k])) && !GoesOn(stop)
    ensures Taken(received + [stop] + rest) == Gots(received)
  {
    if received == [] {
      assert (received + [stop] + rest)[0] == stop;
    } else {
      var all := received + [stop] + rest;
      assert all[0] == received[0] && all[1..] == received[1..] + [stop] + rest;
      TakenUntilStop(received[1..], stop, rest);
      GotsFirst(received);
    }
  }

  lemma {:induction false} GotsFirst(received: seq<Received>)
    requires received != []
    ensures Gots(received) == (if received[0].Got? then [received[0].request] else []) + Gots(received[1..])
  {
    if |received| > 1 {
      GotsFirst(received[..|received| - 1]);
      assert received[..|received| - 1][1..] == received[1..][..|received| - 2];
    }
  }

  // ----- stopping -----

  /** Without a stop, the worker ends only once all senders are gone, and nothing is accepted after that. */
  predicate Unstopped(s: State) {
    !s.shutdown && s.phase != Looping ==>
      s.senders == 0 && (s.phase == Forcing || s.phase == Exited ==> s.mark == |s.accepted|)
  }

  /** If the worker has found the queue empty, it was after these requests were accepted. */
  predicate Covers(s: State, before: seq<ForwardRequest>) {
    before <= s.accepted && (s.phase == Forcing || s.phase == Exited ==> |before| <= s.mark)
  }

  lemma UnstoppedStep(e: Env, s: State, action: Action, t: State)
    requires Unstopped(s) && Step(e, s, action, t)
    ensures Unstopped(t)
  {
    hide Added, Forced;
  }

  lemma CoversStep(e: Env, s: State, action: Action, t: State, before: seq<ForwardRequest>)
    requires Covers(s, before) && Step(e, s, action, t)
    ensures Covers(t, before)
  {
    hide Added, Forced;
  }

  lemma {:induction false} UnstoppedAt(e: Env, states: seq<State>, actions: seq<Action>, i: nat)
    requires Execution(e, states, actions) && i <= |actions|
    ensures Unstopped(states[i])
  {
    hide Step, Unstopped;
    if i == 0 {
      NotStopped();
    } else {
      UnstoppedAt(e, states, actions, i - 1);
      UnstoppedStep(e, states[i - 1], actions[i - 1], states[i]);
    }
  }

  lemma NotStopped()
    ensures Unstopped(START)
  {
  }

  lemma {:induction false} CoversAt(e: Env, states: seq<State>, actions: seq<Action>, i: nat, j: nat)
    requires Execution(e, states, actions) && i <= j <= |actions| && !states[i].shutdown
    ensures Covers(states[j], states[i].accepted)
  {
    hide Step;
    if i == j {
      UnstoppedAt(e, states, actions, i);
    } else {
      CoversAt(e, states, actions, i, j - 1);
      CoversStep(e, states[j - 1], actions[j - 1], states[j], states[i].accepted);
    }
  }

  /** Once a stop has returned, whatever was accepted before it was called has been handed over, ahead of the rest. */
  lemma StopHandsOver(e: Env, states: seq<State>, actions: seq<Action>, i: nat, kind: Kind, a: Address)
    requires Execution(e, states, actions) && i <= |actions| && !states[i].shutdown && states[|actions|].joined
    ensures
      Expected(states[i].accepted, kind, Listed(e.servers, a)) <= Handed(To(states[|actions|].client.sent, a), kind)
  {
    hide Step, OpenInv, Handed, To, Waiting, Expected, Listed;
    Reachable(e, states, actions);
    AllHandedOnExit(e, states, actions, kind, a);
    CoversAt(e, states, actions, i, |actions|);
    var before, s := states[i].accepted, states[|actions|];
    assert s.accepted[..s.mark] == before + s.accepted[|before|..s.mark];
    ExpectedAppend(before, s.accepted[|before|..s.mark], kind, Listed(e.servers, a));
  }
}
