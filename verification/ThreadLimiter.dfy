/** The counting semaphore that bounds the server's worker threads: a mutex, a count and a condition variable
    (ThreadLimiter and ThreadPermit of src/server.rs). */
module ThreadLimiters {
  import opened Wrappers

  /** Where a thread is.
      Acquiring: Wanting the mutex, Checking the count while it holds the mutex, Sleeping on the condition variable,
      or Woken and in need of the mutex again. Then Holding a permit. Dropping it needs the mutex, which is kept
      while Decrementing the count and while Notifying. */
  datatype Place = Idle | Wanting | Checking | Sleeping | Woken | Holding | Dropping | Decrementing | Notifying

  /** `max` is fixed; `owner` is the thread that holds the mutex. */
  datatype State = State(places: seq<Place>, active: nat, owner: Option<nat>)

  datatype Action =
    | Ask(i: nat)
    | Lock(i: nat)
    | Check(i: nat)
    | WakeUp(i: nat)
    | HandOver(i: nat, j: nat)
    | Drop(i: nat)
    | LockToDrop(i: nat)
    | Decrement(i: nat)
    | NotifyOne(i: nat, j: nat)
    | NotifyNobody(i: nat)

  predicate At(s: State, i: nat, place: Place) {
    i < |s.places| && s.places[i] == place
  }

  function SaturatingSub(a: nat, b: nat): nat {
    if a < b then 0 else a - b
  }

  function Move(s: State, i: nat, place: Place): State
    requires i < |s.places|
  {
    s.(places := s.places[i := place])
  }

  /** One step of one thread. Wake-ups may be spurious, a waking thread must take the mutex again and look again, and
      any thread may come first. A permit may move to another thread. */
  predicate Step(max: nat, s: State, action: Action, t: State) {
    match action
    case Ask(i) => At(s, i, Idle) && t == Move(s, i, Wanting)
    case Lock(i) =>
      (At(s, i, Wanting) || At(s, i, Woken)) && s.owner.None? && t == Move(s, i, Checking).(owner := Some(i))
    case Check(i) =>
      At(s, i, Checking)
      && t == (if s.active >= max then Move(s, i, Sleeping) else Move(s, i, Holding).(active := s.active + 1))
              .(owner := None)
    case WakeUp(i) => At(s, i, Sleeping) && t == Move(s, i, Woken)
    case HandOver(i, j) => At(s, i, Holding) && At(s, j, Idle) && t == Move(Move(s, i, Idle), j, Holding)
    case Drop(i) => At(s, i, Holding) && t == Move(s, i, Dropping)
    case LockToDrop(i) =>
      At(s, i, Dropping) && s.owner.None? && t == Move(s, i, Decrementing).(owner := Some(i))
    case Decrement(i) =>
      At(s, i, Decrementing) && t == Move(s, i, Notifying).(active := SaturatingSub(s.active, 1))
    case NotifyOne(i, j) =>
      At(s, i, Notifying) && At(s, j, Sleeping) && t == Move(Move(s, j, Woken), i, Idle).(owner := None)
    case NotifyNobody(i) =>
      At(s, i, Notifying) && Number(s.places, Sleeping) == 0 && t == Move(s, i, Idle).(owner := None)
  }

  function Number(places: seq<Place>, place: Place): nat {
    multiset(places)[place]
  }

  predicate Initial(s: State) {
    s.active == 0 && s.owner.None? && forall i | 0 <= i < |s.places| :: s.places[i] == Idle
  }

  predicate Execution(max: nat, states: seq<State>, actions: seq<Action>) {
    && |states| == |actions| + 1 && Initial(states[0])
    && forall k | 0 <= k < |actions| :: Step(max, states[k], actions[k], states[k + 1])
  }

  // ----- the invariant -----

  /** Permits whose count has not been taken back yet. */
  function Permits(places: seq<Place>): nat {
    Number(places, Holding) + Number(places, Dropping) + Number(places, Decrementing)
  }

  /** Threads that will look at the count, or wake one that will, without anybody's help. */
  function Awake(places: seq<Place>): nat {
    Number(places, Woken) + Number(places, Checking) + Number(places, Notifying)
  }

  predicate NeedsMutex(place: Place) {
    place == Checking || place == Decrementing || place == Notifying
  }

  predicate MutexInv(s: State) {
    forall i | 0 <= i < |s.places| :: NeedsMutex(s.places[i]) <==> s.owner == Some(i)
  }

  predicate CountInv(max: nat, s: State) {
    s.active == Permits(s.places) && s.active <= max
  }

  predicate WakeInv(max: nat, s: State) {
    Number(s.places, Sleeping) > 0 ==> Awake(s.places) + s.active >= max
  }

  predicate Inv(max: nat, s: State) {
    MutexInv(s) && CountInv(max, s) && WakeInv(max, s)
  }

  predicate IsPermit(place: Place) {
    place == Holding || place == Dropping || place == Decrementing
  }

  predicate IsAwake(place: Place) {
    place == Woken || place == Checking || place == Notifying
  }

  lemma MovedNumber(places: seq<Place>, i: nat, place: Place, p: Place)
    requires i < |places|
    ensures Number(places, places[i]) > 0
    ensures Number(places[i := place], p)
         == Number(places, p) + (if p == place then 1 else 0) - (if p == places[i] then 1 else 0)
  {
    assert places[i] in multiset(places);
  }

  /** What one thread's move does to the numbers. */
  lemma Moved(places: seq<Place>, i: nat, place: Place)
    requires i < |places|
    ensures
      var next, was := places[i := place], places[i];
      && Permits(next) == Permits(places) + (if IsPermit(place) then 1 else 0) - (if IsPermit(was) then 1 else 0)
      && Awake(next) == Awake(places) + (if IsAwake(place) then 1 else 0) - (if IsAwake(was) then 1 else 0)
      && Number(next, Sleeping)
         == Number(places, Sleeping) + (if place == Sleeping then 1 else 0) - (if was == Sleeping then 1 else 0)
      && (IsPermit(was) ==> Permits(places) > 0)
  {
    hide Number;
    MovedNumber(places, i, place, Holding);
    MovedNumber(places, i, place, Dropping);
    MovedNumber(places, i, place, Decrementing);
    MovedNumber(places, i, place, Woken);
    MovedNumber(places, i, place, Checking);
    MovedNumber(places, i, place, Notifying);
    MovedNumber(places, i, place, Sleeping);
  }

  lemma NobodyElsewhere(places: seq<Place>, place: Place)
    requires forall i | 0 <= i < |places| :: places[i] == Idle
    ensures place != Idle ==> multiset(places)[place] == 0
  {
    assert place != Idle ==> place !in places;
  }

  lemma InitialInv(max: nat, s: State)
    requires Initial(s)
    ensures Inv(max, s)
  {
    NobodyElsewhere(s.places, Holding);
    NobodyElsewhere(s.places, Dropping);
    NobodyElsewhere(s.places, Decrementing);
    NobodyElsewhere(s.places, Sleeping);
  }

  lemma MutexStep(max: nat, s: State, action: Action, t: State)
    requires Inv(max, s) && Step(max, s, action, t)
    ensures MutexInv(t)
  {
    hide Number;
  }

  lemma CountAcquire(max: nat, s: State, action: Action, t: State)
    requires action.Ask? || action.Lock? || action.Check? || action.WakeUp?
    requires CountInv(max, s) && WakeInv(max, s) && Step(max, s, action, t)
    ensures CountInv(max, t) && WakeInv(max, t)
  {
    hide Number, Permits, Awake;
    Moved(s.places, action.i, match action
                              case Ask(_) => Wanting
                              case Lock(_) => Checking
                              case WakeUp(_) => Woken
                              case _ => if s.active >= max then Sleeping else Holding);
  }

  lemma CountRelease(max: nat, s: State, action: Action, t: State)
    requires action.Drop? || action.LockToDrop? || action.Decrement? || action.NotifyNobody?
    requires CountInv(max, s) && WakeInv(max, s) && Step(max, s, action, t)
    ensures CountInv(max, t) && WakeInv(max, t)
  {
    hide Number, Permits, Awake;
    Moved(s.places, action.i, match action
                              case Drop(_) => Dropping
                              case LockToDrop(_) => Decrementing
                              case Decrement(_) => Notifying
                              case _ => Idle);
  }

  lemma CountPair(max: nat, s: State, action: Action, t: State)
    requires action.HandOver? || action.NotifyOne?
    requires CountInv(max, s) && WakeInv(max, s) && Step(max, s, action, t)
    ensures CountInv(max, t) && WakeInv(max, t)
  {
    hide Number, Permits, Awake;
    if action.HandOver? {
      Moved(s.places, action.i, Idle);
      Moved(s.places[action.i := Idle], action.j, Holding);
    } else {
      Moved(s.places, action.j, Woken);
      Moved(s.places[action.j := Woken], action.i, Idle);
    }
  }

  lemma CountStep(max: nat, s: State, action: Action, t: State)
    requires Inv(max, s) && Step(max, s, action, t)
    ensures CountInv(max, t) && WakeInv(max, t)
  {
    hide MutexInv, CountInv, WakeInv, Step;
    if action.HandOver? || action.NotifyOne? {
      CountPair(max, s, action, t);
    } else if action.Ask? || action.Lock? || action.Check? || action.WakeUp? {
      CountAcquire(max, s, action, t);
    } else {
      CountRelease(max, s, action, t);
    }
  }

  /** The invariant holds in every state that any interleaving of any number of threads reaches. */
  lemma {:induction false} Reachable(max: nat, states: seq<State>, actions: seq<Action>)
    requires Execution(max, states, actions)
    ensures Inv(max, states[|actions|])
    decreases |actions|
  {
    hide MutexInv, CountInv, WakeInv, Step;
    if actions == [] {
      InitialInv(max, states[0]);
    } else {
      var k := |actions| - 1;
      assert Execution(max, states[..k + 1], actions[..k]);
      Reachable(max, states[..k + 1], actions[..k]);
      MutexStep(max, states[k], actions[k], states[k + 1]);
      CountStep(max, states[k], actions[k], states[k + 1]);
    }
  }

  /** Never more than `max` permits at once, and the count is their number; the subtraction never saturates. */
  lemma PermitsBounded(max: nat, states: seq<State>, actions: seq<Action>, i: nat)
    requires Execution(max, states, actions)
    ensures
      var s := states[|actions|];
      && s.active == Permits(s.places) <= max
      && (At(s, i, Decrementing) ==> SaturatingSub(s.active, 1) == s.active - 1)
  {
    hide Step;
    Reachable(max, states, actions);
    var s := states[|actions|];
    if At(s, i, Decrementing) {
      Moved(s.places, i, Idle);
    }
  }

  /** While the mutex is free, the woken threads are at least as many as the permits that are left, as long as any
      thread sleeps. */
  lemma NoLostWakeup(max: nat, states: seq<State>, actions: seq<Action>)
    requires Execution(max, states, actions)
    ensures
      var s := states[|actions|];
      s.owner.None? && Number(s.places, Sleeping) > 0 ==> Number(s.places, Woken) >= max - s.active
  {
    hide Step;
    Reachable(max, states, actions);
    var s := states[|actions|];
    if s.owner.None? {
      assert forall i | 0 <= i < |s.places| :: !NeedsMutex(s.places[i]);
      assert Checking !in s.places && Notifying !in s.places;
    }
  }

  /** No thread sleeps for good while the others are done: with at least one permit, whenever a thread sleeps there is
      a thread that is neither asleep nor idle. */
  lemma SleepersAreNotAlone(max: nat, states: seq<State>, actions: seq<Action>)
    requires Execution(max, states, actions) && max > 0
    requires Sleeping in states[|actions|].places
    ensures exists i :: 0 <= i < |states[|actions|].places|
              && states[|actions|].places[i] in {Woken, Checking, Notifying, Holding, Dropping, Decrementing}
  {
    hide Step;
    Reachable(max, states, actions);
    var s := states[|actions|];
    assert Sleeping in multiset(s.places);
    assert Awake(s.places) + Permits(s.places) > 0;
    var place :| place in {Woken, Checking, Notifying, Holding, Dropping, Decrementing} && Number(s.places, place) > 0;
    assert place in multiset(s.places);
  }
}
