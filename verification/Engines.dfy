/** The stores of digest records and their batch updates (src/engines.rs, src/redis_engine.rs). */
module Engines {
  import opened Wrappers
  import opened Errors
  import opened Text
  import opened LocalTime
  import opened Records

  /** `isize::MAX` of a 64-bit target. */
  const CAP: i64 := I64_MAX

  datatype Kind = Report | Whitelist

  type Store = map<string, Record>

  // ----- one update -----

  function RIncremented(r: Record, now: i64): Record {
    r.(rCount := if r.rCount < CAP then r.rCount + 1 else r.rCount,
       rEntered := if r.rEntered.None? then Some(now) else r.rEntered,
       rUpdated := Some(now))
  }

  function WlIncremented(r: Record, now: i64): Record {
    r.(wlCount := if r.wlCount < CAP then r.wlCount + 1 else r.wlCount,
       wlEntered := if r.wlEntered.None? then Some(now) else r.wlEntered,
       wlUpdated := Some(now))
  }

  function Incremented(r: Record, kind: Kind, now: i64): Record {
    match kind
    case Report => RIncremented(r, now)
    case Whitelist => WlIncremented(r, now)
  }

  function Lookup(store: Store, digest: string): Record {
    if digest in store then store[digest] else DEFAULT
  }

  /** One digest of a batch, with the clock as it was read for it. */
  datatype Update = Update(kind: Kind, digest: string, now: i64)

  function Applied(store: Store, u: Update): Store {
    store[u.digest := Incremented(Lookup(store, u.digest), u.kind, u.now)]
  }

  function Run(store: Store, updates: seq<Update>): Store {
    if updates == [] then store else Applied(Run(store, updates[..|updates| - 1]), updates[|updates| - 1])
  }

  /** The updates of one batch; `times` are the readings of the clock, one for each digest. */
  function UpdatesOf(kind: Kind, digests: seq<string>, times: seq<i64>): (us: seq<Update>)
    requires |times| == |digests|
    ensures |us| == |digests|
  {
    seq(|digests|, i requires 0 <= i < |digests| => Update(kind, digests[i], times[i]))
  }

  lemma UpdatesPrefix(kind: Kind, digests: seq<string>, times: seq<i64>, i: nat)
    requires |times| == |digests| && i < |digests|
    ensures UpdatesOf(kind, digests, times)[..i + 1]
         == UpdatesOf(kind, digests, times)[..i] + [Update(kind, digests[i], times[i])]
  {
  }

  lemma RunSnoc(store: Store, updates: seq<Update>, u: Update)
    ensures Run(store, updates + [u]) == Applied(Run(store, updates), u)
  {
    assert (updates + [u])[..|updates|] == updates;
  }

  // ----- the stores -----

  /** Records in memory. */
  class FileDatabase {
    var records: Store

    constructor ()
      ensures records == map[]
    {
      records := map[];
    }

    function Get(digest: string): Record
      reads this
    {
      Lookup(records, digest)
    }

    method Set(digest: string, record: Record)
      modifies this
      ensures records == old(records)[digest := record]
    {
      records := records[digest := record];
    }

    method UpdateAll(kind: Kind, digests: seq<string>, times: seq<i64>)
      requires |times| == |digests|
      modifies this
      ensures records == Run(old(records), UpdatesOf(kind, digests, times))
    {
      hide Applied, UpdatesOf;
      ghost var us := UpdatesOf(kind, digests, times);
      for i := 0 to |digests|
        invariant records == Run(old(records), us[..i])
      {
        UpdatesPrefix(kind, digests, times, i);
        RunSnoc(old(records), us[..i], us[i]);
        ghost var before := records;
        var record := Get(digests[i]);
        record := Incremented(record, kind, times[i]);
        records := records[digests[i] := record];
        ApplyOne(before, us[i]);
      }
      assert us[..|digests|] == us;
    }
  }

  lemma ApplyOne(store: Store, u: Update)
    ensures Applied(store, u) == store[u.digest := Incremented(Lookup(store, u.digest), u.kind, u.now)]
  {
  }

  const REDIS_V0_NAMESPACE: string := "pyzord.digest"

  function RedisV0Key(digest: string): string {
    REDIS_V0_NAMESPACE + "." + digest
  }

  type Texts = map<string, string>

  /** One get-increment-set on records stored as text; a text that is no record is an error. */
  function TextApplied(values: Texts, u: Update): Option<Texts> {
    var key := RedisV0Key(u.digest);
    var record := if key in values then RedisV0DecodeRecord(values[key]) else Some(DEFAULT);
    if record.None? then None
    else Some(values[key := RedisV0EncodeRecord(Incremented(record.value, u.kind, u.now))])
  }

  /** A whole batch: it stops at the first error, and keeps what was done before. */
  function TextRun(values: Texts, updates: seq<Update>): (Texts, bool) {
    if updates == [] then (values, true)
    else
      var (before, ok) := TextRun(values, updates[..|updates| - 1]);
      if !ok then (before, false)
      else
        var next := TextApplied(before, updates[|updates| - 1]);
        if next.Some? then (next.value, true) else (before, false)
  }

  const UNAVAILABLE: PyzorError := Comm("Database temporarily unavailable.")

  /** Records as text under a key, updated by the default loop of every engine that has no batch of its own. */
  class RedisV0Database {
    var values: Texts

    constructor ()
      ensures values == map[]
    {
      values := map[];
    }

    method Get(digest: string) returns (r: Result<Record, PyzorError>)
      ensures
        var key := RedisV0Key(digest);
        var record := if key in values then RedisV0DecodeRecord(values[key]) else Some(DEFAULT);
        r == if record.Some? then Ok(record.value) else Err(UNAVAILABLE)
    {
      var key := RedisV0Key(digest);
      if key in values {
        var record := RedisV0DecodeRecord(values[key]);
        if record.None? {
          return Err(UNAVAILABLE);
        }
        return Ok(record.value);
      }
      r := Ok(DEFAULT);
    }

    method Set(digest: string, record: Record)
      modifies this
      ensures values == old(values)[RedisV0Key(digest) := RedisV0EncodeRecord(record)]
    {
      values := values[RedisV0Key(digest) := RedisV0EncodeRecord(record)];
    }

    method UpdateAll(kind: Kind, digests: seq<string>, times: seq<i64>) returns (r: Result<(), PyzorError>)
      requires |times| == |digests|
      modifies this
      ensures
        var (after, ok) := TextRun(old(values), UpdatesOf(kind, digests, times));
        values == after && r == if ok then Ok(()) else Err(UNAVAILABLE)
    {
      hide UpdatesOf, RedisV0DecodeRecord, RedisV0EncodeRecord, Incremented, RedisV0Key;
      ghost var us := UpdatesOf(kind, digests, times);
      for i := 0 to |digests|
        invariant TextRun(old(values), us[..i]) == (values, true)
      {
        UpdatesPrefix(kind, digests, times, i);
        assert us[..i + 1][..i] == us[..i];
        var got := Get(digests[i]);
        if got.Err? {
          TextStuck(old(values), us, i + 1);
          return Err(got.error);
        }
        var record := Incremented(got.value, kind, times[i]);
        Set(digests[i], record);
      }
      assert us[..|digests|] == us;
      r := Ok(());
    }
  }

  lemma {:induction false} TextStuck(values: Texts, updates: seq<Update>, i: nat)
    requires i <= |updates| && !TextRun(values, updates[..i]).1
    ensures TextRun(values, updates) == TextRun(values, updates[..i])
    decreases |updates|
  {
    hide TextApplied;
    if i < |updates| {
      assert updates[..|updates| - 1][..i] == updates[..i];
      TextStuck(values, updates[..|updates| - 1], i);
    } else {
      assert updates[..i] == updates;
    }
  }

  /** A stored text that is no record stops a batch, and what was done before it stays. */
  lemma UnreadableStops(values: Texts, before: seq<Update>, u: Update, after: seq<Update>)
    requires TextRun(values, before).1
    requires
      var (reached, ok) := TextRun(values, before);
      RedisV0Key(u.digest) in reached && RedisV0DecodeRecord(reached[RedisV0Key(u.digest)]).None?
    ensures TextRun(values, before + [u] + after) == (TextRun(values, before).0, false)
  {
    hide RedisV0DecodeRecord, RedisV0Key;
    var all := before + [u] + after;
    assert all[..|before| + 1][..|before|] == before && all[..|before| + 1][|before|] == u;
    TextStuck(values, all, |before| + 1);
  }

  // ----- Redis hashes -----

  const REDIS_V1_NAMESPACE: string := "pyzord.digest_v1"

  function RedisV1Key(digest: string): string {
    REDIS_V1_NAMESPACE + "." + digest
  }

  type Hashes = map<string, map<string, string>>

  function Fields(db: Hashes, key: string): map<string, string> {
    if key in db then db[key] else map[]
  }

  /** HINCRBY by 1: an error unless the field holds an i64 that has a successor. */
  function HIncrBy(db: Hashes, key: string, field: string): Option<Hashes> {
    var fields := Fields(db, key);
    var n := if field in fields then ParseI64(fields[field]) else Some(0);
    if n.None? || n.value == I64_MAX then None
    else Some(db[key := fields[field := IntText(n.value + 1)]])
  }

  function HSetNx(db: Hashes, key: string, field: string, value: string): Hashes {
    if field in Fields(db, key) then db else HSet(db, key, field, value)
  }

  function HSet(db: Hashes, key: string, field: string, value: string): Hashes {
    db[key := Fields(db, key)[field := value]]
  }

  function CountName(kind: Kind): string {
    if kind.Report? then "r_count" else "wl_count"
  }

  function EnteredName(kind: Kind): string {
    if kind.Report? then "r_entered" else "wl_entered"
  }

  function UpdatedName(kind: Kind): string {
    if kind.Report? then "r_updated" else "wl_updated"
  }

  function HashApplied(db: Hashes, u: Update): Option<Hashes> {
    var key, now := RedisV1Key(u.digest), IntText(u.now);
    var counted := HIncrBy(db, key, CountName(u.kind));
    if counted.None? then None
    else
      var entered := HSetNx(counted.value, key, EnteredName(u.kind), now);
      Some(HSet(entered, key, UpdatedName(u.kind), now))
  }

  function HashRun(db: Hashes, updates: seq<Update>): (Hashes, bool) {
    if updates == [] then (db, true)
    else
      var (before, ok) := HashRun(db, updates[..|updates| - 1]);
      if !ok then (before, false)
      else
        var next := HashApplied(before, updates[|updates| - 1]);
        if next.Some? then (next.value, true) else (before, false)
  }

  lemma {:induction false} HashStuck(db: Hashes, updates: seq<Update>, i: nat)
    requires i <= |updates| && !HashRun(db, updates[..i]).1
    ensures HashRun(db, updates) == HashRun(db, updates[..i])
    decreases |updates|
  {
    hide HashApplied;
    if i < |updates| {
      assert updates[..|updates| - 1][..i] == updates[..i];
      HashStuck(db, updates[..|updates| - 1], i);
    } else {
      assert updates[..i] == updates;
    }
  }

  lemma HashRunNone(db: Hashes)
    ensures HashRun(db, []) == (db, true)
  {
  }

  lemma HashRunSnoc(db: Hashes, updates: seq<Update>, u: Update)
    ensures
      var (before, ok) := HashRun(db, updates);
      var next := HashApplied(before, u);
      HashRun(db, updates + [u]) == if !ok || next.None? then (before, false) else (next.value, true)
  {
    hide HashApplied;
    assert (updates + [u])[..|updates|] == updates;
  }

  lemma ThreeCommands(db: Hashes, u: Update)
    ensures
      var key, now := RedisV1Key(u.digest), IntText(u.now);
      var counted := HIncrBy(db, key, CountName(u.kind));
      HashApplied(db, u)
      == if counted.None? then None
         else Some(HSet(HSetNx(counted.value, key, EnteredName(u.kind), now), key, UpdatedName(u.kind), now))
  {
    hide HIncrBy, HSetNx, HSet, IntText, RedisV1Key;
  }

  /** Records as hashes, updated by three commands a digest. The clock is read once a batch. */
  class RedisV1Database {
    var server: Hashes

    constructor ()
      ensures server == map[]
    {
      server := map[];
    }

    method UpdateAll(kind: Kind, digests: seq<string>, now: i64) returns (r: Result<(), PyzorError>)
      modifies this
      ensures
        var (after, ok) := HashRun(old(server), UpdatesOf(kind, digests, Repeat(now, |digests|)));
        server == after && r == if ok then Ok(()) else Err(UNAVAILABLE)
    {
      hide UpdatesOf, HIncrBy, HSetNx, HSet, IntText, RedisV1Key, HashRun, HashApplied;
      HashRunNone(server);
      var times := Repeat(now, |digests|);
      ghost var us := UpdatesOf(kind, digests, times);
      var text := IntText(now);
      for i := 0 to |digests|
        invariant HashRun(old(server), us[..i]) == (server, true)
      {
        UpdatesPrefix(kind, digests, times, i);
        HashRunSnoc(old(server), us[..i], us[i]);
        ThreeCommands(server, us[i]);
        var key := RedisV1Key(digests[i]);
        var counted := HIncrBy(server, key, CountName(kind));
        if counted.None? {
          HashStuck(old(server), us, i + 1);
          return Err(UNAVAILABLE);
        }
        server := counted.value;
        server := HSetNx(server, key, EnteredName(kind), text);
        server := HSet(server, key, UpdatedName(kind), text);
      }
      assert us[..|digests|] == us;
      r := Ok(());
    }
  }

  function Repeat<T>(x: T, n: nat): (s: seq<T>)
    ensures |s| == n && forall k | 0 <= k < n :: s[k] == x
  {
    seq(n, _ => x)
  }

  // ----- what a run leaves behind -----

  function CountOf(r: Record, kind: Kind): int {
    if kind.Report? then r.rCount else r.wlCount
  }

  function EnteredOf(r: Record, kind: Kind): Option<i64> {
    if kind.Report? then r.rEntered else r.wlEntered
  }

  function UpdatedOf(r: Record, kind: Kind): Option<i64> {
    if kind.Report? then r.rUpdated else r.wlUpdated
  }

  /** The times of a digest's updates of one kind, in order. */
  function TimesOf(updates: seq<Update>, kind: Kind, digest: string): seq<i64> {
    if updates == [] then []
    else
      var u := updates[|updates| - 1];
      TimesOf(updates[..|updates| - 1], kind, digest) + if u.kind == kind && u.digest == digest then [u.now] else []
  }

  /** What a record must be, after updates of one kind at these times. */
  predicate Summary(r: Record, kind: Kind, times: seq<i64>) {
    && CountOf(r, kind) == (if |times| <= CAP then |times| else CAP)
    && EnteredOf(r, kind) == (if times == [] then None else Some(times[0]))
    && UpdatedOf(r, kind) == (if times == [] then None else Some(times[|times| - 1]))
  }

  /** From an empty store: the count is the capped number of updates, the first is the time of entry, the
      last the time of update. */
  lemma {:induction false} RunSummary(updates: seq<Update>, kind: Kind, digest: string)
    ensures Summary(Lookup(Run(map[], updates), digest), kind, TimesOf(updates, kind, digest))
  {
    if updates != [] {
      RunSummary(updates[..|updates| - 1], kind, digest);
    }
  }

  /** A digest has a record once it was updated. */
  lemma {:induction false} RunDomain(updates: seq<Update>, digest: string)
    ensures digest in Run(map[], updates)
       <==> TimesOf(updates, Report, digest) != [] || TimesOf(updates, Whitelist, digest) != []
  {
    if updates != [] {
      RunDomain(updates[..|updates| - 1], digest);
    }
  }

  /** The time of entry never changes once it is set. */
  lemma EnteredStays(store: Store, u: Update, digest: string, kind: Kind)
    requires EnteredOf(Lookup(store, digest), kind).Some?
    ensures EnteredOf(Lookup(Applied(store, u), digest), kind) == EnteredOf(Lookup(store, digest), kind)
  {
  }

  /** Other digests, and the other kind's half of the record, stay as they are. */
  lemma OthersStay(store: Store, u: Update, digest: string, kind: Kind)
    requires digest != u.digest || kind != u.kind
    ensures
      var before, after := Lookup(store, digest), Lookup(Applied(store, u), digest);
      && CountOf(after, kind) == CountOf(before, kind)
      && EnteredOf(after, kind) == EnteredOf(before, kind)
      && UpdatedOf(after, kind) == UpdatedOf(before, kind)
  {
  }

  // ----- runs of batches -----

  lemma {:induction false} RunAppend(store: Store, a: seq<Update>, b: seq<Update>)
    ensures Run(store, a + b) == Run(Run(store, a), b)
  {
    hide Applied;
    if b == [] {
      assert a + b == a;
    } else {
      var k := |b| - 1;
      assert (a + b)[..|a| + k] == a + b[..k];
      RunAppend(store, a, b[..k]);
    }
  }

  lemma {:induction false} TextRunAppend(values: Texts, a: seq<Update>, b: seq<Update>)
    requires TextRun(values, a).1
    ensures TextRun(values, a + b) == TextRun(TextRun(values, a).0, b)
  {
    hide TextApplied;
    if b == [] {
      assert a + b == a;
    } else {
      var k := |b| - 1;
      assert (a + b)[..|a| + k] == a + b[..k];
      TextRunAppend(values, a, b[..k]);
    }
  }

  lemma {:induction false} HashRunAppend(db: Hashes, a: seq<Update>, b: seq<Update>)
    requires HashRun(db, a).1
    ensures HashRun(db, a + b) == HashRun(HashRun(db, a).0, b)
  {
    hide HashApplied;
    if b == [] {
      assert a + b == a;
    } else {
      var k := |b| - 1;
      assert (a + b)[..|a| + k] == a + b[..k];
      HashRunAppend(db, a, b[..k]);
    }
  }

  // ----- the three stores agree -----

  /** What each store answers when asked for a digest. */
  function TextView(values: Texts, digest: string): Option<Record> {
    var key := RedisV0Key(digest);
    if key in values then RedisV0DecodeRecord(values[key]) else Some(DEFAULT)
  }

  function HashView(db: Hashes, digest: string): Record {
    RecordOfFields(Fields(db, RedisV1Key(digest)))
  }

  ghost predicate TextAgrees(values: Texts, store: Store) {
    forall d: string ::
      && (RedisV0Key(d) in values <==> d in store)
      && (d in store ==> AllReadable(store[d]) && values[RedisV0Key(d)] == RedisV0EncodeRecord(store[d]))
  }

  lemma RedisV0KeyInjective(a: string, b: string)
    requires RedisV0Key(a) == RedisV0Key(b)
    ensures a == b
  {
    var n := |REDIS_V0_NAMESPACE| + 1;
    assert a == RedisV0Key(a)[n..] && b == RedisV0Key(b)[n..];
  }

  lemma TextStep(values: Texts, store: Store, u: Update)
    requires TextAgrees(values, store) && u.now > 0
    ensures TextApplied(values, u).Some? && TextAgrees(TextApplied(values, u).value, Applied(store, u))
  {
    hide RedisV0DecodeRecord, RedisV0EncodeRecord, RedisV0Key, AllReadable, Incremented;
    var key := RedisV0Key(u.digest);
    assert key in values <==> u.digest in store;
    if u.digest in store {
      RedisV0DecodeEncodedRecord(store[u.digest]);
    }
    StaysReadable(Lookup(store, u.digest), u);
    var next, after := TextApplied(values, u), Applied(store, u);
    forall d: string
      ensures RedisV0Key(d) in next.value <==> d in after
      ensures d in after ==> AllReadable(after[d]) && next.value[RedisV0Key(d)] == RedisV0EncodeRecord(after[d])
    {
      if d != u.digest && RedisV0Key(d) == key {
        RedisV0KeyInjective(d, u.digest);
      }
    }
  }

  lemma StaysReadable(r: Record, u: Update)
    requires AllReadable(r) && u.now > 0
    ensures AllReadable(Incremented(r, u.kind, u.now))
  {
    YearZero();
  }

  lemma YearZero()
    ensures YEAR_ZERO < 0
  {
  }

  /** The fields of one kind as the three commands leave them. */
  predicate HalfMatches(fields: map<string, string>, r: Record, kind: Kind) {
    var count, entered, updated := CountName(kind), EnteredName(kind), UpdatedName(kind);
    && (count in fields <==> EnteredOf(r, kind).Some?)
    && (entered in fields <==> EnteredOf(r, kind).Some?)
    && (updated in fields <==> EnteredOf(r, kind).Some?)
    && (UpdatedOf(r, kind).Some? <==> EnteredOf(r, kind).Some?)
    && (EnteredOf(r, kind).None? ==> CountOf(r, kind) == 0)
    && (EnteredOf(r, kind).Some? ==>
          && fields[count] == IntText(CountOf(r, kind))
          && fields[entered] == IntText(EnteredOf(r, kind).value) && EnteredOf(r, kind).value > 0
          && fields[updated] == IntText(UpdatedOf(r, kind).value) && UpdatedOf(r, kind).value > 0)
  }

  predicate FieldsMatch(fields: map<string, string>, r: Record) {
    HalfMatches(fields, r, Report) && HalfMatches(fields, r, Whitelist)
  }

  lemma PositiveTime(n: i64)
    requires n > 0
    ensures DecodeTime(IntText(n)) == Some(n)
  {
    hide DecodeTime, IntText;
    RedisV1DecodeTime(Some(n));
  }

  lemma MatchingHalf(fields: map<string, string>, r: Record, kind: Kind)
    requires HalfMatches(fields, r, kind)
    ensures CountField(fields, CountName(kind)) == CountOf(r, kind)
    ensures TimeField(fields, EnteredName(kind)) == EnteredOf(r, kind)
    ensures TimeField(fields, UpdatedName(kind)) == UpdatedOf(r, kind)
  {
    hide DecodeTime, IntText, ParseI64;
    if EnteredOf(r, kind).Some? {
      PositiveTime(EnteredOf(r, kind).value);
      PositiveTime(UpdatedOf(r, kind).value);
      ParseIntText(CountOf(r, kind));
    }
  }

  lemma MatchingFields(fields: map<string, string>, r: Record)
    requires FieldsMatch(fields, r)
    ensures RecordOfFields(fields) == r
  {
    hide HalfMatches, CountField, TimeField;
    MatchingHalf(fields, r, Report);
    MatchingHalf(fields, r, Whitelist);
  }

  ghost predicate HashAgrees(db: Hashes, store: Store) {
    forall d: string ::
      && (RedisV1Key(d) in db <==> d in store)
      && (d in store ==> FieldsMatch(db[RedisV1Key(d)], store[d]))
  }

  lemma RedisV1KeyInjective(a: string, b: string)
    requires RedisV1Key(a) == RedisV1Key(b)
    ensures a == b
  {
    var n := |REDIS_V1_NAMESPACE| + 1;
    assert a == RedisV1Key(a)[n..] && b == RedisV1Key(b)[n..];
  }

  /** What the three commands do to the fields of one hash. */
  function UpdatedFields(fields: map<string, string>, kind: Kind, count: string, now: string): map<string, string> {
    var counted := fields[CountName(kind) := count];
    var entered := if EnteredName(kind) in counted then counted else counted[EnteredName(kind) := now];
    entered[UpdatedName(kind) := now]
  }

  lemma HashAppliedFields(db: Hashes, u: Update)
    ensures
      var key := RedisV1Key(u.digest);
      var counted := HIncrBy(db, key, CountName(u.kind));
      var next := HashApplied(db, u);
      && (next.Some? <==> counted.Some?)
      && (counted.Some? ==>
            && key in counted.value && CountName(u.kind) in counted.value[key]
            && next.value == db[key := UpdatedFields(Fields(db, key), u.kind, counted.value[key][CountName(u.kind)],
                                                     IntText(u.now))])
  {
    hide IntText, ParseI64, RedisV1Key;
  }

  lemma FieldsStep(fields: map<string, string>, r: Record, kind: Kind, now: i64)
    requires FieldsMatch(fields, r) && now > 0 && CountOf(r, kind) < CAP
    ensures FieldsMatch(UpdatedFields(fields, kind, IntText(CountOf(r, kind) + 1), IntText(now)),
                        Incremented(r, kind, now))
  {
    hide IntText;
  }

  lemma NewFields(r: Record)
    requires r == DEFAULT
    ensures FieldsMatch(map[], r)
  {
  }

  /** One update goes through exactly when the count is below the cap, and then the stores still agree. */
  lemma HashStep(db: Hashes, store: Store, u: Update)
    requires HashAgrees(db, store) && u.now > 0
    ensures HashApplied(db, u).Some? <==> CountOf(Lookup(store, u.digest), u.kind) < CAP
    ensures HashApplied(db, u).Some? ==> HashAgrees(HashApplied(db, u).value, Applied(store, u))
  {
    hide HashApplied, RedisV1Key, UpdatedFields, FieldsMatch, IntText, ParseI64, Incremented;
    var key := RedisV1Key(u.digest);
    var r, fields := Lookup(store, u.digest), Fields(db, key);
    NewFields(DEFAULT);
    assert FieldsMatch(fields, r);
    HashAppliedFields(db, u);
    CountFieldRead(fields, r, u.kind);
    if CountOf(r, u.kind) < CAP {
      FieldsStep(fields, r, u.kind, u.now);
      var next, after := HashApplied(db, u), Applied(store, u);
      forall d: string
        ensures RedisV1Key(d) in next.value <==> d in after
        ensures d in after ==> FieldsMatch(next.value[RedisV1Key(d)], after[d])
      {
        if d != u.digest && RedisV1Key(d) == key {
          RedisV1KeyInjective(d, u.digest);
        }
      }
    }
  }

  lemma CountFieldRead(fields: map<string, string>, r: Record, kind: Kind)
    requires FieldsMatch(fields, r)
    ensures
      var n := if CountName(kind) in fields then ParseI64(fields[CountName(kind)]) else Some(0);
      n == Some(CountOf(r, kind))
  {
    hide IntText, ParseI64;
    ParseIntText(CountOf(r, kind));
  }

  predicate PositiveClock(updates: seq<Update>) {
    forall k | 0 <= k < |updates| :: updates[k].now > 0
  }

  ghost predicate WithinCap(updates: seq<Update>) {
    forall kind: Kind, digest: string :: |TimesOf(updates, kind, digest)| <= CAP
  }

  lemma {:induction false} TextRunAgrees(updates: seq<Update>)
    requires PositiveClock(updates)
    ensures TextRun(map[], updates).1 && TextAgrees(TextRun(map[], updates).0, Run(map[], updates))
  {
    hide TextAgrees, TextApplied, Applied;
    if updates == [] {
      NothingAgrees();
    } else {
      var k := |updates| - 1;
      TextRunAgrees(updates[..k]);
      TextStep(TextRun(map[], updates[..k]).0, Run(map[], updates[..k]), updates[k]);
    }
  }

  lemma NothingAgrees()
    ensures TextAgrees(map[], map[]) && HashAgrees(map[], map[])
  {
  }

  lemma CapStep(updates: seq<Update>)
    requires updates != []
    ensures
      var k := |updates| - 1;
      var u := updates[k];
      WithinCap(updates) <==> WithinCap(updates[..k]) && |TimesOf(updates[..k], u.kind, u.digest)| < CAP
  {
    var k := |updates| - 1;
    var u := updates[k];
    assert |TimesOf(updates, u.kind, u.digest)| == |TimesOf(updates[..k], u.kind, u.digest)| + 1;
    assert forall kind: Kind, digest: string :: |TimesOf(updates[..k], kind, digest)| <= |TimesOf(updates, kind, digest)|;
  }

  lemma {:induction false} HashRunAgrees(updates: seq<Update>)
    requires PositiveClock(updates)
    ensures HashRun(map[], updates).1 <==> WithinCap(updates)
    ensures WithinCap(updates) ==> HashAgrees(HashRun(map[], updates).0, Run(map[], updates))
  {
    hide HashAgrees, HashApplied, Applied, WithinCap;
    if updates == [] {
      NothingAgrees();
      assert WithinCap([]) by {
        NothingWithinCap();
      }
    } else {
      var k := |updates| - 1;
      HashRunAgrees(updates[..k]);
      CapStep(updates);
      RunSummary(updates[..k], updates[k].kind, updates[k].digest);
      if WithinCap(updates[..k]) {
        HashStep(HashRun(map[], updates[..k]).0, Run(map[], updates[..k]), updates[k]);
      }
    }
  }

  lemma NothingWithinCap()
    ensures WithinCap([])
  {
  }

  /** Updates in any order and number, duplicates included: with a positive clock the default loop over text records
      always agrees with the records in memory. The Redis commands go through exactly when no digest is updated more
      often than the cap, and then their hashes agree too. */
  lemma AllStoresAgree(updates: seq<Update>)
    requires PositiveClock(updates)
    ensures TextRun(map[], updates).1
    ensures forall d: string :: TextView(TextRun(map[], updates).0, d) == Some(Lookup(Run(map[], updates), d))
    ensures HashRun(map[], updates).1 <==> WithinCap(updates)
    ensures WithinCap(updates) ==>
      forall d: string :: HashView(HashRun(map[], updates).0, d) == Lookup(Run(map[], updates), d)
  {
    hide RedisV0Key, RedisV1Key, RedisV0DecodeRecord, RedisV0EncodeRecord, FieldsMatch, RecordOfFields, Run, TextRun, HashRun,
         WithinCap;
    TextRunAgrees(updates);
    HashRunAgrees(updates);
    var store := Run(map[], updates);
    forall d: string
      ensures TextView(TextRun(map[], updates).0, d) == Some(Lookup(store, d))
    {
      if d in store {
        RedisV0DecodeEncodedRecord(store[d]);
      }
    }
    if WithinCap(updates) {
      forall d: string
        ensures HashView(HashRun(map[], updates).0, d) == Lookup(store, d)
      {
        NewFields(DEFAULT);
        MatchingFields(Fields(HashRun(map[], updates).0, RedisV1Key(d)), Lookup(store, d));
      }
    }
  }

  // ----- batch after batch -----

  /** One call of a store: all its digests at one reading of the clock. */
  datatype Batch = Batch(kind: Kind, digests: seq<string>, now: i64)

  function BatchUpdates(b: Batch): seq<Update> {
    UpdatesOf(b.kind, b.digests, Repeat(b.now, |b.digests|))
  }

  function Flat(batches: seq<Batch>): seq<Update> {
    if batches == [] then [] else Flat(batches[..|batches| - 1]) + BatchUpdates(batches[|batches| - 1])
  }

  /** The records in memory after a call for each batch. */
  function FileAfter(batches: seq<Batch>): Store {
    if batches == [] then map[]
    else Run(FileAfter(batches[..|batches| - 1]), BatchUpdates(batches[|batches| - 1]))
  }

  /** The text records after a call for each batch, and whether all calls succeeded. A failed call keeps what it did,
      and the next one goes on from there. */
  function TextAfter(batches: seq<Batch>): (Texts, bool) {
    if batches == [] then (map[], true)
    else
      var (before, allOk) := TextAfter(batches[..|batches| - 1]);
      var (after, ok) := TextRun(before, BatchUpdates(batches[|batches| - 1]));
      (after, allOk && ok)
  }

  function HashAfter(batches: seq<Batch>): (Hashes, bool) {
    if batches == [] then (map[], true)
    else
      var (before, allOk) := HashAfter(batches[..|batches| - 1]);
      var (after, ok) := HashRun(before, BatchUpdates(batches[|batches| - 1]));
      (after, allOk && ok)
  }

  predicate PositiveBatches(batches: seq<Batch>) {
    forall k | 0 <= k < |batches| :: batches[k].now > 0
  }

  lemma {:induction false} PositiveFlat(batches: seq<Batch>)
    requires PositiveBatches(batches)
    ensures PositiveClock(Flat(batches))
  {
    if batches != [] {
      PositiveFlat(batches[..|batches| - 1]);
    }
  }

  lemma {:induction false} FileAfterIsRun(batches: seq<Batch>)
    ensures FileAfter(batches) == Run(map[], Flat(batches))
  {
    hide BatchUpdates, Run;
    if batches == [] {
      assert Run(map[], []) == map[] by {
        RunNone();
      }
    } else {
      var n := |batches| - 1;
      FileAfterIsRun(batches[..n]);
      RunAppend(map[], Flat(batches[..n]), BatchUpdates(batches[n]));
    }
  }

  lemma RunNone()
    ensures Run(map[], []) == map[] && TextRun(map[], []) == (map[], true) && HashRun(map[], []) == (map[], true)
  {
  }

  lemma {:induction false} TextAfterIsRun(batches: seq<Batch>)
    requires PositiveBatches(batches)
    ensures TextAfter(batches) == TextRun(map[], Flat(batches))
  {
    hide BatchUpdates, TextRun, PositiveClock;
    if batches == [] {
      RunNone();
    } else {
      var n := |batches| - 1;
      TextAfterIsRun(batches[..n]);
      PositiveFlat(batches[..n]);
      TextRunAgrees(Flat(batches[..n]));
      TextRunAppend(map[], Flat(batches[..n]), BatchUpdates(batches[n]));
    }
  }

  lemma {:induction false} TimesGrow(a: seq<Update>, b: seq<Update>, kind: Kind, digest: string)
    ensures |TimesOf(a, kind, digest)| <= |TimesOf(a + b, kind, digest)|
  {
    if b == [] {
      assert a + b == a;
    } else {
      var k := |b| - 1;
      assert (a + b)[..|a| + k] == a + b[..k];
      TimesGrow(a, b[..k], kind, digest);
    }
  }

  lemma CapPrefix(a: seq<Update>, b: seq<Update>)
    requires WithinCap(a + b)
    ensures WithinCap(a)
  {
    forall kind: Kind, digest: string
      ensures |TimesOf(a, kind, digest)| <= CAP
    {
      TimesGrow(a, b, kind, digest);
    }
  }

  /** All calls succeed exactly when all their updates, one after the other, stay within the cap. */
  lemma {:induction false} HashAfterIsRun(batches: seq<Batch>)
    requires PositiveBatches(batches)
    ensures HashAfter(batches).1 <==> WithinCap(Flat(batches))
    ensures HashAfter(batches).1 ==> HashAfter(batches) == HashRun(map[], Flat(batches))
  {
    hide BatchUpdates, HashRun, PositiveClock, WithinCap;
    if batches == [] {
      RunNone();
      NothingWithinCap();
    } else {
      var n := |batches| - 1;
      var before, last := Flat(batches[..n]), BatchUpdates(batches[n]);
      HashAfterIsRun(batches[..n]);
      PositiveFlat(batches);
      HashRunAgrees(Flat(batches));
      if WithinCap(before + last) {
        CapPrefix(before, last);
      }
      if HashAfter(batches[..n]).1 {
        HashRunAppend(map[], before, last);
      }
    }
  }

  /** Call after call, each with a batch of any kind and any digests at a positive reading of the clock: text records and
      records in memory always agree on every digest; the Redis calls all succeed exactly when no digest is updated more
      often than the cap, and then the hashes agree too. */
  lemma BatchesAgree(batches: seq<Batch>)
    requires PositiveBatches(batches)
    ensures TextAfter(batches).1
    ensures forall d: string :: TextView(TextAfter(batches).0, d) == Some(Lookup(FileAfter(batches), d))
    ensures HashAfter(batches).1 <==> WithinCap(Flat(batches))
    ensures HashAfter(batches).1 ==>
      forall d: string :: HashView(HashAfter(batches).0, d) == Lookup(FileAfter(batches), d)
  {
    hide TextAfter, HashAfter, FileAfter, Flat, TextRun, HashRun, Run, TextView, HashView, Lookup, WithinCap, PositiveClock;
    PositiveFlat(batches);
    FileAfterIsRun(batches);
    TextAfterIsRun(batches);
    HashAfterIsRun(batches);
    AllStoresAgree(Flat(batches));
  }
}
