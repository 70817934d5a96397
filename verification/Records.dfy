/** A digest's record and the text forms it is stored in (src/engines.rs). */
module Records {
  import opened Wrappers
  import opened Text
  import opened LocalTime

  datatype Record = Record(
    rCount: i64,
    wlCount: i64,
    rEntered: Option<i64>,
    rUpdated: Option<i64>,
    wlEntered: Option<i64>,
    wlUpdated: Option<i64>)

  const DEFAULT: Record := Record(0, 0, None, None, None, None)

  // ----- times -----

  function EncodeTime(value: Option<i64>): string {
    if value.Some? then FormatTimestamp(value.value) else "None"
  }

  function DecodeTime(value: string): Option<i64> {
    if value == "None" || value == "0" || value == "" then None
    else
      var timestamp := ParseI64(value);
      if timestamp.Some? then timestamp else ParseDatetime(value)
  }

  function RedisV0Time(value: Option<i64>): string {
    if value.Some? then FormatTimestamp(value.value) else ""
  }

  function RedisV0DecodeTime(value: string): Option<i64> {
    if value == "" then None else DecodeTime(value)
  }

  function RedisV1Time(value: Option<i64>): string {
    IntText(value.GetOr(0))
  }

  // ----- whole records -----

  function RecordParts(r: Record): seq<string> {
    ["1", IntText(r.rCount), EncodeTime(r.rEntered), EncodeTime(r.rUpdated),
     IntText(r.wlCount), EncodeTime(r.wlEntered), EncodeTime(r.wlUpdated)]
  }

  function EncodeRecord(r: Record): string {
    Join(RecordParts(r), ",")
  }

  function DecodeRecord(value: string): Option<Record> {
    var parts := Split(value, ',');
    if |parts| == 3 then
      var count := ParseI64(parts[0]);
      if count.None? then None
      else Some(DEFAULT.(rCount := count.value, rEntered := DecodeTime(parts[1]), rUpdated := DecodeTime(parts[2])))
    else if |parts| != 7 || parts[0] != "1" then None
    else
      var rCount, wlCount := ParseI64(parts[1]), ParseI64(parts[4]);
      if rCount.None? || wlCount.None? then None
      else Some(Record(rCount.value, wlCount.value, DecodeTime(parts[2]), DecodeTime(parts[3]),
                       DecodeTime(parts[5]), DecodeTime(parts[6])))
  }

  function RedisV0Parts(r: Record): seq<string> {
    [IntText(r.rCount), RedisV0Time(r.rEntered), RedisV0Time(r.rUpdated),
     IntText(r.wlCount), RedisV0Time(r.wlEntered), RedisV0Time(r.wlUpdated)]
  }

  function RedisV0EncodeRecord(r: Record): string {
    Join(RedisV0Parts(r), ",")
  }

  function RedisV0DecodeRecord(value: string): Option<Record> {
    var fields := Split(value, ',');
    if |fields| != 6 then None
    else
      var rCount, wlCount := ParseI64(fields[0]), ParseI64(fields[3]);
      if rCount.None? || wlCount.None? then None
      else Some(Record(rCount.value, wlCount.value, RedisV0DecodeTime(fields[1]), RedisV0DecodeTime(fields[2]),
                       RedisV0DecodeTime(fields[4]), RedisV0DecodeTime(fields[5])))
  }

  type Field = (string, string)

  function RedisV1EncodeRecord(r: Record): seq<Field> {
    [("r_count", IntText(r.rCount)),
     ("r_entered", RedisV1Time(r.rEntered)),
     ("r_updated", RedisV1Time(r.rUpdated)),
     ("wl_count", IntText(r.wlCount)),
     ("wl_entered", RedisV1Time(r.wlEntered)),
     ("wl_updated", RedisV1Time(r.wlUpdated))]
  }

  /** The record that a set of stored fields stands for: missing or unreadable counts are 0. */
  function RecordOfFields(fields: map<string, string>): Record {
    Record(
      CountField(fields, "r_count"), CountField(fields, "wl_count"),
      TimeField(fields, "r_entered"), TimeField(fields, "r_updated"),
      TimeField(fields, "wl_entered"), TimeField(fields, "wl_updated"))
  }

  function CountField(fields: map<string, string>, name: string): i64 {
    if name in fields then ParseI64(fields[name]).GetOr(0) else 0
  }

  function TimeField(fields: map<string, string>, name: string): Option<i64> {
    if name in fields then DecodeTime(fields[name]) else None
  }

  function MapOf(fields: seq<Field>): map<string, string> {
    if fields == [] then map[]
    else MapOf(fields[..|fields| - 1])[fields[|fields| - 1].0 := fields[|fields| - 1].1]
  }

  /** The decoder's loop over an iterator of fields: later fields override earlier ones. */
  method RedisV1DecodeRecord(fields: seq<Field>) returns (record: Record)
    ensures record == RecordOfFields(MapOf(fields))
  {
    record := DEFAULT;
    for i := 0 to |fields|
      invariant record == RecordOfFields(MapOf(fields[..i]))
    {
      assert fields[..i + 1][..i] == fields[..i];
      var (key, value) := fields[i];
      match key
      case "r_count" => record := record.(rCount := ParseI64(value).GetOr(0));
      case "r_entered" => record := record.(rEntered := DecodeTime(value));
      case "r_updated" => record := record.(rUpdated := DecodeTime(value));
      case "wl_count" => record := record.(wlCount := ParseI64(value).GetOr(0));
      case "wl_entered" => record := record.(wlEntered := DecodeTime(value));
      case "wl_updated" => record := record.(wlUpdated := DecodeTime(value));
      case _ =>
    }
    assert fields[..|fields|] == fields;
  }

  // ----- round trips -----

  /** What reading a printed time makes of it: times before year 0 are lost. */
  function Readable(value: Option<i64>): Option<i64> {
    if value.Some? && value.value < YEAR_ZERO then None else value
  }

  predicate AllReadable(r: Record) {
    && (r.rEntered.Some? ==> r.rEntered.value >= YEAR_ZERO)
    && (r.rUpdated.Some? ==> r.rUpdated.value >= YEAR_ZERO)
    && (r.wlEntered.Some? ==> r.wlEntered.value >= YEAR_ZERO)
    && (r.wlUpdated.Some? ==> r.wlUpdated.value >= YEAR_ZERO)
  }

  lemma TimestampText(timestamp: i64)
    ensures ' ' in FormatTimestamp(timestamp) && ',' !in FormatTimestamp(timestamp)
    ensures ParseI64(FormatTimestamp(timestamp)).None?
  {
    hide UtcComponents, Join, PaddedText, DaysInMonth;
    var c := UtcComponents(timestamp);
    ComponentsFitI64(timestamp);
    TripleCharacters(c.date.year, c.date.month, c.date.day, 4, '-', ',');
    TripleCharacters(c.hour, c.minute, c.second, 2, ':', ',');
    var text := FormatTimestamp(timestamp);
    assert text[|DateText(c.date)|] == ' ';
    DateTextStart(c.date);
    assert text[1..][|DateText(c.date)| - 1] == ' ';
  }

  lemma DateTextStart(date: Date)
    ensures DateText(date) != ""
  {
  }

  lemma DecodeEncodedTime(value: Option<i64>)
    ensures DecodeTime(EncodeTime(value)) == Readable(value)
    ensures RedisV0DecodeTime(RedisV0Time(value)) == Readable(value)
    ensures ',' !in EncodeTime(value) && ',' !in RedisV0Time(value)
  {
    hide FormatTimestamp, ParseDatetime, ParseI64;
    if value.Some? {
      ParseFormatted(value.value);
      TimestampText(value.value);
    }
  }

  lemma IntTextCharacters(n: int, c: char)
    requires !IsDigit(c) && c != '-'
    ensures c !in IntText(n)
  {
    if n < 0 {
      assert c !in NatText(-n);
    }
  }

  lemma CommaFree(r: Record)
    ensures ',' !in IntText(r.rCount) && ',' !in IntText(r.wlCount)
    ensures ParseI64(IntText(r.rCount)) == Some(r.rCount) && ParseI64(IntText(r.wlCount)) == Some(r.wlCount)
    ensures
      forall t | t in [r.rEntered, r.rUpdated, r.wlEntered, r.wlUpdated] ::
        && ',' !in EncodeTime(t) && ',' !in RedisV0Time(t)
        && DecodeTime(EncodeTime(t)) == RedisV0DecodeTime(RedisV0Time(t)) == Readable(t)
  {
    hide EncodeTime, DecodeTime, ParseI64, IntText, RedisV0Time, RedisV0DecodeTime;
    DecodeEncodedTime(r.rEntered);
    DecodeEncodedTime(r.rUpdated);
    DecodeEncodedTime(r.wlEntered);
    DecodeEncodedTime(r.wlUpdated);
    IntTextCharacters(r.rCount, ',');
    IntTextCharacters(r.wlCount, ',');
    ParseIntText(r.rCount);
    ParseIntText(r.wlCount);
  }

  lemma SplitRecord(r: Record)
    ensures Split(EncodeRecord(r), ',') == RecordParts(r)
  {
    hide EncodeTime, DecodeTime, ParseI64, IntText, RedisV0Time, RedisV0DecodeTime, Join, Split;
    CommaFree(r);
    SplitJoin(RecordParts(r), ',');
  }

  /** The stored text of a record reads back as the record exactly when no time lies before year 0. */
  lemma DecodeEncodedRecord(r: Record)
    ensures DecodeRecord(EncodeRecord(r)) == Some(r) <==> AllReadable(r)
  {
    hide EncodeTime, DecodeTime, ParseI64, IntText, EncodeRecord, RedisV0Time, RedisV0DecodeTime, Split;
    CommaFree(r);
    SplitRecord(r);
  }

  lemma SplitRedisV0(r: Record)
    ensures Split(RedisV0EncodeRecord(r), ',') == RedisV0Parts(r)
  {
    hide EncodeTime, DecodeTime, ParseI64, IntText, RedisV0Time, RedisV0DecodeTime, Join, Split;
    CommaFree(r);
    SplitJoin(RedisV0Parts(r), ',');
  }

  lemma RedisV0DecodeEncodedRecord(r: Record)
    ensures RedisV0DecodeRecord(RedisV0EncodeRecord(r)) == Some(r) <==> AllReadable(r)
  {
    hide EncodeTime, DecodeTime, ParseI64, IntText, RedisV0EncodeRecord, RedisV0Time, RedisV0DecodeTime, Split;
    CommaFree(r);
    SplitRedisV0(r);
  }

  lemma RedisV1DecodeTime(value: Option<i64>)
    ensures DecodeTime(RedisV1Time(value)) == if value == Some(0) then None else value
  {
    hide ParseDatetime;
    var n := value.GetOr(0);
    ParseIntText(n);
    assert n >= 0 ==> IsDigit(IntText(n)[0]);
    assert n == 0 ==> IntText(n) == "0";
    assert ParseI64("0") == Some(0) by {
      ParseIntText(0);
    }
  }

  /** ... and the Redis v1 fields exactly when no time is the epoch itself. */
  lemma RedisV1DecodeEncodedRecord(r: Record)
    ensures
      RecordOfFields(MapOf(RedisV1EncodeRecord(r))) == r
      <==> Some(0) !in {r.rEntered, r.rUpdated, r.wlEntered, r.wlUpdated}
  {
    hide DecodeTime, ParseI64, IntText, RedisV1Time;
    RedisV1DecodeTime(r.rEntered);
    RedisV1DecodeTime(r.rUpdated);
    RedisV1DecodeTime(r.wlEntered);
    RedisV1DecodeTime(r.wlUpdated);
    ParseIntText(r.rCount);
    ParseIntText(r.wlCount);
    RedisV1Fields(r);
  }

  lemma RedisV1Fields(r: Record)
    ensures
      MapOf(RedisV1EncodeRecord(r))
      == map["r_count" := IntText(r.rCount), "r_entered" := RedisV1Time(r.rEntered),
             "r_updated" := RedisV1Time(r.rUpdated), "wl_count" := IntText(r.wlCount),
             "wl_entered" := RedisV1Time(r.wlEntered), "wl_updated" := RedisV1Time(r.wlUpdated)]
  {
    hide IntText, RedisV1Time;
    var fields := RedisV1EncodeRecord(r);
    assert forall k | 0 < k <= 6 :: fields[..k][..k - 1] == fields[..k - 1];
    assert fields[..6] == fields;
    MapOfTake(fields, 1);
    MapOfTake(fields, 2);
    MapOfTake(fields, 3);
    MapOfTake(fields, 4);
    MapOfTake(fields, 5);
    MapOfTake(fields, 6);
  }

  lemma MapOfTake(fields: seq<Field>, k: nat)
    requires 0 < k <= |fields|
    ensures MapOf(fields[..k]) == MapOf(fields[..k - 1])[fields[k - 1].0 := fields[k - 1].1]
  {
    assert fields[..k][..k - 1] == fields[..k - 1];
  }
}
