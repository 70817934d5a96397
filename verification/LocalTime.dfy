/** Calendar arithmetic of src/local_time.rs on its UTC path: days since 1970-01-01
    to and from proleptic Gregorian dates, without tables or loops. */
module LocalTime {
  import opened Text
  import opened Wrappers

  datatype Date = Date(year: int, month: int, day: int)

  datatype Components = Components(date: Date, hour: int, minute: int, second: int)

  predicate FitsI64(x: int) {
    I64_MIN <= x <= I64_MAX
  }

  // ----- the code: Rust's `/` truncates toward zero -----

  function TruncDiv(a: int, b: int): int
    requires b > 0
  {
    if a >= 0 then a / b else -((-a) / b)
  }

  function ShiftedDays(days: int): int {
    days + 719_468
  }

  function Era(z: int): int {
    TruncDiv(if z >= 0 then z else z - 146_096, 146_097)
  }

  function DayOfEra(z: int): int {
    z - Era(z) * 146_097
  }

  function YearOfEra(doe: int): int {
    TruncDiv(doe - TruncDiv(doe, 1460) + TruncDiv(doe, 36_524) - TruncDiv(doe, 146_096), 365)
  }

  function DayOfYear(doe: int): int {
    var yoe := YearOfEra(doe);
    doe - (365 * yoe + TruncDiv(yoe, 4) - TruncDiv(yoe, 100))
  }

  function MonthPrime(doy: int): int {
    TruncDiv(5 * doy + 2, 153)
  }

  function CivilFromDays(days: int): Date {
    var z := ShiftedDays(days);
    var era := Era(z);
    var doe := DayOfEra(z);
    var y := YearOfEra(doe) + era * 400;
    var doy := DayOfYear(doe);
    var mp := MonthPrime(doy);
    var d := doy - TruncDiv(153 * mp + 2, 5) + 1;
    var m := mp + if mp < 10 then 3 else -9;
    Date(y + if m <= 2 then 1 else 0, m, d)
  }

  function DaysFromCivil(year: int, month: int, day: int): int {
    var y := year - if month <= 2 then 1 else 0;
    var era := TruncDiv(if y >= 0 then y else y - 399, 400);
    var yoe := y - era * 400;
    var mp := month + if month > 2 then -3 else 9;
    var doy := TruncDiv(153 * mp + 2, 5) + day - 1;
    var doe := yoe * 365 + TruncDiv(yoe, 4) - TruncDiv(yoe, 100) + doy;
    era * 146_097 + doe - 719_468
  }

  function UtcComponents(timestamp: int): Components {
    var days := timestamp / 86_400;      // div_euclid
    var seconds := timestamp % 86_400;   // rem_euclid
    Components(CivilFromDays(days), TruncDiv(seconds, 3600), TruncDiv(seconds % 3600, 60), seconds % 60)
  }

  // ----- the proleptic Gregorian calendar, as usually stated -----

  predicate IsLeap(year: int) {
    year % 4 == 0 && (year % 100 != 0 || year % 400 == 0)
  }

  function DaysInMonth(year: int, month: int): int {
    if month == 2 then if IsLeap(year) then 29 else 28
    else if month in {4, 6, 9, 11} then 30
    else 31
  }

  predicate ValidDate(date: Date) {
    1 <= date.month <= 12 && 1 <= date.day <= DaysInMonth(date.year, date.month)
  }

  function NextDay(date: Date): Date {
    if date.day < DaysInMonth(date.year, date.month) then date.(day := date.day + 1)
    else if date.month < 12 then Date(date.year, date.month + 1, 1)
    else Date(date.year + 1, 1, 1)
  }

  // ----- proofs -----

  /** Days from 1 March of year 0 of an era to 1 March of its year `yoe`. */
  function EraYearStart(yoe: int): int
    requires 0 <= yoe
  {
    365 * yoe + yoe / 4 - yoe / 100 + yoe / 400
  }

  lemma EraIsFloor(z: int)
    ensures Era(z) == z / 146_097 && DayOfEra(z) == z % 146_097
  {
  }

  /** The year of the era as centuries, four-year cycles and single years. */
  lemma YearOfEraSplit(c: int, q: int, s: int, doe: int)
    requires 0 <= c <= 3 && 0 <= q <= 24 && 0 <= s <= 1460 && (q == 24 ==> s <= 1459 + c / 3)
    requires doe == 36_524 * c + 1461 * q + s
    ensures YearOfEra(doe) == 100 * c + 4 * q + if s == 1460 then 3 else s / 365
  {
    var e := (24 * c + q + s) / 1460;
    assert doe / 1460 == 25 * c + q + e;
    var f := if doe == 146_096 then 1 else 0;
    assert doe / 146_096 == f;
    var t := if s == 1460 then 3 else s / 365;
    if f == 1 {
      assert YearOfEra(doe) == 399;
    } else {
      assert doe / 36_524 == c;
      assert doe - doe / 1460 + doe / 36_524 - doe / 146_096 == 365 * (100 * c + 4 * q + t) + (s - e - 365 * t);
      assert 0 <= s - e - 365 * t < 365;
    }
  }

  lemma EraYearStartSplit(c: int, q: int, t: int)
    requires 0 <= c <= 3 && 0 <= q <= 24 && 0 <= t <= 3
    ensures EraYearStart(100 * c + 4 * q + t) == 36_524 * c + 1461 * q + 365 * t
  {
    var y := 100 * c + 4 * q + t;
    assert y / 4 == 25 * c + q && y / 100 == c && y / 400 == 0;
  }

  /** The division chain finds the unique year of the era holding day `doe`. */
  lemma YearOfEraExact(doe: int)
    requires 0 <= doe < 146_097
    ensures 0 <= YearOfEra(doe) < 400
    ensures EraYearStart(YearOfEra(doe)) <= doe < EraYearStart(YearOfEra(doe) + 1)
  {
    hide YearOfEra, EraYearStart;
    var c := if doe == 146_096 then 3 else doe / 36_524;
    var r := doe - 36_524 * c;
    var q := if r == 36_524 then 24 else r / 1461;
    var s := r - 1461 * q;
    YearOfEraSplit(c, q, s, doe);
    var t := if s == 1460 then 3 else s / 365;
    EraYearStartSplit(c, q, t);
    if t < 3 {
      EraYearStartSplit(c, q, t + 1);
    } else if q < 24 {
      EraYearStartSplit(c, q + 1, 0);
    } else if c < 3 {
      EraYearStartSplit(c + 1, 0, 0);
    } else {
      EraLength();
    }
  }

  lemma EraLength()
    ensures EraYearStart(400) == 146_097
  {
  }

  /** ... and only that year: the starts of the years of an era increase. */
  lemma YearOfEraUnique(doe: int, yoe: int)
    requires 0 <= yoe < 400 && EraYearStart(yoe) <= doe < EraYearStart(yoe + 1)
    ensures 0 <= doe < 146_097 && YearOfEra(doe) == yoe
  {
    YearOfEraExact(doe);
  }

  lemma MonthAndDay(doy: int)
    requires 0 <= doy <= 365
    ensures 0 <= MonthPrime(doy) <= 11
    ensures (153 * MonthPrime(doy) + 2) / 5 <= doy < (153 * (MonthPrime(doy) + 1) + 2) / 5
  {
  }

  /** The year of an era holds a 29 February exactly when it ends in a leap year. */
  lemma EraYearLength(yoe: int)
    requires 0 <= yoe < 400
    ensures EraYearStart(yoe + 1) - EraYearStart(yoe) == if IsLeap(yoe + 1) then 366 else 365
  {
    assert (yoe + 1) % 4 == 0 <==> (yoe + 1) / 4 == yoe / 4 + 1;
    assert (yoe + 1) % 100 == 0 <==> (yoe + 1) / 100 == yoe / 100 + 1;
    assert (yoe + 1) % 400 == 0 <==> (yoe + 1) / 400 == yoe / 400 + 1;
  }

  lemma CenturyPeriod(year: int, era: int)
    ensures (year + 400 * era) % 100 == year % 100
  {
    assert year + 400 * era == 100 * (year / 100 + 4 * era) + year % 100;
  }

  lemma QuadrenniumPeriod(year: int, era: int)
    ensures (year + 400 * era) % 4 == year % 4
  {
    assert year + 400 * era == 4 * (year / 4 + 100 * era) + year % 4;
  }

  lemma EraPeriod(year: int, era: int)
    ensures (year + 400 * era) % 400 == year % 400
  {
    assert year + 400 * era == 400 * (year / 400 + era) + year % 400;
  }

  lemma LeapPeriod(year: int, era: int)
    ensures IsLeap(year + 400 * era) == IsLeap(year)
  {
    CenturyPeriod(year, era);
    QuadrenniumPeriod(year, era);
    EraPeriod(year, era);
  }

  lemma EraOfYear(yoe: int, era: int)
    requires 0 <= yoe < 400
    ensures var y := yoe + 400 * era; TruncDiv(if y >= 0 then y else y - 399, 400) == era
  {
  }

  /** The date that is day `day` of March-based month `mp` of year `yoe` of an era. */
  function FromParts(era: int, yoe: int, mp: int, day: int): Date {
    Date(yoe + 400 * era + if mp < 10 then 0 else 1, mp + if mp < 10 then 3 else -9, day)
  }

  function MonthStart(mp: int): int {
    (153 * mp + 2) / 5
  }

  /** The day number that the pieces of a date add up to. */
  function PartsDayNumber(era: int, yoe: int, mp: int, day: int): int
    requires 0 <= yoe
  {
    era * 146_097 + EraYearStart(yoe) + MonthStart(mp) + day - 1 - 719_468
  }

  lemma MonthLength(era: int, yoe: int, mp: int)
    requires 0 <= yoe < 400 && 0 <= mp <= 11
    ensures
      var date := FromParts(era, yoe, mp, 1);
      && DaysInMonth(date.year, date.month)
         == if mp < 11 then MonthStart(mp + 1) - MonthStart(mp) else if IsLeap(yoe + 1) then 29 else 28
  {
    LeapPeriod(yoe + 1, era);
  }

  lemma DaysFromParts(era: int, yoe: int, mp: int, day: int)
    requires 0 <= yoe < 400 && 0 <= mp <= 11
    ensures
      var date := FromParts(era, yoe, mp, day);
      DaysFromCivil(date.year, date.month, date.day)
      == PartsDayNumber(era, yoe, mp, day)
  {
    EraOfYear(yoe, era);
  }

  lemma PartsOf(date: Date) returns (era: int, yoe: int, mp: int)
    requires 1 <= date.month <= 12
    ensures 0 <= yoe < 400 && 0 <= mp <= 11 && date == FromParts(era, yoe, mp, date.day)
  {
    var y := date.year - if date.month <= 2 then 1 else 0;
    era, yoe, mp := y / 400, y % 400, date.month + if date.month > 2 then -3 else 9;
  }

  /** Taking a day number apart: era, year of the era, month and day of the month. */
  lemma CivilPieces(days: int) returns (era: int, yoe: int, mp: int, day: int)
    ensures 0 <= yoe < 400 && 0 <= mp <= 11
    ensures 0 <= MonthStart(mp) + day - 1 < if IsLeap(yoe + 1) then 366 else 365
    ensures 1 <= day <= MonthStart(mp + 1) - MonthStart(mp)
    ensures days == PartsDayNumber(era, yoe, mp, day)
    ensures CivilFromDays(days) == FromParts(era, yoe, mp, day)
    ensures
      var doe := DayOfEra(ShiftedDays(days));
      && era == Era(ShiftedDays(days)) == ShiftedDays(days) / 146_097 && yoe == YearOfEra(doe)
      && 0 <= DayOfYear(doe) < 366 && mp == MonthPrime(DayOfYear(doe))
  {
    var z := ShiftedDays(days);
    EraIsFloor(z);
    era := Era(z);
    var doe := DayOfEra(z);
    YearOfEraExact(doe);
    yoe := YearOfEra(doe);
    EraYearLength(yoe);
    var doy := DayOfYear(doe);
    assert doy == doe - EraYearStart(yoe);
    MonthAndDay(doy);
    mp := MonthPrime(doy);
    day := doy - MonthStart(mp) + 1;
  }

  lemma EraDivMod(era: int, doe: int)
    requires 0 <= doe < 146_097
    ensures Era(era * 146_097 + doe) == era && DayOfEra(era * 146_097 + doe) == doe
  {
    EraIsFloor(era * 146_097 + doe);
  }

  lemma DayOfEraSplit(yoe: int, doy: int)
    requires 0 <= yoe < 400 && 0 <= doy < if IsLeap(yoe + 1) then 366 else 365
    ensures var doe := EraYearStart(yoe) + doy;
      0 <= doe < 146_097 && YearOfEra(doe) == yoe && DayOfYear(doe) == doy
  {
    EraYearLength(yoe);
    YearOfEraUnique(EraYearStart(yoe) + doy, yoe);
  }

  /** Putting the pieces together again gives a day number that splits into them. */
  lemma CivilFromPieces(era: int, yoe: int, mp: int, day: int)
    requires 0 <= yoe < 400 && 0 <= mp <= 11 && 1 <= day <= MonthStart(mp + 1) - MonthStart(mp)
    requires MonthStart(mp) + day - 1 < if IsLeap(yoe + 1) then 366 else 365
    ensures CivilFromDays(PartsDayNumber(era, yoe, mp, day)) == FromParts(era, yoe, mp, day)
  {
    hide CivilFromDays, YearOfEra, DayOfYear, Era, DayOfEra;
    var doy := MonthStart(mp) + day - 1;
    var doe := EraYearStart(yoe) + doy;
    DayOfEraSplit(yoe, doy);
    EraDivMod(era, doe);
    assert ShiftedDays(PartsDayNumber(era, yoe, mp, day)) == era * 146_097 + doe;
    MonthStarts(doy, mp);
    CivilAssembly(PartsDayNumber(era, yoe, mp, day), doe);
  }

  lemma CivilAssembly(days: int, doe: int)
    requires doe == DayOfEra(ShiftedDays(days)) && 0 <= DayOfYear(doe) < 366
    ensures
      var mp := MonthPrime(DayOfYear(doe));
      && 0 <= mp <= 11
      && CivilFromDays(days)
         == FromParts(Era(ShiftedDays(days)), YearOfEra(doe), mp, DayOfYear(doe) - MonthStart(mp) + 1)
  {
    MonthAndDay(DayOfYear(doe));
  }

  lemma MonthStarts(doy: int, mp: int)
    requires 0 <= mp <= 11 && MonthStart(mp) <= doy < MonthStart(mp + 1)
    ensures MonthPrime(doy) == mp
  {
  }

  /** Every day number names a valid date, and that date names the day number. */
  lemma CivilFromDaysThenBack(days: int)
    ensures ValidDate(CivilFromDays(days))
    ensures var date := CivilFromDays(days); DaysFromCivil(date.year, date.month, date.day) == days
  {
    hide CivilFromDays, DaysFromCivil, DaysInMonth, PartsDayNumber, ShiftedDays, Era, DayOfEra, YearOfEra, DayOfYear;
    var era, yoe, mp, day := CivilPieces(days);
    DaysFromParts(era, yoe, mp, day);
    MonthLength(era, yoe, mp);
  }

  /** Every valid date names a day number, and that day number names the date. */
  lemma DaysFromCivilThenBack(date: Date)
    requires ValidDate(date)
    ensures CivilFromDays(DaysFromCivil(date.year, date.month, date.day)) == date
  {
    var era, yoe, mp := PartsOf(date);
    DaysFromParts(era, yoe, mp, date.day);
    MonthLength(era, yoe, mp);
    CivilFromPieces(era, yoe, mp, date.day);
  }

  lemma NextOfParts(era: int, yoe: int, mp: int, day: int)
    requires 0 <= yoe < 400 && 0 <= mp <= 11 && ValidDate(FromParts(era, yoe, mp, day))
    ensures
      NextDay(FromParts(era, yoe, mp, day))
      == if day < (if mp < 11 then MonthStart(mp + 1) - MonthStart(mp) else if IsLeap(yoe + 1) then 29 else 28)
         then FromParts(era, yoe, mp, day + 1)
         else if mp < 11 then FromParts(era, yoe, mp + 1, 1)
         else if yoe < 399 then FromParts(era, yoe + 1, 0, 1)
         else FromParts(era + 1, 0, 0, 1)
  {
    MonthLength(era, yoe, mp);
  }

  lemma NextYearParts(era: int, yoe: int, day: int)
    requires 0 <= yoe < 400 && day == if IsLeap(yoe + 1) then 29 else 28
    ensures
      PartsDayNumber(era, yoe, 11, day) + 1
      == if yoe < 399 then PartsDayNumber(era, yoe + 1, 0, 1) else PartsDayNumber(era + 1, 0, 0, 1)
  {
    EraYearLength(yoe);
    assert MonthStart(11) == 337 && MonthStart(0) == 0;
    if yoe == 399 {
      assert EraYearStart(400) == 146_097;
    }
  }

  /** Consecutive dates have consecutive day numbers. */
  lemma DaysFromCivilNext(date: Date)
    requires ValidDate(date)
    ensures ValidDate(NextDay(date))
    ensures
      var next := NextDay(date);
      DaysFromCivil(next.year, next.month, next.day) == DaysFromCivil(date.year, date.month, date.day) + 1
  {
    hide DaysFromCivil;
    var era, yoe, mp := PartsOf(date);
    DaysFromParts(era, yoe, mp, date.day);
    NextOfParts(era, yoe, mp, date.day);
    MonthLength(era, yoe, mp);
    if date.day < DaysInMonth(date.year, date.month) {
      DaysFromParts(era, yoe, mp, date.day + 1);
    } else if mp < 11 {
      DaysFromParts(era, yoe, mp + 1, 1);
    } else {
      NextYearParts(era, yoe, date.day);
      if yoe < 399 {
        DaysFromParts(era, yoe + 1, 0, 1);
      } else {
        DaysFromParts(era + 1, 0, 0, 1);
      }
    }
  }

  lemma EpochIsDayZero()
    ensures CivilFromDays(0) == Date(1970, 1, 1)
  {
    assert EraYearStart(369) == 134_774 && MonthStart(10) == 306;
    CivilFromPieces(4, 369, 10, 1);
  }

  /** One day later is the next date of the calendar, for every day number. */
  lemma CivilFromDaysNext(days: int)
    ensures CivilFromDays(days + 1) == NextDay(CivilFromDays(days))
  {
    CivilFromDaysThenBack(days);
    DaysFromCivilNext(CivilFromDays(days));
    DaysFromCivilThenBack(NextDay(CivilFromDays(days)));
  }

  function TimestampOf(c: Components): int {
    DaysFromCivil(c.date.year, c.date.month, c.date.day) * 86_400 + c.hour * 3600 + c.minute * 60 + c.second
  }

  predicate ValidComponents(c: Components) {
    ValidDate(c.date) && 0 <= c.hour < 24 && 0 <= c.minute < 60 && 0 <= c.second < 60
  }

  lemma ClockOfSeconds(seconds: int)
    requires 0 <= seconds < 86_400
    ensures
      var hour, minute, second := TruncDiv(seconds, 3600), TruncDiv(seconds % 3600, 60), seconds % 60;
      && 0 <= hour < 24 && 0 <= minute < 60 && 0 <= second < 60
      && hour * 3600 + minute * 60 + second == seconds
  {
    var q, r := seconds / 3600, seconds % 3600;
    assert seconds == 60 * (60 * q + r / 60) + r % 60;
  }

  /** Timestamps and clock components correspond one to one. */
  lemma UtcComponentsThenBack(timestamp: int)
    ensures ValidComponents(UtcComponents(timestamp)) && TimestampOf(UtcComponents(timestamp)) == timestamp
  {
    CivilFromDaysThenBack(timestamp / 86_400);
    ClockOfSeconds(timestamp % 86_400);
  }

  lemma DivModOf(q: int, r: int)
    requires 0 <= r < 86_400
    ensures (q * 86_400 + r) / 86_400 == q && (q * 86_400 + r) % 86_400 == r
  {
  }

  lemma ClockUnique(hour: int, minute: int, second: int)
    requires 0 <= hour < 24 && 0 <= minute < 60 && 0 <= second < 60
    ensures
      var seconds := hour * 3600 + minute * 60 + second;
      && 0 <= seconds < 86_400
      && TruncDiv(seconds, 3600) == hour && TruncDiv(seconds % 3600, 60) == minute && seconds % 60 == second
  {
    assert hour * 3600 + minute * 60 + second == 60 * (60 * hour + minute) + second;
    assert (hour * 3600 + minute * 60 + second) % 3600 == minute * 60 + second;
  }

  lemma TimestampThenBack(c: Components)
    requires ValidComponents(c)
    ensures UtcComponents(TimestampOf(c)) == c
  {
    hide DaysFromCivil, CivilFromDays;
    DaysFromCivilThenBack(c.date);
    ClockUnique(c.hour, c.minute, c.second);
    DivModOf(DaysFromCivil(c.date.year, c.date.month, c.date.day), c.hour * 3600 + c.minute * 60 + c.second);
    assert TimestampOf(c)
        == DaysFromCivil(c.date.year, c.date.month, c.date.day) * 86_400 + (c.hour * 3600 + c.minute * 60 + c.second);
  }

  /** The first second of year 0, the earliest one whose text does not start with a minus sign. */
  const YEAR_ZERO: int := -62_167_219_200

  lemma EraYearMonotone(a: int, b: int)
    requires 0 <= a <= b
    ensures EraYearStart(a) + 365 * (b - a) <= EraYearStart(b)
  {
    assert a / 100 == (a / 4) / 25 && b / 100 == (b / 4) / 25;
    assert a / 400 <= b / 400;
    assert a / 4 <= b / 4;
  }

  /** Within era -1, year 0 starts with its last January. */
  lemma YearZeroInEra(yoe: int, mp: int, day: int)
    requires 0 <= yoe < 400 && 0 <= mp <= 11 && 1 <= day <= MonthStart(mp + 1) - MonthStart(mp)
    requires MonthStart(mp) + day - 1 < if IsLeap(yoe + 1) then 366 else 365
    ensures FromParts(-1, yoe, mp, day).year >= 0 <==> PartsDayNumber(-1, yoe, mp, day) >= -719_528
  {
    assert EraYearStart(399) == 145_731 && MonthStart(10) == 306;
    EraYearLength(yoe);
    if yoe < 399 {
      EraYearMonotone(yoe + 1, 399);
    }
  }

  lemma YearZero(timestamp: int)
    ensures UtcComponents(timestamp).date.year >= 0 <==> timestamp >= YEAR_ZERO
  {
    var days := timestamp / 86_400;
    var era, yoe, mp, day := CivilPieces(days);
    assert timestamp >= YEAR_ZERO <==> days >= -719_528;
    if era == -1 {
      YearZeroInEra(yoe, mp, day);
    } else {
      EraYearLength(yoe);
      EraYearMonotone(0, yoe);
      EraYearMonotone(yoe + 1, 400);
      assert EraYearStart(400) == 146_097;
    }
  }

  /** No value that the conversion of an i64 timestamp computes leaves i64. */
  lemma UtcStepsFitI64(timestamp: int)
    requires FitsI64(timestamp)
    ensures
      var days := timestamp / 86_400;
      var z := ShiftedDays(days);
      var doe := DayOfEra(z);
      var yoe := YearOfEra(doe);
      var doy := DayOfYear(doe);
      && FitsI64(z) && FitsI64(z - 146_096) && FitsI64(Era(z) * 146_097) && FitsI64(doe)
      && FitsI64(doe - doe / 1460 + doe / 36_524) && FitsI64(Era(z) * 400) && FitsI64(yoe + Era(z) * 400)
      && FitsI64(365 * yoe + yoe / 4) && FitsI64(5 * doy + 2) && FitsI64(153 * MonthPrime(doy) + 2)
      && FitsI64(CivilFromDays(days).year)
  {
    var days := timestamp / 86_400;
    var era, yoe, mp, day := CivilPieces(days);
  }

  // ----- printing and parsing -----

  function DateText(date: Date): string {
    Join([PaddedText(date.year, 4), PaddedText(date.month, 2), PaddedText(date.day, 2)], "-")
  }

  function ClockText(c: Components): string {
    Join([PaddedText(c.hour, 2), PaddedText(c.minute, 2), PaddedText(c.second, 2)], ":")
  }

  function FormatTimestamp(timestamp: int): string {
    var c := UtcComponents(timestamp);
    DateText(c.date) + " " + ClockText(c)
  }

  /** Three numbers separated by `c`, and nothing else. */
  function ParseTriple(s: string, c: char): Option<(i64, i64, i64)> {
    var parts := Split(s, c);
    if |parts| != 3 then None
    else
      var a, b, d := ParseI64(parts[0]), ParseI64(parts[1]), ParseI64(parts[2]);
      if a.None? || b.None? || d.None? then None else Some((a.value, b.value, d.value))
  }

  function TimestampOfTriples(date: (i64, i64, i64), time: (i64, i64, i64)): i64 {
    Wrap64(DaysFromCivil(date.0, date.1, date.2) * 86_400 + time.0 * 3600 + time.1 * 60 + time.2)
  }

  function ParseDatetime(value: string): Option<i64> {
    var halves := SplitOnce(value, ' ');
    if halves.None? then None
    else
      var date := ParseTriple(halves.value.0, '-');
      var base := SplitOnce(halves.value.1, '.');
      var time := ParseTriple(if base.Some? then base.value.0 else halves.value.1, ':');
      if date.None? || time.None? then None else Some(TimestampOfTriples(date.value, time.value))
  }

  lemma TripleOf(a: i64, b: i64, d: i64, width: nat, c: char)
    requires a >= 0 && b >= 0 && d >= 0 && !IsDigit(c)
    ensures
      ParseTriple(Join([PaddedText(a, width), PaddedText(b, 2), PaddedText(d, 2)], [c]), c) == Some((a, b, d))
  {
    var parts := [PaddedText(a, width), PaddedText(b, 2), PaddedText(d, 2)];
    forall p | p in parts
      ensures c !in p
    {
      assert AllDigits(p);
    }
    SplitJoin(parts, c);
    ParsePadded(a, width);
    ParsePadded(b, 2);
    ParsePadded(d, 2);
  }

  lemma TripleCharacters(a: int, b: int, d: int, width: nat, c: char, other: char)
    requires !IsDigit(other) && other != '-' && other != c && b >= 0 && d >= 0
    ensures other !in Join([PaddedText(a, width), PaddedText(b, 2), PaddedText(d, 2)], [c])
  {
    JoinThree(PaddedText(a, width), PaddedText(b, 2), PaddedText(d, 2), [c]);
    PaddedCharacters(a, width, other);
    PaddedCharacters(b, 2, other);
    PaddedCharacters(d, 2, other);
  }

  lemma PaddedCharacters(n: int, width: nat, other: char)
    requires !IsDigit(other) && other != '-'
    ensures other !in PaddedText(n, width)
  {
    assert n >= 0 ==> AllDigits(PaddedText(n, width));
  }

  lemma NegativeYear(date: Date)
    requires date.year < 0
    ensures ParseTriple(DateText(date), '-').None?
  {
    assert DateText(date)[0] == '-';
    assert Split(DateText(date), '-')[0] == "";
  }

  lemma ComponentsFitI64(timestamp: i64)
    ensures
      var c := UtcComponents(timestamp);
      && FitsI64(c.date.year) && (c.date.year >= 0 <==> timestamp >= YEAR_ZERO)
      && 1 <= c.date.month <= 12 && 1 <= c.date.day <= 31 && 0 <= c.hour < 24 && 0 <= c.minute < 60
      && 0 <= c.second < 60
      && TimestampOfTriples((c.date.year, c.date.month, c.date.day), (c.hour, c.minute, c.second)) == timestamp
  {
    hide CivilFromDays, DaysFromCivil, UtcComponents, Wrap64;
    UtcComponentsThenBack(timestamp);
    YearFitsI64(timestamp);
    YearZero(timestamp);
    WrapIdentity(timestamp);
  }

  lemma WrapIdentity(x: i64)
    ensures Wrap64(x) == x
  {
  }

  lemma YearFitsI64(timestamp: i64)
    ensures FitsI64(UtcComponents(timestamp).date.year)
  {
    UtcStepsFitI64(timestamp);
  }

  lemma ParseHalves(date: string, clock: string)
    requires ' ' !in date && '.' !in clock
    ensures
      var d, t := ParseTriple(date, '-'), ParseTriple(clock, ':');
      ParseDatetime(date + " " + clock)
      == if d.None? || t.None? then None else Some(TimestampOfTriples(d.value, t.value))
  {
    hide DaysFromCivil, ParseTriple, Find;
    FindAt(date, ' ', clock);
    FindNone(clock, '.');
    var text := date + " " + clock;
    assert text[..|date|] == date && text[|date| + 1..] == clock;
  }

  /** Reading a printed timestamp gives it back, unless its year is negative: then nothing is read. */
  lemma ParseFormatted(timestamp: i64)
    ensures
      ParseDatetime(FormatTimestamp(timestamp)) == if timestamp >= YEAR_ZERO then Some(timestamp) else None
  {
    hide CivilFromDays, DaysFromCivil, ParseDatetime, ParseTriple, PaddedText, UtcComponents, Join, DaysInMonth;
    var c := UtcComponents(timestamp);
    ComponentsFitI64(timestamp);
    TripleCharacters(c.date.year, c.date.month, c.date.day, 4, '-', ' ');
    TripleCharacters(c.hour, c.minute, c.second, 2, ':', '.');
    ParseHalves(DateText(c.date), ClockText(c));
    TripleOf(c.hour, c.minute, c.second, 2, ':');
    if timestamp >= YEAR_ZERO {
      TripleOf(c.date.year, c.date.month, c.date.day, 4, '-');
    } else {
      NegativeYear(c.date);
    }
  }

  /** Up to the year 9999 a printed timestamp has nineteen characters: year, month and day of the UTC date, a blank, and
      hour, minute and second, with all their digits. */
  lemma FormatShape(timestamp: int)
    requires 0 <= UtcComponents(timestamp).date.year <= 9999
    ensures
      var c, s := UtcComponents(timestamp), FormatTimestamp(timestamp);
      && |s| == 19 && s[4] == '-' && s[7] == '-' && s[10] == ' ' && s[13] == ':' && s[16] == ':'
      && Reads(s[..4], c.date.year) && Reads(s[5..7], c.date.month) && Reads(s[8..10], c.date.day)
      && Reads(s[11..13], c.hour) && Reads(s[14..16], c.minute) && Reads(s[17..], c.second)
  {
    hide UtcComponents, PaddedText, Reads, DaysInMonth, Join;
    var c := UtcComponents(timestamp);
    UtcComponentsThenBack(timestamp);
    MonthRange(c);
    PaddedReads(c.date.year, 4, 9999);
    PaddedReads(c.date.month, 2, 99);
    PaddedReads(c.date.day, 2, 99);
    PaddedReads(c.hour, 2, 99);
    PaddedReads(c.minute, 2, 99);
    PaddedReads(c.second, 2, 99);
    ThreeJoined(PaddedText(c.date.year, 4), PaddedText(c.date.month, 2), PaddedText(c.date.day, 2), '-');
    ThreeJoined(PaddedText(c.hour, 2), PaddedText(c.minute, 2), PaddedText(c.second, 2), ':');
    TwoHalves(DateText(c.date), ClockText(c));
  }

  lemma ThreeJoined(a: string, b: string, d: string, c: char)
    requires |b| == 2 && |d| == 2
    ensures
      var s, n := Join([a, b, d], [c]), |a|;
      |s| == n + 6 && s[..n] == a && s[n] == c && s[n + 1..n + 3] == b && s[n + 3] == c && s[n + 4..] == d
  {
    JoinThree(a, b, d, [c]);
  }

  lemma TwoHalves(date: string, clock: string)
    requires |date| == 10 && |clock| == 8
    ensures
      var s := date + " " + clock;
      && |s| == 19 && s[10] == ' ' && s[4] == date[4] && s[7] == date[7] && s[13] == clock[2] && s[16] == clock[5]
      && s[..4] == date[..4] && s[5..7] == date[5..7] && s[8..10] == date[8..]
      && s[11..13] == clock[..2] && s[14..16] == clock[3..5] && s[17..] == clock[6..]
  {
  }

  predicate Reads(s: string, n: int) {
    AllDigits(s) && Value(s) == n
  }

  lemma MonthRange(c: Components)
    requires ValidComponents(c)
    ensures 1 <= c.date.month <= 12 && 1 <= c.date.day <= 31
  {
  }

  lemma PaddedReads(n: int, width: nat, most: int)
    requires (width == 2 && most == 99) || (width == 4 && most == 9999)
    requires 0 <= n <= most
    ensures Reads(PaddedText(n, width), n) && |PaddedText(n, width)| == width
  {
    hide NatText, Value, Zeros;
    var digits := NatText(n);
    DigitCount(n, width);
    ValueOfNatText(n);
    ValueOfPadded(width - |digits|, digits);
    if |digits| == width {
      NoZeros(digits);
    }
  }

  lemma NoZeros(digits: string)
    ensures Zeros(0) + digits == digits
  {
  }

  lemma DigitCount(n: nat, width: nat)
    requires (width == 2 && n <= 99) || (width == 4 && n <= 9999)
    ensures |NatText(n)| <= width
  {
    assert |NatText(n / 1000)| == 1 || width == 2;
    assert |NatText(n / 100)| <= 2 || width == 2;
    assert width == 2 ==> |NatText(n / 10)| == 1;
  }

  /** A fraction of a second is read over, */
  lemma FractionIgnored(date: string, clock: string, fraction: string)
    requires ' ' !in date && '.' !in clock
    ensures ParseDatetime(date + " " + clock + "." + fraction) == ParseDatetime(date + " " + clock)
  {
    hide DaysFromCivil, ParseTriple, Find;
    ParseHalves(date, clock);
    var rest := clock + "." + fraction;
    var text := date + " " + clock + "." + fraction;
    assert text == date + [' '] + rest;
    FindAt(date, ' ', rest);
    FindAt(clock, '.', fraction);
    assert text[..|date|] == date && text[|date| + 1..] == rest && rest[..|clock|] == clock;
  }

  /** and whatever lacks the blank, or three numbers on a side of it, is no time. */
  lemma NoDatetime(date: string, clock: string)
    requires ' ' !in date && '.' !in clock
    ensures ParseDatetime(date) == None
    ensures |Split(date, '-')| != 3 || |Split(clock, ':')| != 3 ==> ParseDatetime(date + " " + clock) == None
  {
    hide DaysFromCivil, Find, Split, ParseI64;
    ParseHalves(date, clock);
    FindNone(date, ' ');
  }

  lemma YearRange(timestamp: i64)
    ensures -300_000_000_000 <= UtcComponents(timestamp).date.year <= 300_000_000_000
  {
    var era, yoe, mp, day := CivilPieces(timestamp / 86_400);
  }

  /** No value that the conversion of such a date computes leaves i64. */
  lemma DateStepsFitI64(date: Date)
    requires -300_000_000_000 <= date.year <= 300_000_000_000 && 1 <= date.month <= 12 && 1 <= date.day <= 31
    ensures
      var y := date.year - if date.month <= 2 then 1 else 0;
      var era := TruncDiv(if y >= 0 then y else y - 399, 400);
      var yoe := y - era * 400;
      var mp := date.month + if date.month > 2 then -3 else 9;
      var doy := TruncDiv(153 * mp + 2, 5) + date.day - 1;
      var doe := yoe * 365 + TruncDiv(yoe, 4) - TruncDiv(yoe, 100) + doy;
      && FitsI64(y) && FitsI64(y - 399) && FitsI64(era * 400) && FitsI64(yoe) && FitsI64(153 * mp + 2) && FitsI64(doy)
      && FitsI64(yoe * 365) && FitsI64(yoe * 365 + TruncDiv(yoe, 4)) && FitsI64(doe)
      && FitsI64(era * 146_097) && FitsI64(era * 146_097 + doe)
      && FitsI64(DaysFromCivil(date.year, date.month, date.day))
  {
  }

  /** Reading a printed timestamp computes nothing outside i64; one before year 0 is not read at all. */
  lemma ParseStepsFitI64(timestamp: i64)
    requires timestamp >= YEAR_ZERO
    ensures
      var c := UtcComponents(timestamp);
      var days := DaysFromCivil(c.date.year, c.date.month, c.date.day);
      && -300_000_000_000 <= c.date.year <= 300_000_000_000 && 1 <= c.date.month <= 12 && 1 <= c.date.day <= 31
      && FitsI64(days) && FitsI64(days * 86_400) && FitsI64(c.hour * 3600) && FitsI64(days * 86_400 + c.hour * 3600)
      && FitsI64(c.minute * 60) && FitsI64(days * 86_400 + c.hour * 3600 + c.minute * 60)
      && FitsI64(days * 86_400 + c.hour * 3600 + c.minute * 60 + c.second)
  {
    hide CivilFromDays, DaysFromCivil;
    UtcComponentsThenBack(timestamp);
    CivilFromDaysThenBack(timestamp / 86_400);
    YearRange(timestamp);
    ComponentsFitI64(timestamp);
  }
}
