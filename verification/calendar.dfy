/** Dates from day counts, and timestamps from milliseconds, in the proleptic Gregorian calendar. */
module Calendar {
  import opened Base

  datatype Date = Date(year: int, month: int, day: int)

  // ---------- the calendar's own rules ----------

  predicate IsLeap(year: int) {
    year % 4 == 0 && (year % 100 != 0 || year % 400 == 0)
  }

  function MonthLength(year: int, month: int): int {
    if month == 2 then (if IsLeap(year) then 29 else 28)
    else if month in {4, 6, 9, 11} then 30
    else 31
  }

  predicate ValidDate(d: Date) {
    1 <= d.month <= 12 && 1 <= d.day <= MonthLength(d.year, d.month)
  }

  /** The next day on the calendar. */
  function Next(d: Date): Date {
    if d.day < MonthLength(d.year, d.month) then Date(d.year, d.month, d.day + 1)
    else if d.month < 12 then Date(d.year, d.month + 1, 1)
    else Date(d.year + 1, 1, 1)
  }

  predicate Earlier(a: Date, b: Date) {
    a.year < b.year || (a.year == b.year && (a.month < b.month || (a.month == b.month && a.day < b.day)))
  }

  // ---------- `civil_from_days` ----------

  /** The year, counted from March, within an era of 400 years. */
  function YearOfEra(doe: int): int {
    (doe - doe / 1460 + doe / 36524 - doe / 146096) / 365
  }

  function YearStart(yoe: int): int {
    365 * yoe + yoe / 4 - yoe / 100
  }

  function MonthStart(mp: int): int {
    (153 * mp + 2) / 5
  }

  function CivilFromDays(days: int): Date {
    var z := days + 719468;
    var era := Truncated(if z >= 0 then z else z - 146096, 146097);
    var doe := z - era * 146097;
    var yoe := YearOfEra(doe);
    var year := yoe + era * 400;
    var doy := doe - (365 * yoe + yoe / 4 - yoe / 100);
    var mp := (5 * doy + 2) / 153;
    var day := doy - (153 * mp + 2) / 5 + 1;
    var month := if mp < 10 then mp + 3 else mp - 9;
    Date(if month <= 2 then year + 1 else year, month, day)
  }

  // ---------- the day number of a date ----------

  /** The year that starts in the March on or before the date. */
  function MarchYear(d: Date): int {
    if d.month <= 2 then d.year - 1 else d.year
  }

  function MarchMonth(d: Date): int {
    if d.month <= 2 then d.month + 9 else d.month - 3
  }

  /** Days since 1970-01-01, by counting whole years, whole months and days. */
  function DayNumber(d: Date): int {
    var y := MarchYear(d);
    365 * y + y / 4 - y / 100 + y / 400 + MonthStart(MarchMonth(d)) + d.day - 1 - 719468
  }

  lemma EraSplit(z: int)
    ensures Truncated(if z >= 0 then z else z - 146096, 146097) == z / 146097
  {
  }

  /** A year of an era as centuries, four-year groups and years. */
  lemma YearParts(c: int, q: int, s: int)
    requires 0 <= c <= 3 && 0 <= q <= 24 && 0 <= s <= 3
    ensures var y := 100 * c + 4 * q + s; y / 4 == 25 * c + q && y / 100 == c && YearStart(y) == 36524 * c + 1461 * q + 365 * s
    ensures IsLeap(100 * c + 4 * q + s + 1) <==> s == 3 && (q < 24 || c == 3)
  {
    var y := 100 * c + 4 * q + s;
    assert y / 100 == c && y / 4 == 25 * c + q;
    assert (y + 1) % 4 == 0 <==> s == 3;
    assert s == 3 ==> ((y + 1) % 100 == 0 <==> q == 24);
    assert s == 3 && q == 24 ==> ((y + 1) % 400 == 0 <==> c == 3);
  }

  /** The length of the year that starts in March of year `y`; its February lies in year `y + 1`. */
  function MarchYearLength(y: int): int {
    if IsLeap(y + 1) then 366 else 365
  }

  /** The year of an era is found from any of its days. */
  lemma YearFound(c: int, q: int, s: int, r: int)
    requires 0 <= c <= 3 && 0 <= q <= 24 && 0 <= s <= 3 && 0 <= r < MarchYearLength(100 * c + 4 * q + s)
    ensures YearOfEra(36524 * c + 1461 * q + 365 * s + r) == 100 * c + 4 * q + s
  {
    YearParts(c, q, s);
    var doe := 36524 * c + 1461 * q + 365 * s + r;
    var last := c == 3 && q == 24 && s == 3 && r == 365;
    var carry := if 24 * c + q + 365 * s + r >= 1460 then 1 else 0;
    assert doe / 1460 == 25 * c + q + carry;
    assert doe / 36524 == if last then 4 else c;
    assert doe / 146096 == if last then 1 else 0;
    assert 0 <= r - carry <= 364;
  }

  lemma DayParts(doe: int) returns (c: int, q: int, s: int, r: int)
    requires 0 <= doe < 146097
    ensures 0 <= c <= 3 && 0 <= q <= 24 && 0 <= s <= 3 && 0 <= r < MarchYearLength(100 * c + 4 * q + s)
    ensures doe == 36524 * c + 1461 * q + 365 * s + r
  {
    c := if doe == 146096 then 3 else doe / 36524;
    var inCentury := doe - 36524 * c;
    q := inCentury / 1461;
    var inGroup := inCentury - 1461 * q;
    s := if inGroup == 1460 then 3 else inGroup / 365;
    r := inGroup - 365 * s;
    YearParts(c, q, s);
  }

  /** Every day of an era lies in the year the formula finds. */
  lemma YearHolds(doe: int)
    requires 0 <= doe < 146097
    ensures var yoe := YearOfEra(doe); 0 <= yoe < 400 && 0 <= doe - YearStart(yoe) < MarchYearLength(yoe)
  {
    var c, q, s, r := DayParts(doe);
    YearFound(c, q, s, r);
    YearParts(c, q, s);
  }

  /** Conversely, the formula finds the year of every day. */
  lemma YearUnique(yoe: int, doy: int)
    requires 0 <= yoe < 400 && 0 <= doy < MarchYearLength(yoe)
    ensures 0 <= YearStart(yoe) + doy < 146097 && YearOfEra(YearStart(yoe) + doy) == yoe
  {
    var c := yoe / 100;
    var q := (yoe - 100 * c) / 4;
    var s := yoe - 100 * c - 4 * q;
    YearParts(c, q, s);
    YearFound(c, q, s, doy);
  }

  /** The month formula finds the March-based month of every day of the year. */
  lemma MonthHolds(doy: int)
    requires 0 <= doy <= 365
    ensures var mp := (5 * doy + 2) / 153; 0 <= mp <= 11 && MonthStart(mp) <= doy < MonthStart(mp + 1)
  {
  }

  /** Month lengths as the table of starts has them; February takes what is left of the year. */
  lemma MonthLengths(d: Date)
    requires 1 <= d.month <= 12
    ensures var mp := MarchMonth(d);
            0 <= mp <= 11
            && MonthStart(mp) + MonthLength(d.year, d.month) == if mp < 11 then MonthStart(mp + 1) else MarchYearLength(MarchYear(d))
  {
    if d.month == 2 {
      assert MarchYear(d) + 1 == d.year;
    }
  }

  /** Leap years repeat in every era. */
  lemma EraLeap(yoe: int, era: int)
    ensures IsLeap(yoe + era * 400 + 1) <==> IsLeap(yoe + 1)
  {
    var y := yoe + 1;
    Mod4(y, 100 * era);
    Mod100(y, 4 * era);
    Mod400(y, era);
  }

  lemma Mod4(y: int, t: int)
    ensures (y + 4 * t) % 4 == y % 4
  {
  }

  lemma Mod100(y: int, t: int)
    ensures (y + 100 * t) % 100 == y % 100
  {
  }

  lemma Mod400(y: int, t: int)
    ensures (y + 400 * t) % 400 == y % 400
  {
  }

  lemma EraDays(yoe: int, era: int)
    requires 0 <= yoe < 400
    ensures var y := yoe + era * 400; 365 * y + y / 4 - y / 100 + y / 400 == YearStart(yoe) + era * 146097
  {
    var y := yoe + era * 400;
    assert y / 4 == yoe / 4 + 100 * era;
    assert y / 100 == yoe / 100 + 4 * era;
    assert y / 400 == era;
  }

  /** The date of day `doy` of the year that starts in March of year `year`. */
  function FromMarch(year: int, doy: int): Date {
    var mp := (5 * doy + 2) / 153;
    var month := if mp < 10 then mp + 3 else mp - 9;
    Date(if month <= 2 then year + 1 else year, month, doy - MonthStart(mp) + 1)
  }

  lemma CivilShape(days: int, era: int, yoe: int, doy: int)
    requires 0 <= yoe < 400 && 0 <= doy < MarchYearLength(yoe) && days + 719468 == era * 146097 + YearStart(yoe) + doy
    ensures CivilFromDays(days) == FromMarch(yoe + era * 400, doy)
  {
    hide YearOfEra, IsLeap;
    var z := days + 719468;
    EraSplit(z);
    YearUnique(yoe, doy);
    var doe := YearStart(yoe) + doy;
    assert z / 146097 == era && z - era * 146097 == doe;
  }

  /** The date of any day is valid, and has that day number. */
  lemma CivilValid(days: int)
    ensures ValidDate(CivilFromDays(days)) && DayNumber(CivilFromDays(days)) == days
  {
    hide YearOfEra, YearStart, CivilFromDays;
    var z := days + 719468;
    var era, doe := z / 146097, z % 146097;
    var yoe := YearOfEra(doe);
    YearHolds(doe);
    var doy := doe - YearStart(yoe);
    CivilShape(days, era, yoe, doy);
    EraLeap(yoe, era);
    EraDays(yoe, era);
    FromMarchOk(yoe + era * 400, doy);
  }

  lemma FromMarchOk(year: int, doy: int)
    requires 0 <= doy < MarchYearLength(year)
    ensures var d := FromMarch(year, doy);
            ValidDate(d) && MarchYear(d) == year && MonthStart(MarchMonth(d)) + d.day - 1 == doy
  {
    MonthHolds(doy);
    MonthLengths(FromMarch(year, doy));
  }

  /** A day number belongs to one valid date only. */
  lemma CivilInverts(d: Date)
    requires ValidDate(d)
    ensures CivilFromDays(DayNumber(d)) == d
  {
    hide YearOfEra, YearStart, CivilFromDays, IsLeap;
    var y := MarchYear(d);
    var era, yoe := y / 400, y % 400;
    var doy := MonthStart(MarchMonth(d)) + d.day - 1;
    EraLeap(yoe, era);
    DayOfYear(d);
    EraDays(yoe, era);
    CivilShape(DayNumber(d), era, yoe, doy);
  }

  lemma DayOfYear(d: Date)
    requires ValidDate(d)
    ensures var doy := MonthStart(MarchMonth(d)) + d.day - 1;
            0 <= doy < MarchYearLength(MarchYear(d)) && FromMarch(MarchYear(d), doy) == d
  {
    var mp := MarchMonth(d);
    MonthLengths(d);
    if mp < 11 {
      MonthStartGrows(mp);
    }
    MonthFound(mp, MonthStart(mp) + d.day - 1);
  }

  lemma MonthStartGrows(mp: int)
    requires 0 <= mp <= 10
    ensures MonthStart(mp + 1) <= 337
  {
  }

  lemma MonthFound(mp: int, doy: int)
    requires 0 <= mp <= 11 && MonthStart(mp) <= doy && (if mp < 11 then doy < MonthStart(mp + 1) else doy <= 365)
    ensures (5 * doy + 2) / 153 == mp
  {
  }

  /** The day after has the next date. */
  lemma CivilSuccessor(days: int)
    ensures CivilFromDays(days + 1) == Next(CivilFromDays(days))
  {
    hide CivilFromDays, Next, DayNumber, ValidDate;
    CivilValid(days);
    NextNumber(CivilFromDays(days));
    CivilInverts(Next(CivilFromDays(days)));
  }

  lemma NextNumber(d: Date)
    requires ValidDate(d)
    ensures ValidDate(Next(d)) && DayNumber(Next(d)) == DayNumber(d) + 1 && Earlier(d, Next(d))
  {
    MonthLengths(d);
    if d.day == MonthLength(d.year, d.month) && d.month == 2 {
      MarchYearNext(MarchYear(d));
    }
  }

  lemma MarchYearNext(y: int)
    ensures 365 * (y + 1) + (y + 1) / 4 - (y + 1) / 100 + (y + 1) / 400
            == 365 * y + y / 4 - y / 100 + y / 400 + MarchYearLength(y)
  {
    assert (y + 1) / 4 - y / 4 == if (y + 1) % 4 == 0 then 1 else 0;
    assert (y + 1) / 100 - y / 100 == if (y + 1) % 100 == 0 then 1 else 0;
    assert (y + 1) / 400 - y / 400 == if (y + 1) % 400 == 0 then 1 else 0;
    assert (y + 1) % 400 == 0 ==> (y + 1) % 100 == 0;
    assert (y + 1) % 100 == 0 ==> (y + 1) % 4 == 0;
  }

  lemma Epoch()
    ensures CivilFromDays(0) == Date(1970, 1, 1)
  {
    hide CivilFromDays;
    assert DayNumber(Date(1970, 1, 1)) == 0;
    CivilInverts(Date(1970, 1, 1));
  }

  /** Later days have later dates, so no two days share a date. */
  lemma {:induction false} CivilIncreases(a: int, b: int)
    requires a < b
    ensures Earlier(CivilFromDays(a), CivilFromDays(b))
    decreases b - a
  {
    hide CivilFromDays, Next, ValidDate, DayNumber;
    CivilValid(b - 1);
    NextNumber(CivilFromDays(b - 1));
    CivilSuccessor(b - 1);
    if a < b - 1 {
      CivilIncreases(a, b - 1);
    }
  }

  // ---------- timestamps ----------

  const MS_PER_DAY: int := 86400000

  datatype Instant = Instant(date: Date, hour: int, minute: int, second: int, milli: int)

  predicate ValidInstant(i: Instant) {
    ValidDate(i.date) && 0 <= i.hour < 24 && 0 <= i.minute < 60 && 0 <= i.second < 60 && 0 <= i.milli < 1000
  }

  /** The fields that `to_iso8601` prints. */
  function Fields(millis: int): Instant {
    var days, rem := millis / MS_PER_DAY, millis % MS_PER_DAY;
    Instant(CivilFromDays(days), rem / 3600000, rem / 60000 % 60, rem / 1000 % 60, rem % 1000)
  }

  function Millis(i: Instant): int {
    DayNumber(i.date) * MS_PER_DAY + i.hour * 3600000 + i.minute * 60000 + i.second * 1000 + i.milli
  }

  /** The printed fields are those of one instant, and no millisecond is lost. */
  lemma FieldsRoundTrip(millis: int)
    ensures ValidInstant(Fields(millis)) && Millis(Fields(millis)) == millis
  {
    hide CivilFromDays, DayNumber;
    CivilValid(millis / MS_PER_DAY);
    TimeOfDay(millis % MS_PER_DAY);
  }

  lemma TimeOfDay(rem: int)
    requires 0 <= rem < MS_PER_DAY
    ensures rem / 3600000 < 24
    ensures rem == rem / 3600000 * 3600000 + rem / 60000 % 60 * 60000 + rem / 1000 % 60 * 1000 + rem % 1000
  {
    var seconds := rem / 1000;
    var minutes := seconds / 60;
    assert minutes == rem / 60000 && minutes / 60 == rem / 3600000;
  }

  lemma FieldsOnto(i: Instant)
    requires ValidInstant(i)
    ensures Fields(Millis(i)) == i
  {
    hide CivilFromDays, DayNumber;
    CivilInverts(i.date);
    var rem := i.hour * 3600000 + i.minute * 60000 + i.second * 1000 + i.milli;
    assert 0 <= rem < MS_PER_DAY;
    assert Millis(i) / MS_PER_DAY == DayNumber(i.date) && Millis(i) % MS_PER_DAY == rem;
    assert rem / 1000 == i.hour * 3600 + i.minute * 60 + i.second;
    assert rem / 60000 == i.hour * 60 + i.minute;
  }
}
