/**
 * `parse_odata_datetime` (src/spconnect/services/odata.py:54, 249-270), which reads the two texts
 * of one point of time: the ISO form Atom uses and the `/Date(ms)/` form of JSON. Moments are
 * microseconds since 1970 in UTC. Python's `fromisoformat` is a parameter, known for the form Atom
 * uses.
 */
module Dates {
  import opened Options
  import opened Codecs

  // ---- the calendar ----

  predicate IsLeap(y: int) {
    y % 4 == 0 && (y % 100 != 0 || y % 400 == 0)
  }

  function DaysInMonth(y: int, m: int): int {
    if m == 2 then (if IsLeap(y) then 29 else 28)
    else if m == 4 || m == 6 || m == 9 || m == 11 then 30
    else 31
  }

  datatype Day = Day(year: int, month: int, day: int)

  predicate IsDay(d: Day) {
    1 <= d.year <= 9999 && 1 <= d.month <= 12 && 1 <= d.day <= DaysInMonth(d.year, d.month)
  }

  /** The days of a year before a month. */
  function BeforeMonth(y: int, m: int): int
    decreases m
  {
    if m <= 1 then 0 else BeforeMonth(y, m - 1) + DaysInMonth(y, m - 1)
  }

  function DaysInYear(y: int): int {
    if IsLeap(y) then 366 else 365
  }

  /** The days from the start of 1970 to that of a year. */
  function SinceEpoch(y: int): int
    decreases if y < 1970 then 1970 - y else y - 1970
  {
    if y == 1970 then 0
    else if y > 1970 then SinceEpoch(y - 1) + DaysInYear(y - 1)
    else SinceEpoch(y + 1) - DaysInYear(y)
  }

  /** Days since 1970-01-01. */
  function Days(d: Day): int {
    SinceEpoch(d.year) + BeforeMonth(d.year, d.month) + d.day - 1
  }

  function NextDay(d: Day): Day {
    if d.day < DaysInMonth(d.year, d.month) then d.(day := d.day + 1)
    else if d.month < 12 then Day(d.year, d.month + 1, 1)
    else Day(d.year + 1, 1, 1)
  }

  /** The count starts at the epoch and goes up by one from day to day, over the ends of months and
      years: there is no other such count. */
  lemma DaysCount(d: Day)
    requires IsDay(d)
    ensures Days(NextDay(d)) == Days(d) + 1 && Days(Day(1970, 1, 1)) == 0
  {
    if d.month == 12 {
      YearHas(d.year);
    }
  }

  lemma YearHas(y: int)
    ensures BeforeMonth(y, 12) + 31 == DaysInYear(y) && SinceEpoch(y + 1) == SinceEpoch(y) + DaysInYear(y)
  {
    assert BeforeMonth(y, 3) == 31 + DaysInMonth(y, 2);
    assert BeforeMonth(y, 6) == BeforeMonth(y, 3) + 92;
    assert BeforeMonth(y, 9) == BeforeMonth(y, 6) + 92;
    assert BeforeMonth(y, 12) == BeforeMonth(y, 9) + 91;
  }

  // ---- points of time ----

  /** Whether a time says nothing about its zone, is in UTC, or so many minutes ahead of it. */
  datatype Zone = Silent | Utc | Ahead(minutes: int)

  datatype Clock = Clock(day: Day, hour: int, minute: int, second: int)

  /** `fraction` is the digits behind the point. */
  datatype Time = Time(clock: Clock, fraction: string, zone: Zone)

  predicate IsClock(c: Clock) {
    IsDay(c.day) && 0 <= c.hour < 24 && 0 <= c.minute < 60 && 0 <= c.second < 60
  }

  predicate IsTime(t: Time) {
    && IsClock(t.clock) && (t.fraction == "" || AllDigits(t.fraction))
    && (t.zone.Ahead? ==> -1440 < t.zone.minutes < 1440)
  }

  const MINUTE := 60_000_000

  function DigitAt(s: string, i: nat): (d: int)
    ensures 0 <= d < 10
  {
    if i < |s| && IsDigit(s[i]) then s[i] as int - 0x30 else 0
  }

  /** Three digits from a place on. */
  function Three(fraction: string, i: nat): (n: int)
    ensures 0 <= n < 1000
  {
    100 * DigitAt(fraction, i) + 10 * DigitAt(fraction, i + 1) + DigitAt(fraction, i + 2)
  }

  /** The milliseconds of a time, in its own zone. */
  function Millis(c: Clock, fraction: string): int {
    (1440 * Days(c.day) + 60 * c.hour + c.minute) * 60_000 + 1_000 * c.second + Three(fraction, 0)
  }

  /** And the microseconds: of a fraction six digits, what follows them is cut off. */
  function Local(c: Clock, fraction: string): int {
    1_000 * Millis(c, fraction) + Three(fraction, 3)
  }

  function MinutesAhead(zone: Zone): int {
    if zone.Ahead? then zone.minutes else 0
  }

  /** The moment a time stands for; without a zone it is in UTC. */
  function Instant(t: Time): int {
    Local(t.clock, t.fraction) - MinutesAhead(t.zone) * MINUTE
  }

  // ---- the two texts ----

  function Digit(n: int): char {
    DigitChar(n % 10)
  }

  /** The last digits of a number, with zeros in front. */
  function Padded(n: int, width: nat): (s: string)
    ensures |s| == width && forall i :: 0 <= i < width ==> IsDigit(s[i])
    decreases width
  {
    if width == 0 then "" else Padded(n / 10, width - 1) + [Digit(n)]
  }

  function DayText(d: Day): (s: string)
    ensures |s| == 10
  {
    Padded(d.year, 4) + "-" + Padded(d.month, 2) + "-" + Padded(d.day, 2)
  }

  function ClockText(c: Clock): (s: string)
    ensures |s| == 19
  {
    DayText(c.day) + "T" + Padded(c.hour, 2) + ":" + Padded(c.minute, 2) + ":" + Padded(c.second, 2)
  }

  function Abs(n: int): nat {
    if n < 0 then -n else n
  }

  function Sign(n: int): char {
    if n < 0 then '-' else '+'
  }

  function AtomZone(zone: Zone): string {
    match zone
    case Silent => ""
    case Utc => "Z"
    case Ahead(n) =>
      var h, m := Abs(n) / 60, Abs(n) % 60;
      [Sign(n), Digit(h / 10), Digit(h), ':', Digit(m / 10), Digit(m)]
  }

  function FractionText(fraction: string): string {
    if fraction == "" then "" else "." + fraction
  }

  /** As in `2009-03-14T08:11:00`. */
  function AtomText(t: Time): string {
    ClockText(t.clock) + (FractionText(t.fraction) + AtomZone(t.zone))
  }

  /** The minutes a time is ahead of UTC, as four digits: `+0060` for an hour
      (src/spconnect/services/odata.py:54, tests/test_odata.py:62-63). */
  function JsonZone(zone: Zone): string {
    if zone.Ahead? then
      var n := Abs(zone.minutes);
      [Sign(zone.minutes), Digit(n / 1000), Digit(n / 100), Digit(n / 10), Digit(n)]
    else ""
  }

  const OPEN := "/Date("
  const CLOSE := ")/"

  /** As in `/Date(1237018260000)/`. */
  function JsonText(digits: string, zone: Zone): string {
    OPEN + (digits + JsonZone(zone)) + CLOSE
  }

  /** The digits in it are the whole milliseconds of the time that is ahead, in decimal. */
  ghost predicate Spells(digits: string, t: Time) {
    IsWhole(digits) && ReadInt(digits) == Some(Millis(t.clock, t.fraction))
  }

  // ---- the reader ----

  /** `-?\d+`. */
  predicate IsWhole(s: string) {
    AllDigits(s) || (s != "" && s[0] == '-' && AllDigits(s[1..]))
  }

  function Two(s: string, i: nat): int {
    10 * DigitAt(s, i) + DigitAt(s, i + 1)
  }

  predicate DigitsAt(s: string, i: nat, n: nat) {
    i + n <= |s| && forall k :: i <= k < i + n ==> IsDigit(s[k])
  }

  predicate SignAt(s: string, i: int) {
    0 <= i < |s| && (s[i] == '+' || s[i] == '-')
  }

  /** Between the brackets of `/Date(..)/`; an offset is read as hours and minutes, two digits each. */
  function ReadBody(body: string): Option<int> {
    var i := |body| - 5;
    if SignAt(body, i) && DigitsAt(body, i + 1, 4) && IsWhole(body[..i]) then
      var offset := (60 * Two(body, i + 1) + Two(body, i + 3)) * MINUTE;
      var at := 1000 * OrZero(ReadInt(body[..i]));
      Some(if body[i] == '+' then at - offset else at + offset)
    else if IsWhole(body) then Some(1000 * OrZero(ReadInt(body)))
    else None
  }

  function OrZero(n: Option<int>): int {
    if n.Some? then n.value else 0
  }

  function ReadDate(s: string): Option<int> {
    if |s| >= |OPEN| + |CLOSE| && OPEN <= s && s[|s| - |CLOSE|..] == CLOSE then
      ReadBody(s[|OPEN|..|s| - |CLOSE|])
    else None
  }

  /** `replace("Z", "+00:00")`. */
  function WithoutZ(s: string): string {
    if s == "" then "" else (if s[0] == 'Z' then "+00:00" else [s[0]]) + WithoutZ(s[1..])
  }

  predicate HasClock(s: string) {
    && DigitsAt(s, 0, 4) && DigitsAt(s, 5, 2) && DigitsAt(s, 8, 2) && DigitsAt(s, 11, 2) && DigitsAt(s, 14, 2)
    && DigitsAt(s, 17, 2) && s[4] == '-' && s[7] == '-' && s[10] == 'T' && s[13] == ':' && s[16] == ':'
  }

  function ReadClock(s: string): Clock {
    Clock(Day(100 * Two(s, 0) + Two(s, 2), Two(s, 5), Two(s, 8)), Two(s, 11), Two(s, 14), Two(s, 17))
  }

  predicate IsZone(s: string) {
    && |s| == 6 && SignAt(s, 0) && DigitsAt(s, 1, 2) && s[3] == ':' && DigitsAt(s, 4, 2)
    && Two(s, 1) < 24 && Two(s, 4) < 60
  }

  function ZoneMinutes(s: string): int {
    var minutes := 60 * Two(s, 1) + Two(s, 4);
    if SignAt(s, 0) && s[0] == '-' then -minutes else minutes
  }

  predicate EndsInZone(s: string) {
    |s| >= 6 && IsZone(s[|s| - 6..])
  }

  predicate IsFraction(s: string) {
    s == "" || (s[0] == '.' && AllDigits(s[1..]))
  }

  function Fraction(s: string): string {
    if s == "" then "" else s[1..]
  }

  /** What follows the seconds: a fraction and a zone, either of which may be missing. */
  function ReadRest(s: string): Option<(string, int)> {
    var i := |s| - 6;
    if EndsInZone(s) && IsFraction(s[..i]) then Some((Fraction(s[..i]), ZoneMinutes(s[i..])))
    else if IsFraction(s) then Some((Fraction(s), 0))
    else None
  }

  /** What `fromisoformat` makes of the form Atom uses, with UTC where no zone is named. */
  function ReadIso(s: string): Option<int> {
    if HasClock(s) && IsClock(ReadClock(s)) && ReadRest(s[19..]).Some? then
      var rest := ReadRest(s[19..]).value;
      Some(Local(ReadClock(s), rest.0) - rest.1 * MINUTE)
    else None
  }

  /** Python's `fromisoformat`: known for that form, and anything for other texts. */
  type Iso = string -> Option<int>

  ghost predicate ReadsForm(iso: Iso) {
    forall s {:trigger ReadIso(s)} :: ReadIso(s).Some? ==> iso(s) == ReadIso(s)
  }

  /** `parse_odata_datetime`. */
  function ReadMoment(value: string, iso: Iso): Option<int> {
    if value == "" then None else
      var date := ReadDate(Strip(value));
      if date.Some? then date else iso(WithoutZ(Strip(value)))
  }

  // ---- what is read from Atom ----

  lemma TwoDigits(n: int, s: string, i: nat)
    requires 0 <= n < 100 && i + 1 < |s| && s[i] == Digit(n / 10) && s[i + 1] == Digit(n)
    ensures Two(s, i) == n
  {
  }

  lemma FourDigits(n: int, s: string, i: nat)
    requires 0 <= n < 10_000 && i + 3 < |s|
    requires s[i] == Digit(n / 1000) && s[i + 1] == Digit(n / 100) && s[i + 2] == Digit(n / 10) && s[i + 3] == Digit(n)
    ensures Two(s, i) == n / 100 && Two(s, i + 2) == n % 100
  {
    HundredsAndRest(n);
    TwoDigits(n / 100, s, i);
    TwoDigits(n % 100, s, i + 2);
  }

  lemma Tens(a: int, b: int)
    requires a >= 0 && 0 <= b < 100
    ensures (100 * a + b) / 10 % 10 == b / 10 && (100 * a + b) % 10 == b % 10 && (100 * a + b) / 1000 == a / 10
  {
    assert (100 * a + b) / 10 == 10 * a + b / 10;
  }

  lemma HundredsAndRest(n: int)
    requires n >= 0
    ensures n / 100 / 10 == n / 1000
    ensures Digit(n % 100 / 10) == Digit(n / 10) && Digit(n % 100) == Digit(n)
  {
    Tens(n / 100, n % 100);
  }

  predicate IsPlain(s: string) {
    forall i :: 0 <= i < |s| ==> s[i] != 'Z'
  }

  lemma ClockIsPlain(c: Clock)
    ensures IsDigit(ClockText(c)[0]) && IsPlain(ClockText(c))
  {
    var day := DayText(c.day);
    assert day[0] == Padded(c.day.year, 4)[0] && ClockText(c)[0] == day[0];
    assert IsPlain(day) && IsPlain(day + "T" + Padded(c.hour, 2));
  }

  lemma {:induction false} PaddedTwo(n: int)
    ensures Padded(n, 2) == [Digit(n / 10), Digit(n)]
  {
    assert Padded(n / 10 / 10, 0) == "";
    assert Padded(n / 10, 1) == [Digit(n / 10)];
  }

  lemma {:induction false} PaddedFour(n: int)
    requires n >= 0
    ensures Padded(n, 4) == [Digit(n / 1000), Digit(n / 100), Digit(n / 10), Digit(n)]
  {
    PaddedTwo(n / 100);
    assert n / 10 / 10 == n / 100 && n / 100 / 10 == n / 1000;
    assert Padded(n / 10, 3) == Padded(n / 100, 2) + [Digit(n / 10)];
  }

  lemma DayIsText(d: Day)
    requires IsDay(d)
    ensures var (y, m, n) := (d.year, d.month, d.day);
      DayText(d) == [Digit(y / 1000), Digit(y / 100), Digit(y / 10), Digit(y), '-', Digit(m / 10), Digit(m), '-',
                     Digit(n / 10), Digit(n)]
  {
    PaddedFour(d.year);
    PaddedTwo(d.month);
    PaddedTwo(d.day);
  }

  /** Two digits, wherever they are. */
  predicate HasTwo(s: string, i: nat, n: int) {
    DigitsAt(s, i, 2) && Two(s, i) == n
  }

  lemma {:induction false} HasTwoOf(s: string, i: nat, n: int)
    requires 0 <= n < 100 && i + 2 <= |s| && s[i..i + 2] == Padded(n, 2)
    ensures HasTwo(s, i, n)
  {
    PaddedTwo(n);
    assert s[i] == s[i..i + 2][0] && s[i + 1] == s[i..i + 2][1];
    TwoDigits(n, s, i);
  }

  lemma DayIsRead(d: Day, s: string)
    requires IsDay(d) && |s| >= 19 && s[..10] == DayText(d)
    ensures DigitsAt(s, 0, 4) && DigitsAt(s, 5, 2) && DigitsAt(s, 8, 2) && s[4] == '-' && s[7] == '-'
    ensures Day(100 * Two(s, 0) + Two(s, 2), Two(s, 5), Two(s, 8)) == d
  {
    DayIsText(d);
    var t := DayText(d);
    assert forall i :: 0 <= i < 10 ==> s[i] == s[..10][i];
    FourDigits(d.year, s, 0);
    TwoDigits(d.month, s, 5);
    TwoDigits(d.day, s, 8);
  }

  lemma ClockIsRead(c: Clock, s: string)
    requires IsClock(c) && |s| >= 19 && s[..19] == ClockText(c)
    ensures HasClock(s) && ReadClock(s) == c
  {
    var t := ClockText(c);
    assert s[..10] == t[..10] == DayText(c.day);
    DayIsRead(c.day, s);
    assert s[10] == t[10] == 'T' && s[13] == t[13] == ':' && s[16] == t[16] == ':';
    assert s[11..13] == t[11..13] == Padded(c.hour, 2);
    HasTwoOf(s, 11, c.hour);
    assert s[14..16] == t[14..16] == Padded(c.minute, 2);
    HasTwoOf(s, 14, c.minute);
    assert s[17..19] == t[17..19] == Padded(c.second, 2);
    HasTwoOf(s, 17, c.second);
  }

  /** The zone once `Z` is replaced. */
  function ZoneRead(zone: Zone): string {
    if zone.Utc? then "+00:00" else AtomZone(zone)
  }

  lemma ZoneIsRead(zone: Zone)
    requires !zone.Silent? && (zone.Ahead? ==> -1440 < zone.minutes < 1440)
    ensures IsZone(ZoneRead(zone)) && ZoneMinutes(ZoneRead(zone)) == MinutesAhead(zone)
  {
    var s, n := ZoneRead(zone), Abs(MinutesAhead(zone));
    assert s == [Sign(MinutesAhead(zone)), Digit(n / 60 / 10), Digit(n / 60), ':', Digit(n % 60 / 10), Digit(n % 60)];
    TwoDigits(n / 60, s, 1);
    TwoDigits(n % 60, s, 4);
  }

  lemma NoSignNoZone(s: string)
    requires forall i :: 0 <= i < |s| ==> !SignAt(s, i)
    ensures !EndsInZone(s)
  {
    if |s| >= 6 {
      assert s[|s| - 6..][0] == s[|s| - 6] && !SignAt(s, |s| - 6);
    }
  }

  lemma FractionIsRead(fraction: string)
    requires fraction == "" || AllDigits(fraction)
    ensures IsFraction(FractionText(fraction)) && Fraction(FractionText(fraction)) == fraction
    ensures !EndsInZone(FractionText(fraction))
  {
    var s := FractionText(fraction);
    if fraction != "" {
      assert s[0] == '.' && s[1..] == fraction;
      forall i | 0 <= i < |s| ensures !SignAt(s, i) {
        assert i > 0 ==> s[i] == fraction[i - 1];
      }
      NoSignNoZone(s);
    }
  }

  lemma ZoneBehind(before: string, zone: string)
    requires IsZone(zone) && IsFraction(before)
    ensures ReadRest(before + zone) == Some((Fraction(before), ZoneMinutes(zone)))
  {
    var s := before + zone;
    assert s[..|s| - 6] == before && s[|s| - 6..] == zone;
  }

  lemma RestIsRead(fraction: string, zone: Zone)
    requires fraction == "" || AllDigits(fraction)
    requires zone.Ahead? ==> -1440 < zone.minutes < 1440
    ensures ReadRest(FractionText(fraction) + ZoneRead(zone)) == Some((fraction, MinutesAhead(zone)))
  {
    var before := FractionText(fraction);
    FractionIsRead(fraction);
    if zone.Silent? {
      assert before + ZoneRead(zone) == before;
    } else {
      ZoneIsRead(zone);
      ZoneBehind(before, ZoneRead(zone));
    }
  }

  lemma {:induction false} WithoutZBehind(before: string, s: string)
    requires IsPlain(before)
    ensures WithoutZ(before + s) == before + WithoutZ(s)
  {
    if before == "" {
      assert before + s == s;
    } else {
      assert (before + s)[1..] == before[1..] + s;
      WithoutZBehind(before[1..], s);
    }
  }

  lemma AtomWithoutZ(t: Time)
    requires IsTime(t)
    ensures WithoutZ(AtomText(t)) == ClockText(t.clock) + (FractionText(t.fraction) + ZoneRead(t.zone))
  {
    var before := ClockText(t.clock) + FractionText(t.fraction);
    assert AtomText(t) == before + AtomZone(t.zone);
    ClockIsPlain(t.clock);
    assert IsPlain(FractionText(t.fraction));
    WithoutZBehind(before, AtomZone(t.zone));
    ZoneWithoutZ(t.zone);
  }

  lemma ZoneWithoutZ(zone: Zone)
    ensures WithoutZ(AtomZone(zone)) == ZoneRead(zone)
  {
    if zone.Utc? {
      assert WithoutZ("Z") == "+00:00" + WithoutZ("");
    } else {
      WithoutZBehind(AtomZone(zone), "");
      assert AtomZone(zone) + "" == AtomZone(zone);
    }
  }

  lemma EndsUnblank(t: Time)
    requires IsTime(t)
    ensures var tail := FractionText(t.fraction) + AtomZone(t.zone); tail != "" ==> !Blank(tail[|tail| - 1])
  {
    var tail := FractionText(t.fraction) + AtomZone(t.zone);
    if t.zone.Silent? && t.fraction != "" {
      assert tail[|tail| - 1] == t.fraction[|t.fraction| - 1];
    }
  }

  lemma AtomEnds(t: Time)
    requires IsTime(t)
    ensures AtomText(t) != "" && Strip(AtomText(t)) == AtomText(t) && IsDigit(AtomText(t)[0])
  {
    var s := AtomText(t);
    var tail := FractionText(t.fraction) + AtomZone(t.zone);
    ClockIsPlain(t.clock);
    assert s[0] == ClockText(t.clock)[0];
    if tail == "" {
      assert s == ClockText(t.clock) && s[18] == Padded(t.clock.second, 2)[1];
    } else {
      assert s[|s| - 1] == tail[|tail| - 1];
      EndsUnblank(t);
    }
    StripIsIdentity(s);
  }

  lemma DigitsAreNoDate(s: string)
    requires s != "" && IsDigit(s[0])
    ensures ReadDate(s).None?
  {
  }

  lemma IsoIsRead(t: Time, s: string)
    requires |s| >= 19 && HasClock(s) && ReadClock(s) == t.clock && IsClock(t.clock)
    requires ReadRest(s[19..]) == Some((t.fraction, MinutesAhead(t.zone)))
    ensures ReadIso(s) == Some(Instant(t))
  {
  }

  lemma {:induction false} NoDateIsIso(value: string, plain: string, iso: Iso)
    requires value != "" && Strip(value) == value && ReadDate(value).None? && WithoutZ(value) == plain
    ensures ReadMoment(value, iso) == iso(plain)
  {
  }

  /** The Atom text of a time is read to its moment, whatever its zone and its digits. */
  lemma AtomIsRead(t: Time, iso: Iso)
    requires IsTime(t) && ReadsForm(iso)
    ensures ReadMoment(AtomText(t), iso) == Some(Instant(t))
  {
    var rest := FractionText(t.fraction) + ZoneRead(t.zone);
    AtomEnds(t);
    DigitsAreNoDate(AtomText(t));
    AtomWithoutZ(t);
    RestIsRead(t.fraction, t.zone);
    var plain := ClockText(t.clock) + rest;
    assert plain[..19] == ClockText(t.clock) && plain[19..] == rest;
    ClockIsRead(t.clock, plain);
    IsoIsRead(t, plain);
    NoDateIsIso(AtomText(t), plain, iso);
  }

  // ---- what is read from JSON ----

  lemma PrintSpells(t: Time)
    ensures Spells(Print(Millis(t.clock, t.fraction)), t)
  {
    PrintIsWhole(Millis(t.clock, t.fraction));
    ReadPrint(Millis(t.clock, t.fraction));
  }

  lemma PrintIsWhole(n: int)
    ensures IsWhole(Print(n))
  {
    if n < 0 {
      assert Print(n)[1..] == PrintNat(-n);
    }
  }

  lemma WholeHasNoOffset(digits: string)
    requires IsWhole(digits)
    ensures SignAt(digits, |digits| - 5) ==> !IsWhole(digits[..|digits| - 5])
  {
  }

  /** The minutes a four-digit offset is taken for. */
  function Taken(minutes: int): int {
    var n := 60 * (Abs(minutes) / 100) + Abs(minutes) % 100;
    if minutes < 0 then -n else n
  }

  function TakenZone(zone: Zone): int {
    if zone.Ahead? then Taken(zone.minutes) else 0
  }

  lemma BodyIsRead(digits: string, zone: Zone)
    requires IsWhole(digits) && (zone.Ahead? ==> -1440 < zone.minutes < 1440)
    ensures ReadBody(digits + JsonZone(zone)) ==
            Some(1000 * OrZero(ReadInt(digits)) - TakenZone(zone) * MINUTE)
  {
    if zone.Ahead? {
      OffsetIsRead(digits, zone.minutes);
    } else {
      assert digits + JsonZone(zone) == digits;
      WholeHasNoOffset(digits);
    }
  }

  lemma OffsetIsRead(digits: string, minutes: int)
    requires -1440 < minutes < 1440 && IsWhole(digits)
    ensures ReadBody(digits + JsonZone(Ahead(minutes))) ==
            Some(1000 * OrZero(ReadInt(digits)) - Taken(minutes) * MINUTE)
  {
    var body, i, m := digits + JsonZone(Ahead(minutes)), |digits|, Abs(minutes);
    var behind := JsonZone(Ahead(minutes));
    assert behind == [Sign(minutes), Digit(m / 1000), Digit(m / 100), Digit(m / 10), Digit(m)];
    assert body[..i] == digits;
    assert body[i] == behind[0] && body[i + 1] == behind[1] && body[i + 2] == behind[2] && body[i + 3] == behind[3]
           && body[i + 4] == behind[4];
    FourDigits(m, body, i + 1);
    assert (60 * Two(body, i + 1) + Two(body, i + 3)) == Abs(Taken(minutes));
  }

  lemma BracketsAreRead(body: string, iso: Iso)
    requires ReadBody(body).Some?
    ensures ReadMoment(OPEN + body + CLOSE, iso) == ReadBody(body)
  {
    var s := OPEN + body + CLOSE;
    assert s[0] == '/' && s[|s| - 1] == '/';
    StripIsIdentity(s);
    assert s[|OPEN|..|s| - |CLOSE|] == body && s[|s| - |CLOSE|..] == CLOSE;
  }

  /** The JSON text is read to its milliseconds, its offset taken for hours and minutes. */
  lemma JsonIsRead(digits: string, zone: Zone, iso: Iso)
    requires IsWhole(digits) && (zone.Ahead? ==> -1440 < zone.minutes < 1440)
    ensures ReadMoment(JsonText(digits, zone), iso) ==
            Some(1000 * OrZero(ReadInt(digits)) - TakenZone(zone) * MINUTE)
  {
    BodyIsRead(digits, zone);
    BracketsAreRead(digits + JsonZone(zone), iso);
  }

  // ---- together ----

  /** A whole number of milliseconds, less than a hundred minutes off UTC. */
  predicate IsShared(t: Time) {
    Three(t.fraction, 3) == 0 && -100 < MinutesAhead(t.zone) < 100
  }

  /** The JSON text of a time is read to its moment exactly when that is a whole number of milliseconds
      and its zone less than a hundred minutes off: minutes from a hundred on are taken for hours. */
  lemma JsonMomentExactly(t: Time, digits: string, iso: Iso)
    requires IsTime(t) && Spells(digits, t)
    ensures ReadMoment(JsonText(digits, t.zone), iso) == Some(Instant(t)) <==> IsShared(t)
  {
    JsonIsRead(digits, t.zone, iso);
    SpelledExactly(t, digits, ReadMoment(JsonText(digits, t.zone), iso));
  }

  lemma SpelledExactly(t: Time, digits: string, json: Option<int>)
    requires Spells(digits, t) && json == Some(1000 * OrZero(ReadInt(digits)) - TakenZone(t.zone) * MINUTE)
    ensures json == Some(Instant(t)) <==> IsShared(t)
  {
    SameInstantExactly(t);
  }

  /** So the two texts of a time are read to one moment exactly then. */
  lemma OneMomentExactly(t: Time, digits: string, iso: Iso)
    requires IsTime(t) && Spells(digits, t) && ReadsForm(iso)
    ensures ReadMoment(JsonText(digits, t.zone), iso) == ReadMoment(AtomText(t), iso) <==> IsShared(t)
  {
    AtomIsRead(t, iso);
    JsonMomentExactly(t, digits, iso);
  }

  lemma SameInstantExactly(t: Time)
    ensures 1000 * Millis(t.clock, t.fraction) - TakenZone(t.zone) * MINUTE == Instant(t) <==> IsShared(t)
  {
    TakenExactly(MinutesAhead(t.zone));
    NoneCancels(Three(t.fraction, 3), TakenZone(t.zone) - MinutesAhead(t.zone));
  }

  lemma NoneCancels(lost: int, off: int)
    requires 0 <= lost < 1000
    ensures lost + off * MINUTE == 0 <==> lost == 0 && off == 0
  {
  }

  lemma TakenExactly(minutes: int)
    ensures Taken(minutes) == minutes <==> -100 < minutes < 100
  {
  }

  // ---- by example, and across zones ----

  /** The same time an hour earlier on a clock that is an hour behind. */
  lemma ZonesAgree(c: Clock, fraction: string)
    requires 1 <= c.hour
    ensures Instant(Time(c, fraction, Ahead(60))) == Instant(Time(c.(hour := c.hour - 1), fraction, Utc))
    ensures Instant(Time(c, fraction, Silent)) == Instant(Time(c, fraction, Utc))
    ensures Instant(Time(c, fraction, Ahead(-60))) - Instant(Time(c, fraction, Ahead(60))) == 7_200_000_000
  {
  }

  lemma FiveYears(y: int)
    requires y >= 1970
    ensures SinceEpoch(y + 5) == SinceEpoch(y) + DaysInYear(y) + DaysInYear(y + 1) + DaysInYear(y + 2)
                                 + DaysInYear(y + 3) + DaysInYear(y + 4)
  {
    assert SinceEpoch(y + 2) == SinceEpoch(y) + DaysInYear(y) + DaysInYear(y + 1);
    assert SinceEpoch(y + 4) == SinceEpoch(y + 2) + DaysInYear(y + 2) + DaysInYear(y + 3);
  }

  lemma YearsSinceEpoch(y: int)
    requires y == 1970
    ensures SinceEpoch(y + 39) == 14245
  {
    FiveYears(y);
    FiveYears(y + 5);
    FiveYears(y + 10);
    FiveYears(y + 15);
    FiveYears(y + 20);
    FiveYears(y + 25);
    FiveYears(y + 30);
    assert SinceEpoch(y + 37) == SinceEpoch(y + 35) + 365 + 365;
    assert SinceEpoch(y + 39) == SinceEpoch(y + 37) + 365 + 366;
  }

  lemma {:induction false} MonthsBefore(y: int)
    requires !IsLeap(y)
    ensures BeforeMonth(y, 3) == 59
  {
    assert BeforeMonth(y, 1) == 0 && BeforeMonth(y, 2) == 31;
  }

  lemma LeapYears()
    ensures IsLeap(2000) && IsLeap(2008) && !IsLeap(2009) && IsLeap(2400)
    ensures !IsLeap(1900) && !IsLeap(2100) && !IsLeap(2200) && !IsLeap(2300)
  {
  }

  lemma MillisOf(c: Clock, days: int)
    requires Days(c.day) == days
    ensures Millis(c, "") == ((days * 24 + c.hour) * 60 + c.minute) * 60_000 + c.second * 1_000
  {
  }

  /** Eleven minutes past eight in the morning of 14 March 2009: the milliseconds JSON sends for it. */
  lemma ByExample(c: Clock)
    requires c.day.year == 2009 && c.day.month == 3 && c.day.day == 14
    requires c.hour == 8 && c.minute == 11 && c.second == 0
    ensures Millis(c, "") == 1_237_018_260_000
  {
    LeapYears();
    YearsSinceEpoch(c.day.year - 39);
    MonthsBefore(c.day.year);
    MillisOf(c, 14317);
  }

  /** The letters around the digits. */
  lemma JsonLooks(digits: string)
    ensures JsonText(digits, Silent) == "/Date(" + digits + ")/"
    ensures JsonText(digits, Ahead(60)) == "/Date(" + (digits + "+0060") + ")/"
    ensures JsonText(digits, Ahead(-90)) == "/Date(" + (digits + "-0090") + ")/"
  {
  }
}
