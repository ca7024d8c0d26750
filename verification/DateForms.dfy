/**
 * Which texts are read as dates, and to what: exactly the two forms of the service
 * (src/spconnect/services/odata.py:54, 249-270).
 */
module DateForms {
  import opened Options
  import opened Codecs
  import opened Dates

  // ---- dates and fractions ----

  /** The times there are, by the calendar. */
  lemma TimesAre(t: Time)
    ensures var (y, m, d) := (t.clock.day.year, t.clock.day.month, t.clock.day.day);
      IsTime(t) <==>
      && 1 <= y < 10_000 && 1 <= m < 13 && 1 <= d < 32
      && (m in {4, 6, 9, 11} ==> d != 31) && (m == 2 ==> d < 30)
      && (m == 2 && d == 29 ==> y % 4 == 0 && (y % 100 == 0 ==> y % 400 == 0))
      && 0 <= t.clock.hour <= 23 && 0 <= t.clock.minute <= 59 && 0 <= t.clock.second <= 59
      && (forall k :: 0 <= k < |t.fraction| ==> '0' <= t.fraction[k] <= '9')
      && (t.zone.Ahead? ==> -24 * 60 < t.zone.minutes < 24 * 60)
  {
  }

  /** A fraction's first six digits are its microseconds. */
  lemma FractionCounts(c: Clock, a: int, b: int, rest: string)
    requires 0 <= a < 1000 && 0 <= b < 1000
    ensures Local(c, ThreeDigits(a) + ThreeDigits(b) + rest) == Local(c, "") + 1000 * a + b
  {
    var f := ThreeDigits(a) + ThreeDigits(b) + rest;
    ThreeOf(a, f, 0);
    ThreeOf(b, f, 3);
  }

  function ThreeDigits(n: int): string {
    [Digit(n / 100), Digit(n / 10), Digit(n)]
  }

  lemma ThreeOf(n: int, s: string, i: nat)
    requires 0 <= n < 1000 && i + 3 <= |s|
    requires s[i] == Digit(n / 100) && s[i + 1] == Digit(n / 10) && s[i + 2] == Digit(n)
    ensures Three(s, i) == n
  {
    Tens(n / 100, n % 100);
    HundredsAndRest(n);
  }

  // ---- the forms ----

  /** Hours and minutes behind a sign, or nothing. */
  datatype Offset = Nothing | Offset(sign: char, hours: int, minutes: int)

  predicate IsOffset(o: Offset, hours: nat, minutes: nat) {
    o.Offset? ==> o.sign in {'+', '-'} && 0 <= o.hours < hours && 0 <= o.minutes < minutes
  }

  function OffsetText(o: Offset, between: string): string {
    if o.Nothing? then "" else
      [o.sign, Digit(o.hours / 10), Digit(o.hours)] + between + [Digit(o.minutes / 10), Digit(o.minutes)]
  }

  function Shift(o: Offset): int {
    if o.Nothing? then 0
    else if o.sign == '-' then -(60 * o.hours + o.minutes)
    else 60 * o.hours + o.minutes
  }

  /** Whole milliseconds and an offset, which come to a moment. */
  ghost predicate IsBody(body: string, at: int, digits: string, o: Offset) {
    && IsWhole(digits) && IsOffset(o, 100, 100) && body == digits + OffsetText(o, "")
    && at == 1000 * OrZero(ReadInt(digits)) - Shift(o) * MINUTE
  }

  /** What may stand behind a clock: a fraction and an offset. */
  ghost predicate IsRest(rest: string, fraction: string, o: Offset) {
    && (fraction == "" || AllDigits(fraction)) && IsOffset(o, 24, 60)
    && rest == FractionText(fraction) + OffsetText(o, ":")
  }

  /** A clock with that behind it, which come to a moment. */
  ghost predicate IsIsoText(s: string, at: int, c: Clock, fraction: string, o: Offset) {
    && IsClock(c) && |s| >= 19 && s[..19] == ClockText(c) && IsRest(s[19..], fraction, o)
    && at == Local(c, fraction) - Shift(o) * MINUTE
  }

  // ---- `/Date(..)/` ----

  lemma TwoBack(s: string, i: nat)
    requires DigitsAt(s, i, 2)
    ensures 0 <= Two(s, i) < 100 && [s[i], s[i + 1]] == [Digit(Two(s, i) / 10), Digit(Two(s, i))]
  {
  }

  lemma OffsetRead(digits: string, ms: int, o: Offset)
    requires IsWhole(digits) && OrZero(ReadInt(digits)) == ms && o.Offset? && IsOffset(o, 100, 100)
    ensures ReadBody(digits + OffsetText(o, "")) == Some(1000 * ms - Shift(o) * MINUTE)
  {
    var behind := OffsetText(o, "");
    var body, i := digits + behind, |digits|;
    assert behind == [o.sign, Digit(o.hours / 10), Digit(o.hours), Digit(o.minutes / 10), Digit(o.minutes)];
    assert |body| == i + 5 && body[..i] == digits && body[i] == o.sign;
    assert body[i + 1] == behind[1] && body[i + 2] == behind[2] && body[i + 3] == behind[3] && body[i + 4] == behind[4];
    TwoDigits(o.hours, body, i + 1);
    TwoDigits(o.minutes, body, i + 3);
  }

  lemma BodyRead(body: string, at: int, digits: string, o: Offset)
    requires IsBody(body, at, digits, o)
    ensures ReadBody(body) == Some(at)
  {
    if o.Offset? {
      OffsetRead(digits, OrZero(ReadInt(digits)), o);
    } else {
      assert body == digits;
      WholeHasNoOffset(digits);
    }
  }

  /** Every body that is read has that form. */
  lemma BodyHasForm(body: string) returns (digits: string, o: Offset)
    requires ReadBody(body).Some?
    ensures IsBody(body, ReadBody(body).value, digits, o)
  {
    var i := |body| - 5;
    if SignAt(body, i) && DigitsAt(body, i + 1, 4) && IsWhole(body[..i]) {
      TwoBack(body, i + 1);
      TwoBack(body, i + 3);
      digits, o := body[..i], Offset(body[i], Two(body, i + 1), Two(body, i + 3));
      assert body[i..] == [body[i]] + [body[i + 1], body[i + 2]] + [body[i + 3], body[i + 4]] == OffsetText(o, "");
    } else {
      digits, o := body, Nothing;
    }
  }

  lemma BracketsOff(body: string)
    ensures ReadDate("/Date(" + body + ")/") == ReadBody(body)
  {
    var s := OPEN + body + CLOSE;
    assert s[|OPEN|..|s| - |CLOSE|] == body && s[|s| - |CLOSE|..] == CLOSE;
  }

  lemma InBrackets(s: string)
    requires ReadDate(s).Some?
    ensures exists body :: s == "/Date(" + body + ")/" && ReadBody(body) == ReadDate(s)
  {
    var body := s[|OPEN|..|s| - |CLOSE|];
    assert s == "/Date(" + body + ")/";
  }

  lemma BodyExactly(body: string, at: int)
    ensures ReadBody(body) == Some(at) <==> exists digits, o :: IsBody(body, at, digits, o)
  {
    if ReadBody(body) == Some(at) {
      var digits, o := BodyHasForm(body);
    } else if exists digits, o :: IsBody(body, at, digits, o) {
      var digits, o :| IsBody(body, at, digits, o);
      BodyRead(body, at, digits, o);
      assert false;
    }
  }

  /** A text is read as `/Date(..)/` if and only if it is whole milliseconds with or without an offset
      between the brackets, and then to those milliseconds less the offset. */
  lemma DateExactly(s: string, at: int)
    ensures ReadDate(s) == Some(at) <==>
            exists body, digits, o :: s == "/Date(" + body + ")/" && IsBody(body, at, digits, o)
  {
    if ReadDate(s) == Some(at) {
      InBrackets(s);
      var body :| s == "/Date(" + body + ")/" && ReadBody(body) == ReadDate(s);
      BodyExactly(body, at);
    } else if exists body, digits, o :: s == "/Date(" + body + ")/" && IsBody(body, at, digits, o) {
      var body, digits, o :| s == "/Date(" + body + ")/" && IsBody(body, at, digits, o);
      BodyExactly(body, at);
      BracketsOff(body);
      assert false;
    }
  }

  // ---- ISO ----

  lemma OffsetIsZone(o: Offset)
    requires o.Offset? && IsOffset(o, 24, 60)
    ensures IsZone(OffsetText(o, ":")) && ZoneMinutes(OffsetText(o, ":")) == Shift(o)
  {
    var zone := OffsetText(o, ":");
    assert zone == [o.sign, Digit(o.hours / 10), Digit(o.hours), ':', Digit(o.minutes / 10), Digit(o.minutes)];
    TwoDigits(o.hours, zone, 1);
    TwoDigits(o.minutes, zone, 4);
  }

  lemma RestRead(rest: string, fraction: string, o: Offset)
    requires IsRest(rest, fraction, o)
    ensures ReadRest(rest) == Some((fraction, Shift(o)))
  {
    FractionIsRead(fraction);
    if o.Nothing? {
      assert rest == FractionText(fraction);
    } else {
      OffsetIsZone(o);
      ZoneBehind(FractionText(fraction), OffsetText(o, ":"));
    }
  }

  lemma RestHasForm(s: string) returns (fraction: string, o: Offset)
    requires ReadRest(s).Some?
    ensures IsRest(s, fraction, o)
  {
    var i := |s| - 6;
    if EndsInZone(s) && IsFraction(s[..i]) {
      var zone := s[i..];
      TwoBack(zone, 1);
      TwoBack(zone, 4);
      fraction, o := Fraction(s[..i]), Offset(zone[0], Two(zone, 1), Two(zone, 4));
      assert zone == [zone[0]] + [zone[1], zone[2]] + ":" + [zone[4], zone[5]] == OffsetText(o, ":");
      assert s == s[..i] + zone && s[..i] == FractionText(fraction);
    } else {
      fraction, o := Fraction(s), Nothing;
      assert s == FractionText(fraction);
    }
  }

  lemma FourBack(s: string)
    requires DigitsAt(s, 0, 4)
    ensures s[..4] == Padded(100 * Two(s, 0) + Two(s, 2), 4)
  {
    var (a, b) := (Two(s, 0), Two(s, 2));
    TwoBack(s, 0);
    TwoBack(s, 2);
    PaddedFour(100 * a + b);
    Tens(a, b);
    assert (100 * a + b) / 100 == a;
    assert s[..4] == [s[0], s[1]] + [s[2], s[3]];
  }

  lemma PairBack(s: string, i: nat)
    requires DigitsAt(s, i, 2)
    ensures s[i..i + 2] == Padded(Two(s, i), 2)
  {
    TwoBack(s, i);
    PaddedTwo(Two(s, i));
  }

  lemma Pieces(s: string)
    requires |s| >= 19 && HasClock(s)
    ensures s[..10] == s[..4] + "-" + s[5..7] + "-" + s[8..10]
    ensures s[..19] == s[..10] + "T" + s[11..13] + ":" + s[14..16] + ":" + s[17..19]
  {
  }

  lemma DayBack(s: string)
    requires |s| >= 19 && HasClock(s)
    ensures s[..10] == DayText(ReadClock(s).day)
  {
    Pieces(s);
    FourBack(s);
    PairBack(s, 5);
    PairBack(s, 8);
  }

  lemma ClockBack(s: string)
    requires |s| >= 19 && HasClock(s)
    ensures s[..19] == ClockText(ReadClock(s))
  {
    Pieces(s);
    DayBack(s);
    PairBack(s, 11);
    PairBack(s, 14);
    PairBack(s, 17);
  }

  lemma PartsRead(s: string, at: int, c: Clock, fraction: string, o: Offset)
    requires |s| >= 19 && HasClock(s) && ReadClock(s) == c && IsClock(c)
    requires ReadRest(s[19..]) == Some((fraction, Shift(o))) && at == Local(c, fraction) - Shift(o) * MINUTE
    ensures ReadIso(s) == Some(at)
  {
  }

  lemma IsoRead(s: string, at: int, c: Clock, fraction: string, o: Offset)
    requires IsIsoText(s, at, c, fraction, o)
    ensures ReadIso(s) == Some(at)
  {
    ClockIsRead(c, s);
    RestRead(s[19..], fraction, o);
    PartsRead(s, at, c, fraction, o);
  }

  lemma IsoHasForm(s: string, at: int) returns (c: Clock, fraction: string, o: Offset)
    requires ReadIso(s) == Some(at)
    ensures IsIsoText(s, at, c, fraction, o)
  {
    ClockBack(s);
    c := ReadClock(s);
    fraction, o := RestHasForm(s[19..]);
    RestRead(s[19..], fraction, o);
  }

  /** A text is read as an ISO time if and only if it is a clock's text with or without a fraction and
      an offset behind it, and then to that clock's microseconds less the offset. */
  lemma IsoExactly(s: string, at: int)
    ensures ReadIso(s) == Some(at) <==> exists c, fraction, o :: IsIsoText(s, at, c, fraction, o)
  {
    if ReadIso(s) == Some(at) {
      var c, fraction, o := IsoHasForm(s, at);
    } else if exists c, fraction, o :: IsIsoText(s, at, c, fraction, o) {
      var c, fraction, o :| IsIsoText(s, at, c, fraction, o);
      IsoRead(s, at, c, fraction, o);
      assert false;
    }
  }
}
