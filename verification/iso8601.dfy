/** `neko::util::time::parseToUTCTime`: the timestamp text
    `YYYY-MM-DD(T|t)hh:mm:ss[.fraction][Z|(+|-)hh[:]mm]` read as seconds since
    1970-01-01T00:00:00Z. The `std::regex` is a hand-written recogniser of the
    same language, and `timegm` is the POSIX normalisation of the broken-down
    fields followed by the days-from-civil count of the proleptic Gregorian
    calendar. */
module Iso8601 {
  import opened Wrappers
  import opened Arith

  predicate IsDigit(c: char) {
    '0' <= c <= '9'
  }

  predicate AllDigits(s: string) {
    forall i :: 0 <= i < |s| ==> IsDigit(s[i])
  }

  /** `std::stoi` of a run of decimal digits. */
  function DecimalValue(s: string): (v: nat)
    requires AllDigits(s)
    ensures v < Pow(10, |s|)
  {
    if s == [] then 0
    else DecimalValue(s[..|s| - 1]) * 10 + (s[|s| - 1] as int - '0' as int)
  }

  // ------------------------------------------------------------ the grammar

  /** The optional zone: none, `Z`, or a signed offset with or without the
      colon between hours and minutes. */
  datatype Zone = Absent | Utc | Offset(plus: bool, hours: string, colon: bool, minutes: string)

  /** The parts of a timestamp text, each field kept as its digit text. */
  datatype Stamp = Stamp(year: string, month: string, day: string, separator: char,
                         hour: string, minute: string, second: string,
                         fraction: Option<string>, zone: Zone)

  predicate ValidZone(z: Zone) {
    z.Offset? ==> |z.hours| == 2 && |z.minutes| == 2 && AllDigits(z.hours) && AllDigits(z.minutes)
  }

  predicate ValidFraction(f: Option<string>) {
    f.Some? ==> |f.value| > 0 && AllDigits(f.value)
  }

  /** The parts of a text the expression matches: four digits of year, two
      digits for every other field, `T` or `t`, and a fraction of one digit or
      more. */
  predicate ValidStamp(st: Stamp) {
    && |st.year| == 4 && AllDigits(st.year)
    && |st.month| == 2 && AllDigits(st.month)
    && |st.day| == 2 && AllDigits(st.day)
    && (st.separator == 'T' || st.separator == 't')
    && |st.hour| == 2 && AllDigits(st.hour)
    && |st.minute| == 2 && AllDigits(st.minute)
    && |st.second| == 2 && AllDigits(st.second)
    && ValidFraction(st.fraction)
    && ValidZone(st.zone)
  }

  function RenderZone(z: Zone): string {
    match z
    case Absent => ""
    case Utc => "Z"
    case Offset(plus, hh, colon, mm) =>
      [if plus then '+' else '-'] + hh + (if colon then ":" else "") + mm
  }

  function RenderFraction(f: Option<string>): string {
    match f
    case None => ""
    case Some(digits) => "." + digits
  }

  /** Character `i` of the fixed 19 characters `YYYY-MM-DDThh:mm:ss`. */
  function HeadChar(st: Stamp, i: nat): char
    requires ValidStamp(st) && i < 19
  {
    if i < 4 then st.year[i]
    else if i == 4 || i == 7 then '-'
    else if i < 7 then st.month[i - 5]
    else if i < 10 then st.day[i - 8]
    else if i == 10 then st.separator
    else if i < 13 then st.hour[i - 11]
    else if i == 13 || i == 16 then ':'
    else if i < 16 then st.minute[i - 14]
    else st.second[i - 17]
  }

  function Head(st: Stamp): (h: string)
    requires ValidStamp(st)
    ensures |h| == 19
  {
    seq(19, i requires 0 <= i < 19 => HeadChar(st, i))
  }

  /** The text of the parts: the language of the expression is exactly the
      texts of valid stamps. */
  function Render(st: Stamp): string
    requires ValidStamp(st)
  {
    Head(st) + RenderFraction(st.fraction) + RenderZone(st.zone)
  }

  // ------------------------------------------------------------- recogniser

  /** The length of the run of digits at the front of `s`. */
  function DigitRun(s: string): (k: nat)
    ensures k <= |s| && AllDigits(s[..k])
    ensures k < |s| ==> !IsDigit(s[k])
  {
    if s == [] || !IsDigit(s[0]) then 0
    else
      var k := DigitRun(s[1..]);
      assert s[..k + 1] == [s[0]] + s[1..][..k];
      k + 1
  }

  /** The zone at the end of the text, or `None` when the rest is not one. */
  function ParseZone(r: string): (z: Option<Zone>)
    ensures z.Some? ==> ValidZone(z.value) && RenderZone(z.value) == r
  {
    if r == "" then Some(Absent)
    else if r == "Z" then Some(Utc)
    else if (|r| == 5 || |r| == 6) && (r[0] == '+' || r[0] == '-') && AllDigits(r[1..3]) then
      var colon := |r| == 6;
      var mm := if colon then r[4..6] else r[3..5];
      if (colon ==> r[3] == ':') && AllDigits(mm) then
        var z := Offset(r[0] == '+', r[1..3], colon, mm);
        assert RenderZone(z) == [r[0]] + r[1..3] + (if colon then ":" else "") + mm;
        assert r == [r[0]] + r[1..3] + (if colon then ":" else "") + mm;
        Some(z)
      else None
    else None
  }

  /** What follows the seconds: an optional fraction, then the zone. The
      fraction takes every digit after the `.`: no zone starts with a digit,
      so that is the only way the rest can match. */
  function ParseTail(r: string): (t: Option<(Option<string>, Zone)>)
    ensures t.Some? ==> ValidFraction(t.value.0) && ValidZone(t.value.1)
    ensures t.Some? ==> RenderFraction(t.value.0) + RenderZone(t.value.1) == r
  {
    if |r| > 0 && r[0] == '.' then
      var k := DigitRun(r[1..]);
      if k == 0 then None
      else
        match ParseZone(r[1..][k..])
        case None => None
        case Some(z) =>
          DotSplit(r, k);
          Some((Some(r[1..][..k]), z))
    else
      match ParseZone(r)
      case None => None
      case Some(z) =>
        assert "" + r == r;
        Some((None, z))
  }

  /** The fixed-width part of the expression: date, separator and time of day
      at their positions, with neither fraction nor zone yet. */
  function ParseHead(s: string): (h: Option<Stamp>)
    requires |s| >= 19
    ensures h.Some? ==> ValidStamp(h.value) && Head(h.value) == s[..19]
    ensures h.Some? ==> h.value.fraction == None && h.value.zone == Absent
  {
    if !(s[4] == '-' && s[7] == '-' && s[13] == ':' && s[16] == ':') then None
    else
      var h := Stamp(s[..4], s[5..7], s[8..10], s[10], s[11..13], s[14..16], s[17..19], None, Absent);
      if !ValidStamp(h) then None
      else
        HeadAt(s, h);
        Some(h)
  }

  lemma DotSplit(r: string, k: nat)
    requires |r| > 0 && r[0] == '.' && k < |r|
    ensures r == "." + r[1..][..k] + r[1..][k..]
  {
    assert r == [r[0]] + r[1..];
  }

  /** `std::regex_match` of the expression, with its capture groups. */
  function Parse(s: string): (st: Option<Stamp>)
    ensures st.Some? ==> ValidStamp(st.value) && Render(st.value) == s
  {
    if |s| < 19 then None
    else
      match ParseHead(s)
      case None => None
      case Some(h) =>
        match ParseTail(s[19..])
        case None => None
        case Some(tail) =>
          HeadAndTail(s, h, tail.0, tail.1);
          Some(h.(fraction := tail.0, zone := tail.1))
  }

  /** The head of the text sits at its fixed positions. */
  lemma HeadAt(s: string, h: Stamp)
    requires ValidStamp(h) && |s| >= 19
    requires h.year == s[..4] && h.month == s[5..7] && h.day == s[8..10] && h.separator == s[10]
    requires h.hour == s[11..13] && h.minute == s[14..16] && h.second == s[17..19]
    requires s[4] == '-' && s[7] == '-' && s[13] == ':' && s[16] == ':'
    ensures Head(h) == s[..19]
  {
  }

  /** A head and a tail that match the two parts of the text make up a stamp
      of the whole text. */
  lemma HeadAndTail(s: string, h: Stamp, f: Option<string>, z: Zone)
    requires ValidStamp(h) && |s| >= 19 && Head(h) == s[..19]
    requires ValidFraction(f) && ValidZone(z) && RenderFraction(f) + RenderZone(z) == s[19..]
    ensures ValidStamp(h.(fraction := f, zone := z))
    ensures Render(h.(fraction := f, zone := z)) == s
  {
    var st := h.(fraction := f, zone := z);
    assert Head(st) == Head(h) by {
      forall i | 0 <= i < 19
        ensures Head(st)[i] == Head(h)[i]
      {
      }
    }
    assert s == s[..19] + s[19..];
  }

  /** Every text of a valid stamp is matched, with the stamp's parts as the
      groups; with `Parse`'s own contract, `Parse(s)` is `None` exactly when
      `s` is the text of no valid stamp. */
  lemma {:induction false} ParseRender(st: Stamp)
    requires ValidStamp(st)
    ensures Parse(Render(st)) == Some(st)
  {
    var s := Render(st);
    var tail := RenderFraction(st.fraction) + RenderZone(st.zone);
    assert s == Head(st) + tail;
    assert s[..19] == Head(st) && s[19..] == tail;
    HeadFields(st, s);
    TailRoundTrip(st.fraction, st.zone);
  }

  lemma TailRoundTrip(f: Option<string>, z: Zone)
    requires ValidFraction(f) && ValidZone(z)
    ensures ParseTail(RenderFraction(f) + RenderZone(z)) == Some((f, z))
  {
    ZoneRoundTrip(z);
    match f
    case None =>
      assert RenderFraction(f) + RenderZone(z) == RenderZone(z);
      if |RenderZone(z)| > 0 {
        ZoneStart(z);
      }
    case Some(digits) =>
      FractionSplit(digits, RenderZone(z));
  }

  /** After the `.`, the digit run is the fraction and the rest is the zone. */
  lemma FractionSplit(f: string, rest: string)
    requires |f| > 0 && AllDigits(f)
    requires |rest| > 0 ==> !IsDigit(rest[0])
    ensures var r := "." + f + rest;
      && r[1..] == f + rest && DigitRun(r[1..]) == |f|
      && r[1..][..|f|] == f && r[1..][|f|..] == rest
  {
    DigitRunOf(f, rest);
  }

  /** The fixed-position fields of a rendered stamp. */
  lemma HeadFields(st: Stamp, s: string)
    requires ValidStamp(st) && |s| >= 19 && s[..19] == Head(st)
    ensures s[..4] == st.year && s[5..7] == st.month && s[8..10] == st.day && s[10] == st.separator
    ensures s[11..13] == st.hour && s[14..16] == st.minute && s[17..19] == st.second
    ensures s[4] == '-' && s[7] == '-' && s[13] == ':' && s[16] == ':'
  {
    var h := Head(st);
    assert forall i :: 0 <= i < 19 ==> s[i] == HeadChar(st, i);
  }

  /** A zone never starts with `.`. */
  lemma ZoneStart(z: Zone)
    requires |RenderZone(z)| > 0
    ensures RenderZone(z)[0] != '.' && !IsDigit(RenderZone(z)[0])
  {
  }

  /** The digit run of digits followed by a zone is the digits. */
  lemma {:induction false} DigitRunOf(f: string, rest: string)
    requires AllDigits(f)
    requires |rest| > 0 ==> !IsDigit(rest[0])
    ensures DigitRun(f + rest) == |f|
    decreases |f|
  {
    if f == [] {
      assert f + rest == rest;
    } else {
      assert (f + rest)[1..] == f[1..] + rest;
      DigitRunOf(f[1..], rest);
    }
  }

  lemma ZoneRoundTrip(z: Zone)
    requires ValidZone(z)
    ensures ParseZone(RenderZone(z)) == Some(z)
  {
    match z
    case Absent =>
    case Utc =>
    case Offset(plus, hh, colon, mm) =>
      var r := RenderZone(z);
      assert r[1..3] == hh;
      if colon {
        assert r[4..6] == mm;
      } else {
        assert r[3..5] == mm;
      }
  }

  // --------------------------------------------------------------- calendar

  /** Leap years of the Gregorian calendar. */
  predicate IsLeap(y: int) {
    y % 4 == 0 && (y % 100 != 0 || y % 400 == 0)
  }

  function DaysInMonth(y: int, m: int): (n: nat)
    requires 1 <= m <= 12
    ensures 28 <= n <= 31
  {
    if m == 2 then (if IsLeap(y) then 29 else 28)
    else if m == 4 || m == 6 || m == 9 || m == 11 then 30
    else 31
  }

  /** Days from 0000-03-01 to March 1st of year `y`, counted in eras of 400
      years of 146097 days. */
  function MarchDays(y: int): int {
    var era := y / 400;
    var yoe := y - era * 400;
    era * 146097 + yoe * 365 + yoe / 4 - yoe / 100
  }

  /** The days-from-civil count: days since 1970-01-01 of day `d` of month
      `m` of year `y`; the year is taken to start on March 1st so that the
      leap day comes last. */
  function DaysFromCivil(y: int, m: int, d: int): int
    requires 1 <= m <= 12
  {
    var shifted := if m <= 2 then y - 1 else y;
    var mp := if m > 2 then m - 3 else m + 9;
    MarchDays(shifted) + (153 * mp + 2) / 5 + d - 1 - 719468
  }

  /** A year from March to March has 366 days when the February in it is a
      leap February. */
  lemma MarchYear(y: int)
    ensures MarchDays(y + 1) == MarchDays(y) + 365 + (if IsLeap(y + 1) then 1 else 0)
  {
    var era, yoe := y / 400, y % 400;
    MarchDaysOf(y, era, yoe);
    if yoe == 399 {
      MarchDaysOf(y + 1, era + 1, 0);
      DivModUnique(y + 1, 4, 100 * (era + 1), 0);
      DivModUnique(y + 1, 100, 4 * (era + 1), 0);
      DivModUnique(y + 1, 400, era + 1, 0);
    } else {
      MarchDaysOf(y + 1, era, yoe + 1);
      DivModUnique(y + 1, 4, 100 * era + (yoe + 1) / 4, (yoe + 1) % 4);
      DivModUnique(y + 1, 100, 4 * era + (yoe + 1) / 100, (yoe + 1) % 100);
      DivModUnique(y + 1, 400, era, yoe + 1);
      NextQuotient(yoe, 4);
      NextQuotient(yoe, 100);
    }
  }

  /** `MarchDays` of the year `yoe` of era `era`. */
  lemma MarchDaysOf(y: int, era: int, yoe: int)
    requires 0 <= yoe < 400 && y == era * 400 + yoe
    ensures MarchDays(y) == era * 146097 + yoe * 365 + yoe / 4 - yoe / 100
  {
    DivModUnique(y, 400, era, yoe);
  }

  /** The quotient by `d` steps up exactly when the next number is a multiple. */
  lemma NextQuotient(x: nat, d: nat)
    requires d > 0
    ensures (x + 1) / d == x / d + (if (x + 1) % d == 0 then 1 else 0)
  {
    var q, r := x / d, x % d;
    if r == d - 1 {
      DivModUnique(x + 1, d, q + 1, 0);
    } else {
      DivModUnique(x + 1, d, q, r + 1);
    }
  }

  /** The epoch is day 0. */
  lemma EpochIsDayZero()
    ensures DaysFromCivil(1970, 1, 1) == 0
  {
    assert MarchDays(1969) == 719162;
  }

  /** Consecutive days of a month are consecutive day numbers. */
  lemma NextDay(y: int, m: int, d: int)
    requires 1 <= m <= 12
    ensures DaysFromCivil(y, m, d + 1) == DaysFromCivil(y, m, d) + 1
  {
  }

  /** The first of the next month comes `DaysInMonth` days after the first of
      a month. */
  lemma NextMonth(y: int, m: int)
    requires 1 <= m < 12
    ensures DaysFromCivil(y, m + 1, 1) == DaysFromCivil(y, m, 1) + DaysInMonth(y, m)
  {
    if m == 2 {
      MarchYear(y - 1);
    }
  }

  /** January 1st comes 31 days after December 1st. */
  lemma NextYear(y: int)
    ensures DaysFromCivil(y + 1, 1, 1) == DaysFromCivil(y, 12, 1) + 31
  {
  }

  // ---------------------------------------------------------------- timegm

  /** `timegm` of the broken-down fields as `parseToUTCTime` fills them
      (`tm_year` counts from 1900, `tm_mon` from 0). The fields are not
      range-checked: a month out of 0..11 carries into the year, and days,
      hours, minutes and seconds count linearly, as POSIX normalisation does. */
  function Timegm(tmYear: int, tmMon: int, tmMday: int, tmHour: int, tmMin: int, tmSec: int): int {
    var y := tmYear + 1900 + tmMon / 12;
    var m := tmMon % 12 + 1;
    (DaysFromCivil(y, m, 1) + tmMday - 1) * 86400 + tmHour * 3600 + tmMin * 60 + tmSec
  }

  /** For fields in range `timegm` counts the seconds of the day on top of the
      days-from-civil count. */
  lemma TimegmInRange(year: int, month: int, day: int, hour: int, minute: int, second: int)
    requires 1 <= month <= 12
    ensures Timegm(year - 1900, month - 1, day, hour, minute, second)
         == DaysFromCivil(year, month, day) * 86400 + hour * 3600 + minute * 60 + second
  {
    DivModUnique(month - 1, 12, 0, month - 1);
  }

  /** Twelve months more is one year more: the month carries into the year. */
  lemma TimegmCarriesMonths(tmYear: int, tmMon: int, tmMday: int, tmHour: int, tmMin: int, tmSec: int)
    ensures Timegm(tmYear, tmMon + 12, tmMday, tmHour, tmMin, tmSec)
         == Timegm(tmYear + 1, tmMon, tmMday, tmHour, tmMin, tmSec)
  {
    assert (tmMon + 12) / 12 == tmMon / 12 + 1;
    assert (tmMon + 12) % 12 == tmMon % 12;
  }

  // --------------------------------------------------------- parseToUTCTime

  /** The seconds east of UTC of the zone: `sign * (hh * 3600 + mm * 60)`,
      zero for no zone and for `Z`. */
  function OffsetSeconds(z: Zone): (secs: int)
    requires ValidZone(z)
    ensures !z.Offset? ==> secs == 0
    ensures z.Offset? ==> -(99 * 3600 + 99 * 60) <= secs <= 99 * 3600 + 99 * 60
  {
    match z
    case Offset(plus, hh, _, mm) =>
      var magnitude := DecimalValue(hh) * 3600 + DecimalValue(mm) * 60;
      if plus then magnitude else -magnitude
    case _ => 0
  }

  /** `timegm` of the fields of a stamp, read with `std::stoi`. */
  function LocalSeconds(st: Stamp): int
    requires ValidStamp(st)
  {
    Timegm(DecimalValue(st.year) - 1900, DecimalValue(st.month) - 1, DecimalValue(st.day),
           DecimalValue(st.hour), DecimalValue(st.minute), DecimalValue(st.second))
  }

  /** The instant a valid stamp names: the seconds of its fields, less the
      zone's offset east of UTC (none for `Z` or no zone). */
  function StampSeconds(st: Stamp): int
    requires ValidStamp(st)
  {
    LocalSeconds(st) - OffsetSeconds(st.zone)
  }

  /** The same fields with the zone `+hh:mm` name the instant `hh:mm` before
      the one they name with `Z`, and with `-hh:mm` the instant after. */
  lemma OffsetShiftsInstant(st: Stamp, hh: string, colon: bool, mm: string)
    requires ValidStamp(st) && st.zone == Utc
    requires |hh| == 2 && |mm| == 2 && AllDigits(hh) && AllDigits(mm)
    ensures StampSeconds(st.(zone := Offset(true, hh, colon, mm)))
         == StampSeconds(st) - (DecimalValue(hh) * 3600 + DecimalValue(mm) * 60)
    ensures StampSeconds(st.(zone := Offset(false, hh, colon, mm)))
         == StampSeconds(st) + (DecimalValue(hh) * 3600 + DecimalValue(mm) * 60)
    ensures StampSeconds(st.(zone := Absent)) == StampSeconds(st)
  {
    ZoneLeavesFields(st, Offset(true, hh, colon, mm));
    ZoneLeavesFields(st, Offset(false, hh, colon, mm));
    ZoneLeavesFields(st, Absent);
  }

  /** The zone does not enter the seconds of the fields. */
  lemma ZoneLeavesFields(st: Stamp, z: Zone)
    requires ValidStamp(st) && ValidZone(z)
    ensures LocalSeconds(st.(zone := z)) == LocalSeconds(st)
  {
  }

  /** `parseToUTCTime`: `nullopt` for a text the expression does not match,
      else the instant of the stamp it spells. The fraction is matched and
      ignored. */
  function ParseToUtcTime(iso8601: string): (t: Option<int>)
    ensures t.None? <==> Parse(iso8601).None?
    ensures t.Some? ==> exists st :: ValidStamp(st) && Render(st) == iso8601 && t.value == StampSeconds(st)
  {
    match Parse(iso8601)
    case None => None
    case Some(st) => Some(StampSeconds(st))
  }

  /** The text of a valid stamp gives that stamp's instant. */
  lemma ParseToUtcTimeOfRender(st: Stamp)
    requires ValidStamp(st)
    ensures ParseToUtcTime(Render(st)) == Some(StampSeconds(st))
  {
    ParseRender(st);
  }

  /** A text is rejected exactly when it is the text of no valid stamp. */
  lemma RejectsExactlyNonStamps(s: string)
    ensures ParseToUtcTime(s).None? <==> forall st :: ValidStamp(st) ==> Render(st) != s
  {
    if ParseToUtcTime(s).None? {
      forall st | ValidStamp(st)
        ensures Render(st) != s
      {
        ParseRender(st);
      }
    }
  }

  /** A stamp whose fields read 1970-01-01 00:00:00 is the epoch with `Z` or
      no zone, and the instant `hh:mm` before it with `+hh:mm`. */
  lemma EpochStamp(st: Stamp)
    requires ValidStamp(st)
    requires DecimalValue(st.year) == 1970 && DecimalValue(st.month) == 1 && DecimalValue(st.day) == 1
    requires DecimalValue(st.hour) == 0 && DecimalValue(st.minute) == 0 && DecimalValue(st.second) == 0
    ensures !st.zone.Offset? ==> StampSeconds(st) == 0
    ensures st.zone.Offset? ==> StampSeconds(st) == -OffsetSeconds(st.zone)
  {
    EpochIsDayZero();
    TimegmInRange(1970, 1, 1, 0, 0, 0);
  }
}
