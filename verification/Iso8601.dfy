/** Timestamps as ISO 8601 text (RFC 3339, section 5.6): printing a timeval and parsing it back. */
module Iso8601 {
  import opened CStrings
  import opened Calendar
  import opened JsonValues

  const USEC_PER_SEC: int := 1_000_000
  const SEC_PER_DAY: int := 86400

  /** Seconds and microseconds since the epoch. */
  datatype Time = Time(seconds: int, usec: int)

  /** C remainder: the sign of the dividend. */
  function Remainder(a: int, b: int): int
    requires b > 0
  {
    a - b * Quotient(a, b)
  }

  /** Brings the microseconds into 0..999999, as the source does with truncating division. */
  function Normalize(tv: Time): Time {
    var carried := if tv.usec <= -USEC_PER_SEC || tv.usec >= USEC_PER_SEC
                   then Time(tv.seconds + Quotient(tv.usec, USEC_PER_SEC), Remainder(tv.usec, USEC_PER_SEC)) else tv;
    if carried.usec < 0 then Time(carried.seconds - 1, carried.usec + USEC_PER_SEC) else carried
  }

  /** Day number and second of the day, again by truncating division. */
  function SplitDay(seconds: int): (int, int) {
    var days, rest := Quotient(seconds, SEC_PER_DAY), Remainder(seconds, SEC_PER_DAY);
    if rest < 0 then (days - 1, rest + SEC_PER_DAY) else (days, rest)
  }

  lemma NormalizeIsFloor(tv: Time)
    ensures 0 <= Normalize(tv).usec < 1000000
    ensures Normalize(tv).seconds * 1000000 + Normalize(tv).usec == tv.seconds * 1000000 + tv.usec
  {
  }

  lemma SplitDayIsFloor(seconds: int)
    ensures SplitDay(seconds).0 * 86400 + SplitDay(seconds).1 == seconds
    ensures 0 <= SplitDay(seconds).1 < 86400
  {
  }

  // ---- Printing ----

  function Zeros(n: nat): (r: bytes)
    ensures |r| == n && forall i :: 0 <= i < n ==> r[i] == 0x30
  {
    seq(n, _ => 0x30)
  }

  /** `%0<width>d` */
  function Padded(n: int, width: nat): bytes {
    var d := Decimal(if n < 0 then -n else n);
    var sign := if n < 0 then [MINUS] else [];
    sign + Zeros(if |sign| + |d| < width then width - |sign| - |d| else 0) + d
  }

  const DOT: byte := 0x2E
  const LETTER_T: byte := 0x54
  const LETTER_Z: byte := 0x5A
  const PLUS: byte := 0x2B

  /** `%04d-%02u-%02uT%02d:%02d:%02d` */
  function DateTimeText(c: Civil, daySeconds: int): bytes {
    DateText(c) + ([LETTER_T] + ClockText(daySeconds))
  }

  function DateText(c: Civil): bytes {
    Padded(c.year, 4) + ([MINUS] + Padded(c.month, 2) + [MINUS] + Padded(c.day, 2))
  }

  function ClockText(daySeconds: int): bytes {
    Padded(daySeconds / 3600, 2) + [COLON] + Padded(daySeconds % 3600 / 60, 2) + [COLON]
    + Padded(daySeconds % 3600 % 60, 2)
  }

  /** `.%06ldZ` */
  function UsecText(usec: int): bytes {
    [DOT] + Padded(usec, 6) + [LETTER_Z]
  }

  function TextOf(c: Civil, daySeconds: int, usec: int): bytes {
    DateTimeText(c, daySeconds) + UsecText(usec)
  }

  function TimeText(tv: Time): bytes {
    var t := Normalize(tv);
    var (days, daySeconds) := SplitDay(t.seconds);
    TextOf(CivilFromDays(days), daySeconds, t.usec)
  }

  // ---- Parsing ----

  function Digit(c: byte): int {
    if c < 0x30 || c > 0x39 then -1 else c - 0x30
  }

  function Parse2(s: bytes): int {
    var tens, ones := Digit(Peek(s)), if s == [] then -1 else Digit(Peek(s[1..]));
    if tens < 0 || ones < 0 then -1 else tens * 10 + ones
  }

  function Parse4(s: bytes): int
    requires |s| >= 2
  {
    var high, low := Parse2(s), Parse2(s[2..]);
    if high < 0 || low < 0 then -1 else high * 100 + low
  }

  datatype Zone = Zone(offset: int, rest: bytes)

  function Signed(plus: bool, x: int): int {
    if plus then x else -x
  }

  function ParseTimezone(s: bytes): Option<Zone> {
    var c := Peek(s);
    if c == 0 || c == LETTER_Z || c == 0x7A then Some(Zone(0, if c == 0 then s else s[1..]))
    else if c != PLUS && c != MINUS then None
    else
      var plus := c == PLUS;
      var hour := Parse2(s[1..]);
      if hour < 0 || hour > 23 then None
      else
        match ParseMinutes(s[3..])
        case None => None
        case Some(Scanned(minute, rest)) => Some(Zone(Signed(plus, hour * 3600 + minute * 60), rest))
  }

  /** The minutes of an offset: behind a colon, right behind the hours, or none. */
  function ParseMinutes(t: bytes): Option<Scanned> {
    if Peek(t) == COLON then
      var minute := Parse2(t[1..]);
      if minute < 0 || minute > 59 then None else Some(Scanned(minute, t[3..]))
    else if Parse2(t) >= 0 then (if Parse2(t) > 59 then None else Some(Scanned(Parse2(t), t[2..])))
    else Some(Scanned(0, t))
  }

  /** A number read off the text, and what follows it. */
  datatype Scanned = Scanned(value: int, rest: bytes)

  /** The fraction's digits: the first six count, later ones are read over. */
  function TakeFraction(s: bytes, digits: nat, usec: int): Scanned
    requires digits <= 6
    decreases |s|
  {
    if Digit(Peek(s)) < 0 then Scanned(usec * PowerOfTen(6 - digits), s)
    else if digits < 6 then TakeFraction(s[1..], digits + 1, usec * 10 + Digit(s[0]))
    else TakeFraction(s[1..], digits, usec)
  }

  function PowerOfTen(n: nat): nat {
    if n == 0 then 1 else 10 * PowerOfTen(n - 1)
  }

  function ParseFraction(s: bytes): Option<Scanned> {
    if Peek(s) != DOT then Some(Scanned(0, s))
    else if Digit(Peek(s[1..])) < 0 then None
    else Some(TakeFraction(s[1..], 0, 0))
  }

  /** The seconds since the epoch of 19 characters, if they are a valid date and time. */
  function ParseDateTime(s: bytes): Option<int>
    requires |s| == 19
  {
    var year, month, day := Parse4(s), Parse2(s[5..]), Parse2(s[8..]);
    var hour, minute, second := Parse2(s[11..]), Parse2(s[14..]), Parse2(s[17..]);
    if year < 0 || month < 1 || month > 12 || day < 1 || day > DaysInMonth(year, month)
       || hour < 0 || hour > 23 || minute < 0 || minute > 59 || second < 0 || second > 59
       || s[4] != MINUS || s[7] != MINUS || (s[10] != LETTER_T && s[10] != 0x74) || s[13] != COLON || s[16] != COLON
    then None
    else Some(DaysFromCivil(year, month, day) * SEC_PER_DAY + hour * 3600 + minute * 60 + second)
  }

  function ParseIso8601(s: bytes): Option<Time> {
    if |s| < 19 then None
    else
      match ParseDateTime(s[..19])
      case None => None
      case Some(seconds) => ParseTail(seconds, s[19..])
  }

  /** What follows the date and time: the fraction and the zone. */
  function ParseTail(seconds: int, s: bytes): Option<Time> {
    match ParseFraction(s)
    case None => None
    case Some(Scanned(usec, rest)) =>
      match ParseTimezone(rest)
      case None => None
      case Some(zone) => if zone.rest != [] then None else Some(Time(seconds - zone.offset, usec))
  }

  /** The fraction loops of the source. */
  method ScanFraction(s: bytes, start: nat) returns (usec: int, pos: nat)
    requires start <= |s|
    ensures pos <= |s| && Scanned(usec, s[pos..]) == TakeFraction(s[start..], 0, 0)
  {
    var digits := 0;
    usec, pos := 0, start;
    while Digit(At(s, pos)) >= 0
      invariant start <= pos <= |s| && 0 <= digits <= 6
      invariant TakeFraction(s[pos..], digits, usec) == TakeFraction(s[start..], 0, 0)
      decreases |s| - pos
    {
      SuffixOfSuffix(s, pos, 1);
      if digits < 6 {
        usec := usec * 10 + Digit(At(s, pos));
        digits := digits + 1;
      }
      pos := pos + 1;
    }
    while digits < 6
      invariant 0 <= digits <= 6 && usec * PowerOfTen(6 - digits) == TakeFraction(s[start..], 0, 0).value
      invariant s[pos..] == TakeFraction(s[start..], 0, 0).rest
    {
      usec := usec * 10;
      digits := digits + 1;
    }
  }

  // ---- Digits ----

  /** The last `w` decimal digits of `n`. */
  function Fixed(n: nat, w: nat): (r: bytes)
    ensures |r| == w && forall i :: 0 <= i < w ==> 0x30 <= r[i] <= 0x39
  {
    if w == 0 then [] else Fixed(n / 10, w - 1) + [0x30 + n % 10]
  }

  lemma {:induction false} FixedZero(w: nat)
    ensures Fixed(0, w) == Zeros(w)
  {
    if w > 0 {
      FixedZero(w - 1);
    }
  }

  lemma {:induction false} DigitsFit(n: nat, w: nat)
    requires w > 0 && n < PowerOfTen(w)
    ensures |Digits(n)| <= w && Zeros(w - |Digits(n)|) + Digits(n) == Fixed(n, w)
  {
    if n < 10 {
      FixedZero(w - 1);
    } else {
      assert w > 1;
      DigitsFit(n / 10, w - 1);
      assert Zeros(w - |Digits(n)|) + Digits(n) == (Zeros(w - |Digits(n)|) + Digits(n / 10)) + [0x30 + n % 10];
    }
  }

  lemma PaddedIsFixed(n: nat, w: nat)
    requires w > 0 && n < PowerOfTen(w)
    ensures Padded(n, w) == Fixed(n, w)
  {
    DigitsFit(n, w);
    assert Padded(n, w) == [] + Zeros(w - |Digits(n)|) + Digits(n);
    assert [] + Zeros(w - |Digits(n)|) == Zeros(w - |Digits(n)|);
  }

  lemma Padded2(n: nat)
    requires n < 100
    ensures Padded(n, 2) == [0x30 + n / 10, 0x30 + n % 10]
  {
    PaddedIsFixed(n, 2);
    assert Fixed(n / 10, 1) == Fixed(n / 10 / 10, 0) + [0x30 + n / 10 % 10];
  }

  lemma Padded4(n: nat)
    requires n < 10000
    ensures Padded(n, 4) == Padded(n / 100, 2) + Padded(n % 100, 2)
  {
    var high, low := n / 100, n % 100;
    PaddedIsFixed(n, 4);
    PaddedIsFixed(high, 2);
    PaddedIsFixed(low, 2);
    FixedSplit(n);
  }

  lemma FixedSplit(n: nat)
    ensures Fixed(n, 4) == Fixed(n / 100, 2) + Fixed(n % 100, 2)
  {
    var a, low := n / 10, n % 100;
    assert low / 10 == a % 10 && low % 10 == n % 10 && a / 10 == n / 100;
    assert Fixed(n, 4) == Fixed(a, 3) + [0x30 + n % 10];
    assert Fixed(a, 3) == Fixed(a / 10, 2) + [0x30 + a % 10];
    assert Fixed(low, 2) == Fixed(low / 10, 1) + [0x30 + low % 10];
    assert Fixed(low / 10, 1) == Fixed(low / 10 / 10, 0) + [0x30 + low / 10 % 10];
  }

  lemma TenTimes(a: int, p: int)
    ensures a * (10 * p) == 10 * (a * p)
  {
  }

  lemma {:induction false} FractionIsTaken(u: nat, w: nat, rest: bytes, digits: nat, usec: int)
    requires u < PowerOfTen(w) && digits + w <= 6
    ensures TakeFraction(Fixed(u, w) + rest, digits, usec) == TakeFraction(rest, digits + w, usec * PowerOfTen(w) + u)
  {
    if w == 0 {
      assert Fixed(u, w) + rest == rest;
    } else {
      var x := u % 10;
      var v := usec * PowerOfTen(w - 1) + u / 10;
      assert Fixed(u, w) + rest == Fixed(u / 10, w - 1) + ([0x30 + x] + rest);
      FractionIsTaken(u / 10, w - 1, [0x30 + x] + rest, digits, usec);
      DigitIsTaken(x, rest, digits + w - 1, v);
      assert v * 10 + x == usec * PowerOfTen(w) + u by {
        TenTimes(usec, PowerOfTen(w - 1));
      }
    }
  }

  lemma DigitIsTaken(x: nat, rest: bytes, digits: nat, v: int)
    requires x < 10 && digits < 6
    ensures TakeFraction([0x30 + x] + rest, digits, v) == TakeFraction(rest, digits + 1, v * 10 + x)
  {
    assert ([0x30 + x] + rest)[1..] == rest;
  }

  // ---- Round trip ----

  lemma Parse2At(s: bytes, i: nat, n: nat)
    requires n < 100 && i + 2 <= |s| && s[i] == 0x30 + n / 10 && s[i + 1] == 0x30 + n % 10
    ensures Parse2(s[i..]) == n
  {
  }

  /** Two characters of a text are the digits of `n`. */
  predicate TwoDigits(s: bytes, i: nat, n: nat) {
    n < 100 && i + 2 <= |s| && s[i] == 0x30 + n / 10 && s[i + 1] == 0x30 + n % 10
  }

  predicate ReadsDate(s: bytes, c: Civil)
    requires 0 <= c.year <= 9999 && 0 <= c.month && 0 <= c.day
  {
    && |s| == 10
    && TwoDigits(s, 0, c.year / 100) && TwoDigits(s, 2, c.year % 100) && s[4] == MINUS
    && TwoDigits(s, 5, c.month) && s[7] == MINUS && TwoDigits(s, 8, c.day)
  }

  predicate ReadsClock(s: bytes, sec: nat) {
    && |s| == 8
    && TwoDigits(s, 0, sec / 3600) && s[2] == COLON && TwoDigits(s, 3, sec % 3600 / 60) && s[5] == COLON
    && TwoDigits(s, 6, sec % 3600 % 60)
  }

  lemma DateTextReads(c: Civil)
    requires Calendar.Valid(c) && 0 <= c.year <= 9999
    ensures ReadsDate(DateText(c), c)
  {
    Padded4(c.year);
    Padded2(c.year / 100);
    Padded2(c.year % 100);
    Padded2(c.month);
    Padded2(c.day);
  }

  lemma ClockTextReads(sec: nat)
    requires sec < SEC_PER_DAY
    ensures ReadsClock(ClockText(sec), sec)
  {
    Padded2(sec / 3600);
    Padded2(sec % 3600 / 60);
    Padded2(sec % 3600 % 60);
  }

  lemma ReadsIsParsed(date: bytes, clock: bytes, c: Civil, sec: nat, seconds: int)
    requires Calendar.Valid(c) && 0 <= c.year <= 9999 && sec < SEC_PER_DAY && ReadsDate(date, c) && ReadsClock(clock, sec)
    requires seconds == Calendar.Days(c) * SEC_PER_DAY + sec
    ensures ParseDateTime(date + ([LETTER_T] + clock)) == Some(seconds)
  {
    var s := date + ([LETTER_T] + clock);
    Parse2At(s, 0, c.year / 100);
    Parse2At(s, 2, c.year % 100);
    assert s[0..] == s;
    Parse2At(s, 5, c.month);
    Parse2At(s, 8, c.day);
    Parse2At(s, 11, sec / 3600);
    Parse2At(s, 14, sec % 3600 / 60);
    Parse2At(s, 17, sec % 3600 % 60);
  }

  lemma UsecIsParsed(t: Time)
    requires 0 <= t.usec < USEC_PER_SEC
    ensures ParseTail(t.seconds, UsecText(t.usec)) == Some(t)
  {
    var s := UsecText(t.usec);
    assert PowerOfTen(6) == 1000000;
    PaddedIsFixed(t.usec, 6);
    assert s[1..] == Fixed(t.usec, 6) + [LETTER_Z];
    FractionIsTaken(t.usec, 6, [LETTER_Z], 0, 0);
  }

  /**
    Printed in the years 0 to 9999, a timeval parses back to its normalised seconds and microseconds; printed in any
    other year, it does not parse at all.
  */
  lemma TimeRoundTrip(tv: Time)
    ensures var year := CivilFromDays(SplitDay(Normalize(tv).seconds).0).year;
            ParseIso8601(TimeText(tv)) == if 0 <= year <= 9999 then Some(Normalize(tv)) else None
  {
    var t := Normalize(tv);
    var (days, sec) := SplitDay(t.seconds);
    NormalizeIsFloor(tv);
    SplitDayIsFloor(t.seconds);
    Calendar.DaysUndoCivil(days);
    TextIsParsed(CivilFromDays(days), sec, t);
  }

  lemma TextIsParsed(c: Civil, sec: int, t: Time)
    requires Calendar.Valid(c) && 0 <= sec < SEC_PER_DAY && 0 <= t.usec < USEC_PER_SEC
    requires t.seconds == Calendar.Days(c) * SEC_PER_DAY + sec
    ensures ParseIso8601(TextOf(c, sec, t.usec)) == if 0 <= c.year <= 9999 then Some(t) else None
  {
    if 0 <= c.year <= 9999 {
      HeadIsParsed(c, sec, UsecText(t.usec), t.seconds);
      UsecIsParsed(t);
    } else {
      OtherYearsAreRejected(c, sec, UsecText(t.usec));
    }
  }

  lemma HeadAndTail(head: bytes, tail: bytes)
    requires |head| == 19
    ensures ParseIso8601(head + tail) == if ParseDateTime(head).None? then None else ParseTail(ParseDateTime(head).value, tail)
  {
    assert (head + tail)[..19] == head && (head + tail)[19..] == tail;
  }

  lemma HeadIsParsed(c: Civil, sec: int, tail: bytes, seconds: int)
    requires Calendar.Valid(c) && 0 <= c.year <= 9999 && 0 <= sec < SEC_PER_DAY
    requires seconds == Calendar.Days(c) * SEC_PER_DAY + sec
    ensures ParseIso8601(DateTimeText(c, sec) + tail) == ParseTail(seconds, tail)
  {
    DateTextReads(c);
    ClockTextReads(sec);
    ReadsIsParsed(DateText(c), ClockText(sec), c, sec, seconds);
    HeadAndTail(DateTimeText(c, sec), tail);
  }

  lemma StartsWithYear(c: Civil, sec: int, i: nat)
    requires i < |Padded(c.year, 4)|
    ensures i < |DateTimeText(c, sec)| && DateTimeText(c, sec)[i] == Padded(c.year, 4)[i]
  {
  }

  lemma OtherYearsAreRejected(c: Civil, sec: int, tail: bytes)
    requires !(0 <= c.year <= 9999)
    ensures ParseIso8601(DateTimeText(c, sec) + tail) == None
  {
    var s := DateTimeText(c, sec) + tail;
    if c.year < 0 {
      assert Padded(c.year, 4)[0] == MINUS;
      StartsWithYear(c, sec, 0);
      assert |s| >= 19 ==> Parse4(s[..19]) < 0;
    } else {
      LongNumber(c.year);
      StartsWithYear(c, sec, 4);
      assert |s| >= 19 ==> s[..19][4] == Digits(c.year)[4];
    }
  }

  lemma LongNumber(n: nat)
    requires n >= 10000
    ensures |Digits(n)| >= 5 && Padded(n, 4) == Digits(n)
  {
    assert |Digits(n / 1000)| >= 2;
    assert |Digits(n / 100)| >= 3;
    assert |Digits(n / 10)| >= 4;
    assert [] + Zeros(0) + Digits(n) == Digits(n);
  }

  // ---- Numeric offsets ----

  /** A numeric offset, with minutes behind a colon, without a colon, or left out when they are zero. */
  predicate OffsetText(z: bytes, hour: nat, minute: nat) {
    && hour <= 23 && minute <= 59
    && z != [] && z[0] in {'+' as int, '-' as int}
    && (|| z[1..] == Padded(hour, 2) + ([':' as int] + Padded(minute, 2))
        || z[1..] == Padded(hour, 2) + Padded(minute, 2)
        || (minute == 0 && z[1..] == Padded(hour, 2)))
  }

  lemma MinutesAreParsed(t: bytes, minute: nat)
    requires minute <= 59
    requires t == [COLON] + Padded(minute, 2) || t == Padded(minute, 2) || (minute == 0 && t == [])
    ensures ParseMinutes(t) == Some(Scanned(minute, []))
  {
    Padded2(minute);
    if t == [COLON] + Padded(minute, 2) {
      assert t[0] == COLON && t[3..] == [];
      Parse2At(t, 1, minute);
    } else if t != [] {
      assert t[0] != COLON && t[0..] == t && t[2..] == [];
      Parse2At(t, 0, minute);
    }
  }

  /** A numeric offset is read as so many seconds to the east behind a plus sign, to the west behind a minus sign. */
  lemma OffsetIsParsed(z: bytes, hour: nat, minute: nat)
    requires OffsetText(z, hour, minute)
    ensures ParseTimezone(z) == Some(Zone((if z[0] == '+' as int then 1 else -1) * (hour * 3600 + minute * 60), []))
  {
    var h, m := Padded(hour, 2), Padded(minute, 2);
    var t := if z[1..] == h + ([COLON] + m) then [COLON] + m else if z[1..] == h + m then m else [];
    assert h + [] == h;
    HourIsParsed(z, hour, t);
    MinutesAreParsed(t, minute);
    ZoneIs(z, hour, minute);
  }

  lemma HourIsParsed(z: bytes, hour: nat, t: bytes)
    requires hour <= 23 && z != [] && z[1..] == Padded(hour, 2) + t
    ensures |z| >= 3 && Parse2(z[1..]) == hour && z[3..] == t
  {
    Padded2(hour);
    var h := Padded(hour, 2);
    assert z[1..][0] == h[0] && z[1..][1] == h[1];
    Parse2At(z, 1, hour);
    assert z[3..] == z[1..][2..];
  }

  lemma ZoneIs(z: bytes, hour: nat, minute: nat)
    requires hour <= 23 && |z| >= 3 && z[0] in {'+' as int, '-' as int} && Parse2(z[1..]) == hour
    requires ParseMinutes(z[3..]) == Some(Scanned(minute, []))
    ensures ParseTimezone(z) == Some(Zone((if z[0] == '+' as int then 1 else -1) * (hour * 3600 + minute * 60), []))
  {
  }

  lemma {:induction false} FractionStops(s: bytes, a: bytes, b: bytes, digits: nat, usec: int)
    requires digits <= 6 && Digit(Peek(a)) < 0 && Digit(Peek(b)) < 0
    requires forall i :: 0 <= i < |s| ==> 0x30 <= s[i] <= 0x39
    ensures TakeFraction(s + a, digits, usec).rest == a && TakeFraction(s + b, digits, usec).rest == b
    ensures TakeFraction(s + a, digits, usec).value == TakeFraction(s + b, digits, usec).value
  {
    if s == [] {
      assert s + a == a && s + b == b;
    } else {
      assert (s + a)[1..] == s[1..] + a && (s + b)[1..] == s[1..] + b;
      if digits < 6 {
        FractionStops(s[1..], a, b, digits + 1, usec * 10 + Digit(s[0]));
      } else {
        FractionStops(s[1..], a, b, digits, usec);
      }
    }
  }

  /** A fraction as it may stand between the seconds and the zone. */
  predicate FractionText(f: bytes) {
    f == [] || (|f| > 1 && f[0] == DOT && forall i :: 1 <= i < |f| ==> 0x30 <= f[i] <= 0x39)
  }

  lemma FractionEndsAtZone(fraction: bytes, a: bytes, b: bytes)
    requires FractionText(fraction) && Digit(Peek(a)) < 0 && Digit(Peek(b)) < 0 && Peek(a) != DOT && Peek(b) != DOT
    ensures ParseFraction(fraction + a).Some? && ParseFraction(fraction + a).value.rest == a
    ensures ParseFraction(fraction + b) == Some(Scanned(ParseFraction(fraction + a).value.value, b))
  {
    if fraction == [] {
      assert fraction + a == a && fraction + b == b;
    } else {
      assert (fraction + a)[1..] == fraction[1..] + a && (fraction + b)[1..] == fraction[1..] + b;
      FractionStops(fraction[1..], a, b, 0, 0);
    }
  }

  lemma TailIs(seconds: int, s: bytes, usec: int, rest: bytes, offset: int)
    requires ParseFraction(s) == Some(Scanned(usec, rest)) && ParseTimezone(rest) == Some(Zone(offset, []))
    ensures ParseTail(seconds, s) == Some(Time(seconds - offset, usec))
  {
  }

  function Shifted(t: Option<Time>, offset: int): Option<Time> {
    if t.None? then None else Some(Time(t.value.seconds - offset, t.value.usec))
  }

  lemma TailShifts(seconds: int, fraction: bytes, z: bytes, offset: int)
    requires FractionText(fraction) && Digit(Peek(z)) < 0 && Peek(z) != DOT
    requires ParseTimezone(z) == Some(Zone(offset, []))
    ensures ParseTail(seconds, fraction + z) == Shifted(ParseTail(seconds, fraction + [LETTER_Z]), offset)
  {
    FractionEndsAtZone(fraction, [LETTER_Z], z);
    var usec := ParseFraction(fraction + z).value.value;
    ZIsParsed();
    TailIs(seconds, fraction + [LETTER_Z], usec, [LETTER_Z], 0);
    TailIs(seconds, fraction + z, usec, z, offset);
  }

  lemma ZIsParsed()
    ensures ParseTimezone([LETTER_Z]) == Some(Zone(0, []))
  {
    assert [LETTER_Z][1..] == [];
  }

  /** Replacing Z by a numeric offset moves the instant by exactly that offset, and nothing else. */
  lemma OffsetShifts(head: bytes, fraction: bytes, z: bytes, hour: nat, minute: nat)
    requires |head| == 19 && FractionText(fraction) && OffsetText(z, hour, minute)
    ensures ParseIso8601(head + (fraction + z))
         == Shifted(ParseIso8601(head + (fraction + ['Z' as int])),
                    (if z[0] == '+' as int then 1 else -1) * (hour * 3600 + minute * 60))
  {
    HeadAndTail(head, fraction + z);
    HeadAndTail(head, fraction + [LETTER_Z]);
    if ParseDateTime(head).Some? {
      OffsetIsParsed(z, hour, minute);
      TailShifts(ParseDateTime(head).value, fraction, z, (if z[0] == '+' as int then 1 else -1) * (hour * 3600 + minute * 60));
    }
  }

  // ---- With a moving cursor ----

  method ParseTimezoneAt(s: bytes, start: nat) returns (ok: bool, offset: int, pos: nat)
    requires start <= |s|
    ensures ok == ParseTimezone(s[start..]).Some?
    ensures ok ==> pos <= |s| && ParseTimezone(s[start..]) == Some(Zone(offset, s[pos..]))
  {
    ok, offset, pos := true, 0, start;
    var c := At(s, pos);
    if c == 0 || c == LETTER_Z || c == 0x7A {
      pos := if c == 0 then pos else pos + 1;
      SuffixOfSuffix(s, start, 1);
      return;
    }
    if c != PLUS && c != MINUS {
      return false, 0, pos;
    }
    SuffixOfSuffix(s, start, 1);
    pos := pos + 1;
    var hour := Parse2(s[pos..]);
    if hour < 0 || hour > 23 {
      return false, 0, pos;
    }
    pos := pos + 2;
    SuffixOfSuffix(s, start, 3);
    var minute := 0;
    if At(s, pos) == COLON {
      SuffixOfSuffix(s, pos, 1);
      minute := Parse2(s[pos + 1..]);
      if minute < 0 || minute > 59 {
        return false, 0, pos;
      }
      SuffixOfSuffix(s, pos, 3);
      pos := pos + 3;
    } else if Parse2(s[pos..]) >= 0 {
      minute := Parse2(s[pos..]);
      if minute > 59 {
        return false, 0, pos;
      }
      SuffixOfSuffix(s, pos, 2);
      pos := pos + 2;
    }
    offset := Signed(c == PLUS, hour * 3600 + minute * 60);
  }

  method Iso8601ToTimeval(s: bytes) returns (r: Option<Time>)
    ensures r == ParseIso8601(s)
  {
    if |s| < 19 {
      return None;
    }
    var seconds := ParseDateTime(s[..19]);
    if seconds == None {
      return None;
    }
    r := TailToTimeval(s, 19, seconds.value);
  }

  method TailToTimeval(s: bytes, start: nat, seconds: int) returns (r: Option<Time>)
    requires start <= |s|
    ensures r == ParseTail(seconds, s[start..])
  {
    var usec, pos := 0, start;
    if At(s, pos) == DOT {
      SuffixOfSuffix(s, pos, 1);
      pos := pos + 1;
      if Digit(At(s, pos)) < 0 {
        return None;
      }
      usec, pos := ScanFraction(s, pos);
    }
    assert ParseFraction(s[start..]) == Some(Scanned(usec, s[pos..]));
    var ok, offset, end := ParseTimezoneAt(s, pos);
    TailEnds(seconds, s[start..], usec, s[pos..]);
    if !ok || end != |s| {
      return None;
    }
    return Some(Time(seconds - offset, usec));
  }

  lemma TailEnds(seconds: int, s: bytes, usec: int, rest: bytes)
    requires ParseFraction(s) == Some(Scanned(usec, rest))
    ensures ParseTail(seconds, s) ==
            match ParseTimezone(rest)
            case None => None
            case Some(z) => if z.rest == [] then Some(Time(seconds - z.offset, usec)) else None
  {
  }

  /** `snprintf`: the text cut to the buffer, then a NUL; the whole length is returned either way. */
  method Snprintf(buf: array<byte>, size: nat, text: bytes) returns (written: nat)
    requires 0 < size <= buf.Length
    modifies buf
    ensures written == |text|
    ensures |text| < size ==> buf[..|text| + 1] == text + [0]
    ensures buf[size..] == old(buf[size..])
  {
    var n := if |text| < size then |text| else size - 1;
    forall i | 0 <= i < n {
      buf[i] := text[i];
    }
    buf[n] := 0;
    written := |text|;
  }

  method NormalizeTimeval(tv: Time) returns (t: Time)
    ensures t == Normalize(tv)
  {
    var seconds, usec := tv.seconds, tv.usec;
    if usec <= -USEC_PER_SEC || usec >= USEC_PER_SEC {
      seconds := seconds + Quotient(usec, USEC_PER_SEC);
      usec := Remainder(usec, USEC_PER_SEC);
    }
    if usec < 0 {
      usec := usec + USEC_PER_SEC;
      seconds := seconds - 1;
    }
    t := Time(seconds, usec);
  }

  method DayAndSecond(seconds: int) returns (days: int, daySeconds: int)
    ensures (days, daySeconds) == SplitDay(seconds)
  {
    days, daySeconds := Quotient(seconds, SEC_PER_DAY), Remainder(seconds, SEC_PER_DAY);
    if daySeconds < 0 {
      daySeconds := daySeconds + SEC_PER_DAY;
      days := days - 1;
    }
  }

  method TextOfTimeval(tv: Time) returns (text: bytes)
    ensures text == TimeText(tv)
  {
    var t := NormalizeTimeval(tv);
    var days, daySeconds := DayAndSecond(t.seconds);
    text := TextOf(CivilFromDays(days), daySeconds, t.usec);
  }

  /** Normalises, prints, and answers -1 unless the text and its NUL fit. */
  method FormatTimeval(tv: Time, buf: array<byte>, size: nat) returns (written: int)
    requires size <= buf.Length
    modifies buf
    ensures written == if |TimeText(tv)| < size then |TimeText(tv)| else -1
    ensures written >= 0 ==> buf[..written + 1] == TimeText(tv) + [0]
    ensures buf[size..] == old(buf[size..])
  {
    if size == 0 {
      return -1;
    }
    var text := TextOfTimeval(tv);
    var n := Snprintf(buf, size, text);
    written := if n >= size then -1 else n;
  }

  /** In the years 0 to 9999 the text has 27 characters, so the callers' 32-byte buffers hold it. */
  lemma TextFits(tv: Time)
    ensures 0 <= CivilFromDays(SplitDay(Normalize(tv).seconds).0).year <= 9999 ==> |TimeText(tv)| == 27
  {
    var t := Normalize(tv);
    var (days, sec) := SplitDay(t.seconds);
    NormalizeIsFloor(tv);
    SplitDayIsFloor(t.seconds);
    Calendar.DaysUndoCivil(days);
    if 0 <= CivilFromDays(days).year <= 9999 {
      DateTextReads(CivilFromDays(days));
      ClockTextReads(sec);
      assert PowerOfTen(6) == 1000000;
      PaddedIsFixed(t.usec, 6);
    }
  }
}
