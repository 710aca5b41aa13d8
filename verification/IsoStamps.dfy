/**
  Which texts are timestamps, and the instant each stands for (RFC 3339, section 5.6, without leap seconds; the zone may be
  missing, and the minutes of an offset may stand without a colon or be left out).
*/
module IsoStamps {
  import opened CStrings
  import opened Calendar
  import opened Iso8601

  datatype Letter = Upper | Lower

  datatype ZoneText =
    | Missing
    | Zulu(letter: Letter)
    | Hours(sign: char, hour: nat)
    | HoursMinutes(sign: char, hour: nat, colon: bool, minute: nat)

  datatype Stamp = Stamp(year: nat, month: nat, day: nat, letter: Letter, hour: nat, minute: nat, second: nat,
                         fraction: seq<nat>, zone: ZoneText)

  predicate ProperZone(z: ZoneText) {
    match z
    case Missing => true
    case Zulu(_) => true
    case Hours(sign, hour) => sign in {'+', '-'} && hour <= 23
    case HoursMinutes(sign, hour, _, minute) => sign in {'+', '-'} && hour <= 23 && minute <= 59
  }

  predicate AllDigits(ds: seq<nat>) {
    forall i :: 0 <= i < |ds| ==> ds[i] <= 9
  }

  predicate Proper(w: Stamp) {
    && w.year <= 9999 && Calendar.Valid(Civil(w.year, w.month, w.day))
    && w.hour <= 23 && w.minute <= 59 && w.second <= 59
    && AllDigits(w.fraction) && ProperZone(w.zone)
  }

  /** Two digits. */
  function Two(n: nat): (r: bytes)
    requires n <= 99
  {
    ['0' as int + n / 10, '0' as int + n % 10]
  }

  function HeadText(w: Stamp): (r: bytes)
    requires Proper(w)
    ensures |r| == 19
  {
    Two(w.year / 100) + Two(w.year % 100) + ['-' as int] + Two(w.month) + ['-' as int] + Two(w.day)
    + [if w.letter.Upper? then 'T' as int else 't' as int]
    + Two(w.hour) + [':' as int] + Two(w.minute) + [':' as int] + Two(w.second)
  }

  function DigitText(ds: seq<nat>): (r: bytes)
    requires AllDigits(ds)
    ensures |r| == |ds|
  {
    seq(|ds|, i requires 0 <= i < |ds| => '0' as int + ds[i])
  }

  function FractionText(ds: seq<nat>): bytes
    requires AllDigits(ds)
  {
    if ds == [] then [] else ['.' as int] + DigitText(ds)
  }

  function ZoneBytes(z: ZoneText): bytes
    requires ProperZone(z)
  {
    match z
    case Missing => []
    case Zulu(letter) => [if letter.Upper? then 'Z' as int else 'z' as int]
    case Hours(sign, hour) => [sign as int] + Two(hour)
    case HoursMinutes(sign, hour, colon, minute) =>
      [sign as int] + Two(hour) + (if colon then [':' as int] else []) + Two(minute)
  }

  function StampText(w: Stamp): bytes
    requires Proper(w)
  {
    HeadText(w) + (FractionText(w.fraction) + ZoneBytes(w.zone))
  }

  // ---- The instant ----

  /** Seconds by which the zone's clock is ahead. */
  function Ahead(z: ZoneText): int {
    match z
    case Missing => 0
    case Zulu(_) => 0
    case Hours(sign, hour) => (if sign == '+' then 1 else -1) * (hour * 3600)
    case HoursMinutes(sign, hour, _, minute) => (if sign == '+' then 1 else -1) * (hour * 3600 + minute * 60)
  }

  function DigitAt(ds: seq<nat>, i: nat): nat {
    if i < |ds| then ds[i] else 0
  }

  /** The first six digits of a fraction, missing ones taken as zero. */
  function Micros(ds: seq<nat>): nat {
    DigitAt(ds, 0) * 100000 + DigitAt(ds, 1) * 10000 + DigitAt(ds, 2) * 1000 + DigitAt(ds, 3) * 100 + DigitAt(ds, 4) * 10
    + DigitAt(ds, 5)
  }

  function HeadSeconds(w: Stamp): int
    requires Proper(w)
  {
    NaiveDays(w.year, w.month, w.day) * 86400 + w.hour * 3600 + w.minute * 60 + w.second
  }

  function Instant(w: Stamp): Time
    requires Proper(w)
  {
    Time(HeadSeconds(w) - Ahead(w.zone), Micros(w.fraction))
  }

  // ---- Date and time ----

  lemma Parse2Iff(s: bytes, n: nat)
    ensures Parse2(s) == n <==> n <= 99 && |s| >= 2 && s[..2] == Two(n)
  {
    if n <= 99 && |s| >= 2 {
      assert s[..2] == [s[0], s[1]];
    }
  }

  lemma Parse2IsSmall(s: bytes)
    ensures -1 <= Parse2(s) <= 99
  {
  }

  predicate StandsAt(s: bytes, i: nat, n: nat)
    requires n <= 99
  {
    i + 2 <= |s| && s[i..i + 2] == Two(n)
  }

  lemma ReadAt(s: bytes, i: nat, n: nat)
    requires n <= 99 && i <= |s|
    ensures Parse2(s[i..]) == n <==> StandsAt(s, i, n)
  {
    Parse2Iff(s[i..], n);
    assert i + 2 <= |s| ==> s[i..][..2] == s[i..i + 2];
  }

  predicate HeadReads(s: bytes, w: Stamp)
    requires Proper(w) && |s| == 19
  {
    && StandsAt(s, 0, w.year / 100) && StandsAt(s, 2, w.year % 100) && s[4] == '-' as int
    && StandsAt(s, 5, w.month) && s[7] == '-' as int && StandsAt(s, 8, w.day)
    && s[10] == (if w.letter.Upper? then 'T' as int else 't' as int)
    && StandsAt(s, 11, w.hour) && s[13] == ':' as int && StandsAt(s, 14, w.minute) && s[16] == ':' as int
    && StandsAt(s, 17, w.second)
  }

  lemma HeadIffReads(s: bytes, w: Stamp)
    requires Proper(w) && |s| == 19
    ensures s == HeadText(w) <==> HeadReads(s, w)
  {
    var t := HeadText(w);
    assert t[0..2] == Two(w.year / 100) && t[2..4] == Two(w.year % 100) && t[5..7] == Two(w.month) && t[8..10] == Two(w.day);
    assert t[11..13] == Two(w.hour) && t[14..16] == Two(w.minute) && t[17..19] == Two(w.second);
    if HeadReads(s, w) {
      assert s == s[0..2] + s[2..4] + [s[4]] + s[5..7] + [s[7]] + s[8..10] + [s[10]] + s[11..13] + [s[13]] + s[14..16] + [s[16]] + s[17..19];
    }
  }

  lemma HeadIsParsed(w: Stamp)
    requires Proper(w)
    ensures ParseDateTime(HeadText(w)) == Some(HeadSeconds(w))
  {
    var s := HeadText(w);
    HeadIffReads(s, w);
    assert Parse4(s) == w.year by {
      ReadAt(s, 0, w.year / 100);
      ReadAt(s, 2, w.year % 100);
      assert s[0..] == s;
    }
    ReadAt(s, 5, w.month);
    ReadAt(s, 8, w.day);
    ReadAt(s, 11, w.hour);
    ReadAt(s, 14, w.minute);
    ReadAt(s, 17, w.second);
    ReadsAreParsed(s, w);
  }

  lemma ReadsAreParsed(s: bytes, w: Stamp)
    requires Proper(w) && |s| == 19 && s[4] == s[7] == '-' as int && s[13] == s[16] == ':' as int
    requires s[10] == (if w.letter.Upper? then 'T' as int else 't' as int)
    requires Parse4(s) == w.year && Parse2(s[5..]) == w.month && Parse2(s[8..]) == w.day
    requires Parse2(s[11..]) == w.hour && Parse2(s[14..]) == w.minute && Parse2(s[17..]) == w.second
    ensures ParseDateTime(s) == Some(HeadSeconds(w))
  {
    DaysAreNaiveDays(w.year, w.month, w.day);
  }

  lemma HeadOf(s: bytes) returns (w: Stamp)
    requires |s| == 19 && ParseDateTime(s).Some?
    ensures Proper(w) && w.fraction == [] && w.zone == Missing && s == HeadText(w)
  {
    var year, month, day := Parse4(s), Parse2(s[5..]), Parse2(s[8..]);
    var hour, minute, second := Parse2(s[11..]), Parse2(s[14..]), Parse2(s[17..]);
    assert s[0..] == s;
    Parse2IsSmall(s);
    Parse2IsSmall(s[2..]);
    w := Stamp(year, month, day, if s[10] == 'T' as int then Upper else Lower, hour, minute, second, [], Missing);
    ReadAt(s, 0, year / 100);
    ReadAt(s, 2, year % 100);
    ReadAt(s, 5, month);
    ReadAt(s, 8, day);
    ReadAt(s, 11, hour);
    ReadAt(s, 14, minute);
    ReadAt(s, 17, second);
    HeadIffReads(s, w);
  }

  // ---- Fraction ----

  /** The digits' weight from the `k`th on. */
  function Weight(ds: seq<nat>, k: nat): nat
    requires k <= 6
    decreases 6 - k
  {
    if ds == [] || k == 6 then 0 else ds[0] * PowerOfTen(5 - k) + Weight(ds[1..], k + 1)
  }

  lemma WeightIsMicros(ds: seq<nat>)
    ensures Weight(ds, 0) == Micros(ds)
  {
    assert PowerOfTen(1) == 10 && PowerOfTen(2) == 100 && PowerOfTen(3) == 1000 && PowerOfTen(4) == 10000 && PowerOfTen(5) == 100000;
    WeightFrom(ds, 0);
    WeightFrom(ds, 1);
    WeightFrom(ds, 2);
    WeightFrom(ds, 3);
    WeightFrom(ds, 4);
    WeightFrom(ds, 5);
  }

  function From(ds: seq<nat>, k: nat): seq<nat> {
    if k <= |ds| then ds[k..] else []
  }

  lemma WeightFrom(ds: seq<nat>, k: nat)
    requires k <= 5
    ensures From(ds, 0) == ds
    ensures Weight(From(ds, k), k) == DigitAt(ds, k) * PowerOfTen(5 - k) + Weight(From(ds, k + 1), k + 1)
  {
    if k < |ds| {
      assert ds[k..][1..] == ds[k + 1..];
    }
  }

  lemma {:induction false} DigitsAreTaken(ds: seq<nat>, rest: bytes, k: nat, usec: nat)
    requires AllDigits(ds) && k <= 6 && Digit(Peek(rest)) < 0
    ensures TakeFraction(DigitText(ds) + rest, k, usec) == Scanned(usec * PowerOfTen(6 - k) + Weight(ds, k), rest)
    decreases |ds|
  {
    var t := DigitText(ds) + rest;
    if ds == [] {
      assert t == rest;
    } else {
      assert t[0] == '0' as int + ds[0] && t[1..] == DigitText(ds[1..]) + rest;
      if k < 6 {
        DigitsAreTaken(ds[1..], rest, k + 1, usec * 10 + ds[0]);
        OneDigitOn(usec, ds[0], PowerOfTen(5 - k));
      } else {
        DigitsAreTaken(ds[1..], rest, 6, usec);
      }
    }
  }

  lemma OneDigitOn(usec: nat, d: nat, p: nat)
    ensures (usec * 10 + d) * p == usec * (10 * p) + d * p
  {
  }

  lemma {:induction false} DigitsOf(t: bytes) returns (ds: seq<nat>, rest: bytes)
    ensures AllDigits(ds) && t == DigitText(ds) + rest && Digit(Peek(rest)) < 0
    ensures Digit(Peek(t)) >= 0 ==> ds != []
  {
    if Digit(Peek(t)) < 0 {
      ds, rest := [], t;
    } else {
      ds, rest := DigitsOf(t[1..]);
      var d := t[0] - '0' as int;
      var all := [d] + ds;
      assert DigitText(all) == [t[0]] + DigitText(ds);
      ds := all;
    }
  }

  lemma FractionIsParsed(ds: seq<nat>, rest: bytes)
    requires AllDigits(ds) && Digit(Peek(rest)) < 0 && Peek(rest) != '.' as int
    ensures ParseFraction(FractionText(ds) + rest) == Some(Scanned(Micros(ds), rest))
  {
    var t := FractionText(ds) + rest;
    WeightIsMicros(ds);
    if ds == [] {
      assert t == rest;
    } else {
      assert t[1..] == DigitText(ds) + rest && t[1..][0] == '0' as int + ds[0];
      DigitsAreTaken(ds, rest, 0, 0);
    }
  }

  lemma FractionOf(t: bytes) returns (ds: seq<nat>)
    requires ParseFraction(t).Some?
    ensures AllDigits(ds) && t == FractionText(ds) + ParseFraction(t).value.rest && ParseFraction(t).value.value == Micros(ds)
  {
    if Peek(t) != DOT {
      ds := [];
      assert t == [] + t;
    } else {
      var rest;
      ds, rest := DigitsOf(t[1..]);
      WeightIsMicros(ds);
      DigitsAreTaken(ds, rest, 0, 0);
      assert t == ['.' as int] + DigitText(ds) + rest;
    }
  }

  // ---- Zone ----

  lemma ZoneStarts(z: ZoneText)
    requires ProperZone(z)
    ensures Digit(Peek(ZoneBytes(z))) < 0 && Peek(ZoneBytes(z)) != '.' as int
  {
  }

  lemma ZoneIsParsed(z: ZoneText)
    requires ProperZone(z)
    ensures ParseTimezone(ZoneBytes(z)) == Some(Zone(Ahead(z), []))
  {
    var s := ZoneBytes(z);
    match z
    case Missing =>
    case Zulu(_) =>
      assert s[1..] == [];
    case Hours(_, hour) =>
      ReadAt(s, 1, hour);
      assert s[3..] == [];
    case HoursMinutes(_, hour, colon, minute) =>
      ReadAt(s, 1, hour);
      MinutesAreRead(s[3..], colon, minute);
  }

  lemma MinutesAreRead(t: bytes, colon: bool, minute: nat)
    requires minute <= 59 && t == (if colon then [':' as int] else []) + Two(minute)
    ensures ParseMinutes(t) == Some(Scanned(minute, []))
  {
    if colon {
      ReadAt(t, 1, minute);
      assert t[3..] == [];
    } else {
      ReadAt(t, 0, minute);
      assert t[0..] == t && t[2..] == [];
    }
  }

  lemma MinutesOf(t: bytes) returns (colon: bool, minute: nat)
    requires ParseMinutes(t).Some? && ParseMinutes(t).value.rest == [] && t != []
    ensures minute <= 59 && t == (if colon then [':' as int] else []) + Two(minute) && minute == ParseMinutes(t).value.value
  {
    minute := ParseMinutes(t).value.value;
    colon := Peek(t) == COLON;
    if colon {
      ReadAt(t, 1, minute);
      assert t == [t[0]] + t[1..3];
    } else {
      ReadAt(t, 0, minute);
      assert t[0..] == t && t == t[0..2];
    }
  }

  lemma ZoneOf(s: bytes) returns (z: ZoneText)
    requires ParseTimezone(s).Some? && ParseTimezone(s).value.rest == []
    ensures ProperZone(z) && s == ZoneBytes(z) && ParseTimezone(s).value.offset == Ahead(z)
  {
    if s == [] {
      z := Missing;
    } else if s[0] == 'Z' as int || s[0] == 'z' as int {
      z := Zulu(if s[0] == 'Z' as int then Upper else Lower);
      assert s == [s[0]] + s[1..];
    } else {
      z := OffsetOf(s);
    }
  }

  lemma OffsetOf(s: bytes) returns (z: ZoneText)
    requires ParseTimezone(s).Some? && ParseTimezone(s).value.rest == [] && s != [] && s[0] !in {'Z' as int, 'z' as int}
    ensures ProperZone(z) && s == ZoneBytes(z) && ParseTimezone(s).value.offset == Ahead(z)
  {
    var sign, hour := if s[0] == PLUS then '+' else '-', Parse2(s[1..]);
    ReadAt(s, 1, hour);
    assert s == [s[0]] + s[1..3] + s[3..];
    if s[3..] == [] {
      z := Hours(sign, hour);
    } else {
      var colon, minute := MinutesOf(s[3..]);
      z := HoursMinutes(sign, hour, colon, minute);
    }
  }

  // ---- Together ----

  lemma StampIsParsed(w: Stamp)
    requires Proper(w)
    ensures ParseIso8601(StampText(w)) == Some(Instant(w))
  {
    HeadIsParsed(w);
    TailIsParsed(w, HeadSeconds(w));
    BothAreParsed(HeadText(w), FractionText(w.fraction) + ZoneBytes(w.zone), HeadSeconds(w), Some(Instant(w)));
  }

  lemma BothAreParsed(head: bytes, tail: bytes, seconds: int, t: Option<Time>)
    requires |head| == 19 && ParseDateTime(head) == Some(seconds) && ParseTail(seconds, tail) == t
    ensures ParseIso8601(head + tail) == t
  {
    HeadAndTail(head, tail);
  }

  lemma TailIsParsed(w: Stamp, seconds: int)
    requires Proper(w)
    ensures ParseTail(seconds, FractionText(w.fraction) + ZoneBytes(w.zone)) == Some(Time(seconds - Ahead(w.zone), Micros(w.fraction)))
  {
    ZoneStarts(w.zone);
    FractionIsParsed(w.fraction, ZoneBytes(w.zone));
    ZoneIsParsed(w.zone);
    TailIs(seconds, FractionText(w.fraction) + ZoneBytes(w.zone), Micros(w.fraction), ZoneBytes(w.zone), Ahead(w.zone));
  }

  lemma StampOf(s: bytes) returns (w: Stamp)
    requires ParseIso8601(s).Some?
    ensures Proper(w) && s == StampText(w)
  {
    w := HeadOf(s[..19]);
    var ds := FractionOf(s[19..]);
    var z := ZoneOf(ParseFraction(s[19..]).value.rest);
    w := w.(fraction := ds, zone := z);
    assert s == s[..19] + s[19..];
  }

  ghost predicate Stands(s: bytes, t: Time) {
    exists w :: Proper(w) && s == StampText(w) && t == Instant(w)
  }

  /** The parser accepts exactly the timestamps, and gives the instant each stands for. */
  lemma ParsedIffStamp(s: bytes, t: Time)
    ensures ParseIso8601(s) == Some(t) <==> Stands(s, t)
  {
    if ParseIso8601(s) == Some(t) {
      var w := StampOf(s);
      StampIsParsed(w);
    }
    if Stands(s, t) {
      var w :| Proper(w) && s == StampText(w) && t == Instant(w);
      StampIsParsed(w);
    }
  }

  // ---- Printed stamps ----

  lemma PrintedForm(tv: Time)
    requires 0 <= CivilFromDays(SplitDay(Normalize(tv).seconds).0).year <= 9999
    ensures var t := TimeText(tv); |t| == 27 && t[10] == 'T' as int && t[26] == 'Z' as int
  {
    TextFits(tv);
    var t := Normalize(tv);
    var (days, sec) := SplitDay(t.seconds);
    var c := CivilFromDays(days);
    DaysUndoCivil(days);
    DateTextReads(c);
    assert TimeText(tv) == DateText(c) + ([LETTER_T] + ClockText(sec)) + ([DOT] + Padded(t.usec, 6) + [LETTER_Z]);
  }

  lemma OfPrintedForm(w: Stamp)
    requires Proper(w)
    requires var t := StampText(w); |t| == 27 && t[10] == 'T' as int && t[26] == 'Z' as int
    ensures w.letter == Upper && w.zone == Zulu(Upper) && |w.fraction| == 6
  {
    var t, tail := StampText(w), FractionText(w.fraction) + ZoneBytes(w.zone);
    assert t[10] == HeadText(w)[10] && t[26] == tail[7] && |tail| == 8;
    if w.zone != Missing {
      assert tail[7] == ZoneBytes(w.zone)[|ZoneBytes(w.zone)| - 1];
    }
  }

  /** In the years 0 to 9999 a timeval is printed with a capital T, six digits of a second and a capital Z. */
  lemma PrintedIsStamp(tv: Time) returns (w: Stamp)
    requires 0 <= CivilFromDays(SplitDay(Normalize(tv).seconds).0).year <= 9999
    ensures Proper(w) && TimeText(tv) == StampText(w) && Instant(w) == Normalize(tv)
    ensures w.letter == Upper && |w.fraction| == 6 && w.zone == Zulu(Upper)
  {
    TimeRoundTrip(tv);
    w := StampOf(TimeText(tv));
    StampIsParsed(w);
    PrintedForm(tv);
    OfPrintedForm(w);
  }
}
