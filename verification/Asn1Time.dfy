/** ASN.1 UTCTime and GeneralizedTime as the ACME module reads them, and the printers they invert. */
module Asn1Time {
  import opened Basics
  import opened CivilDate
  import Utf8

  const UTC_TIME: byte := 0x17
  const GENERALIZED_TIME: byte := 0x18

  datatype Timestamp = Timestamp(date: Date, hour: int, minute: int, second: int)

  predicate ValidTimestamp(t: Timestamp) {
    ValidDate(t.date) && 0 <= t.hour < 24 && 0 <= t.minute < 60 && 0 <= t.second < 60
  }

  predicate Earlier(a: Timestamp, b: Timestamp) {
    Before(a.date, b.date) ||
    (a.date == b.date &&
      (a.hour < b.hour ||
      (a.hour == b.hour && (a.minute < b.minute || (a.minute == b.minute && a.second < b.second)))))
  }

  /** Seconds since 1970-01-01T00:00:00, from the counted calendar. */
  function UnixSeconds(t: Timestamp): int
    requires ValidTimestamp(t)
  {
    (CountedDays(t.date) - CountedDays(Date(1970, 1, 1))) * 86400 + t.hour * 3600 + t.minute * 60 + t.second
  }

  // ----- The parser -----

  predicate IsDigit(b: byte) { 0x30 <= b <= 0x39 }

  function DigitValue(b: byte): nat
    requires IsDigit(b)
  {
    b - 0x30
  }

  predicate AllDigits(s: Bytes) { forall i :: 0 <= i < |s| ==> IsDigit(s[i]) }

  function DecimalValue(s: Bytes): nat
    requires AllDigits(s)
  {
    if |s| == 0 then 0 else DecimalValue(s[..|s| - 1]) * 10 + DigitValue(s[|s| - 1])
  }

  /** Rust's `str::parse::<u32>` on at most four characters: an optional `+`, then digits. */
  function ParseNumber(s: Bytes): Option<nat> {
    var digits := if |s| > 0 && s[0] == 0x2B then s[1..] else s;
    if |digits| > 0 && AllDigits(digits)
    then Some(DecimalValue(digits))
    else None
  }

  /**
   `s.get(lo..hi)?.parse().ok()?`. A slice that parses is ASCII, so its ends are character
   boundaries of a valid string and only the range needs checking.
   */
  function Field(s: Bytes, lo: nat, hi: nat): Option<nat>
    requires lo <= hi
  {
    if hi <= |s| then ParseNumber(s[lo..hi]) else None
  }

  /** The part of `parse_asn1_time` that follows the year. */
  function ParseAfterYear(year: nat, rest: Bytes): Option<nat> {
    var month, day := Field(rest, 0, 2), Field(rest, 2, 4);
    var hour, minute, second := Field(rest, 4, 6), Field(rest, 6, 8), Field(rest, 8, 10);
    if month.None? || day.None? || hour.None? || minute.None? || second.None? then None
    else
      var days := DaysFromCivil(year, month.value, day.value);
      var secs := days * 86400 + hour.value * 3600 + minute.value * 60 + second.value;
      var unixSecs := secs - DaysFromCivil(1970, 1, 1) * 86400;
      if unixSecs < 0 then None else Some(unixSecs)
  }

  /** `parse_asn1_time`: seconds since the Unix epoch. */
  function ParseTime(tag: byte, bytes: Bytes): Option<nat> {
    if !Utf8.Valid(bytes) then None
    else if tag == UTC_TIME then
      var y := Field(bytes, 0, 2);
      if y.None? then None
      else ParseAfterYear(if y.value >= 50 then 1900 + y.value else 2000 + y.value, bytes[2..])
    else if tag == GENERALIZED_TIME then
      var year := Field(bytes, 0, 4);
      if year.None? then None else ParseAfterYear(year.value, bytes[4..])
    else None
  }

  // ----- The printers (section 4.1.2.5 of RFC 5280) -----

  function TwoDigits(n: int): (s: Bytes)
    requires 0 <= n < 100
    ensures |s| == 2
  {
    [0x30 + n / 10, 0x30 + n % 10]
  }

  function PrintAfterYear(t: Timestamp): (s: Bytes)
    requires ValidTimestamp(t)
    ensures |s| == 11
  {
    TwoDigits(t.date.month) + TwoDigits(t.date.day) + TwoDigits(t.hour) + TwoDigits(t.minute) +
    TwoDigits(t.second) + [0x5A]
  }

  function PrintUtcTime(t: Timestamp): Bytes
    requires ValidTimestamp(t) && 1950 <= t.date.year <= 2049
  {
    TwoDigits(t.date.year % 100) + PrintAfterYear(t)
  }

  function PrintGeneralizedTime(t: Timestamp): Bytes
    requires ValidTimestamp(t) && 0 <= t.date.year <= 9999
  {
    TwoDigits(t.date.year / 100) + TwoDigits(t.date.year % 100) + PrintAfterYear(t)
  }

  // ----- Proof -----

  lemma {:induction false} AsciiIsUtf8(s: Bytes)
    requires forall i :: 0 <= i < |s| ==> s[i] < 0x80
    ensures Utf8.Valid(s)
    decreases |s|
  {
    if |s| > 0 {
      AsciiIsUtf8(s[1..]);
    }
  }

  lemma ParseTwoDigits(n: int)
    requires 0 <= n < 100
    ensures ParseNumber(TwoDigits(n)) == Some(n)
  {
    var s := TwoDigits(n);
    assert s[..1][..0] == [];
    assert DigitValue(s[0]) == n / 10 && DigitValue(s[1]) == n % 10;
    assert DecimalValue(s[..1]) == n / 10;
  }

  lemma ParseFourDigits(n: int)
    requires 0 <= n <= 9999
    ensures ParseNumber(TwoDigits(n / 100) + TwoDigits(n % 100)) == Some(n)
  {
    hide DecimalValue;
    var q, r := n / 100, n % 100;
    var s := TwoDigits(q) + TwoDigits(r);
    assert IsDigit(s[0]) && IsDigit(s[1]) && IsDigit(s[2]) && IsDigit(s[3]);
    FourDigitValue(s);
    assert DigitValue(s[0]) * 10 + DigitValue(s[1]) == q && DigitValue(s[2]) * 10 + DigitValue(s[3]) == r;
  }

  lemma FourDigitValue(s: Bytes)
    requires |s| == 4 && forall i :: 0 <= i < 4 ==> IsDigit(s[i])
    ensures DecimalValue(s) ==
            DigitValue(s[0]) * 1000 + DigitValue(s[1]) * 100 + DigitValue(s[2]) * 10 + DigitValue(s[3])
  {
    var s3, s2, s1 := s[..3], s[..2], s[..1];
    assert s3[..2] == s2 && s2[..1] == s1 && s1[..0] == [];
    assert DecimalValue(s1) == DigitValue(s[0]);
    assert DecimalValue(s2) == DecimalValue(s1) * 10 + DigitValue(s[1]);
    assert DecimalValue(s3) == DecimalValue(s2) * 10 + DigitValue(s[2]);
  }

  lemma ParseAfterYearInverts(t: Timestamp)
    requires ValidTimestamp(t) && t.date.year >= 0
    ensures ParseAfterYear(t.date.year, PrintAfterYear(t)) ==
            if UnixSeconds(t) < 0 then None else Some(UnixSeconds(t))
  {
    hide ParseNumber, TwoDigits, DaysFromCivil, CountedDays;
    var s := PrintAfterYear(t);
    assert s[0..2] == TwoDigits(t.date.month) && s[2..4] == TwoDigits(t.date.day);
    assert s[4..6] == TwoDigits(t.hour) && s[6..8] == TwoDigits(t.minute) && s[8..10] == TwoDigits(t.second);
    ParseTwoDigits(t.date.month);
    ParseTwoDigits(t.date.day);
    ParseTwoDigits(t.hour);
    ParseTwoDigits(t.minute);
    ParseTwoDigits(t.second);
    CivilAgreesWithCount(t.date);
    CivilAgreesWithCount(Date(1970, 1, 1));
  }

  lemma PrintedIsAscii(t: Timestamp)
    requires ValidTimestamp(t)
    ensures 1950 <= t.date.year <= 2049 ==>
              forall i :: 0 <= i < |PrintUtcTime(t)| ==> PrintUtcTime(t)[i] < 0x80
  {
  }

  /** Every UTCTime reads back as the correct Unix time; times before 1970 are refused. */
  lemma UtcTimeReadsBack(t: Timestamp)
    requires ValidTimestamp(t) && 1950 <= t.date.year <= 2049
    ensures ParseTime(UTC_TIME, PrintUtcTime(t)) ==
            if UnixSeconds(t) < 0 then None else Some(UnixSeconds(t))
  {
    hide ParseNumber, TwoDigits, PrintAfterYear, ParseAfterYear, UnixSeconds, Utf8.Valid;
    var s := PrintUtcTime(t);
    PrintedIsAscii(t);
    AsciiIsUtf8(s);
    assert s[0..2] == TwoDigits(t.date.year % 100) && s[2..] == PrintAfterYear(t);
    ParseTwoDigits(t.date.year % 100);
    ParseAfterYearInverts(t);
  }

  /** Every GeneralizedTime reads back as the correct Unix time; times before 1970 are refused. */
  lemma GeneralizedTimeReadsBack(t: Timestamp)
    requires ValidTimestamp(t) && 0 <= t.date.year <= 9999
    ensures ParseTime(GENERALIZED_TIME, PrintGeneralizedTime(t)) ==
            if UnixSeconds(t) < 0 then None else Some(UnixSeconds(t))
  {
    hide ParseNumber, ParseAfterYear, UnixSeconds, Utf8.Valid;
    var s := PrintGeneralizedTime(t);
    AsciiIsUtf8(s);
    assert s[0..4] == TwoDigits(t.date.year / 100) + TwoDigits(t.date.year % 100);
    assert s[4..] == PrintAfterYear(t);
    ParseFourDigits(t.date.year);
    ParseAfterYearInverts(t);
  }

  /** Unix time orders valid timestamps exactly as the clock and calendar do. */
  lemma UnixSecondsOrders(a: Timestamp, b: Timestamp)
    requires ValidTimestamp(a) && ValidTimestamp(b)
    ensures Earlier(a, b) <==> UnixSeconds(a) < UnixSeconds(b)
  {
    CivilAgreesWithCount(a.date);
    CivilAgreesWithCount(b.date);
    OrderAgrees(a.date, b.date);
    OrderAgrees(b.date, a.date);
  }

  /** The time can be printed under the tag. */
  predicate Printable(tag: byte, t: Timestamp) {
    && ValidTimestamp(t)
    && ((tag == 0x17 && 1950 <= t.date.year <= 2049) || (tag == 0x18 && 0 <= t.date.year <= 9999))
  }

  function Print(tag: byte, t: Timestamp): Bytes
    requires Printable(tag, t)
  {
    if tag == 0x17 then PrintUtcTime(t) else PrintGeneralizedTime(t)
  }

  lemma PrintedTimeReadsBack(tag: byte, t: Timestamp)
    requires Printable(tag, t)
    ensures ParseTime(tag, Print(tag, t)) == if UnixSeconds(t) < 0 then None else Some(UnixSeconds(t))
  {
    hide ParseTime, PrintUtcTime, PrintGeneralizedTime, UnixSeconds;
    if tag == UTC_TIME {
      UtcTimeReadsBack(t);
    } else {
      GeneralizedTimeReadsBack(t);
    }
  }

  /**
   Parsing is strictly increasing, also from one time format to the other: parsed times compare
   exactly as the printed ones, and whatever is later than a time that parses also parses.
   */
  lemma ParsedTimesOrder(tagA: byte, a: Timestamp, tagB: byte, b: Timestamp)
    requires Printable(tagA, a) && Printable(tagB, b)
    ensures var p, q := ParseTime(tagA, Print(tagA, a)), ParseTime(tagB, Print(tagB, b));
            && (p.Some? && Earlier(a, b) ==> q.Some?)
            && (p.Some? && q.Some? ==> (Earlier(a, b) <==> p.value < q.value) && (a == b <==> p.value == q.value))
  {
    PrintedTimeReadsBack(tagA, a);
    PrintedTimeReadsBack(tagB, b);
    UnixSecondsOrders(a, b);
    UnixSecondsOrders(b, a);
    EarlierIsTotal(a, b);
    hide ParseTime, Print, UnixSeconds, Earlier;
  }

  lemma EarlierIsTotal(a: Timestamp, b: Timestamp)
    ensures a == b || Earlier(a, b) || Earlier(b, a)
    ensures a == b ==> !Earlier(a, b)
  {
  }

  // ----- What else is accepted -----

  /** Decimal digits, the first of several possibly replaced by a plus sign. */
  predicate IsNumeral(s: Bytes) {
    && |s| > 0 && (forall i :: 1 <= i < |s| ==> 0x30 <= s[i] <= 0x39)
    && (0x30 <= s[0] <= 0x39 || (s[0] == 0x2B && |s| > 1))
  }

  lemma NumeralsParse(s: Bytes)
    ensures ParseNumber(s).Some? <==> IsNumeral(s)
  {
    var digits := if |s| > 0 && s[0] == 0x2B then s[1..] else s;
    var skip := |s| - |digits|;
    if IsNumeral(s) {
      forall i | 0 <= i < |digits|
        ensures IsDigit(digits[i])
      {
        assert digits[i] == s[i + skip];
      }
    }
    if ParseNumber(s).Some? {
      assert AllDigits(digits);
      forall i | skip <= i < |s|
        ensures IsDigit(s[i])
      {
        assert IsDigit(digits[i - skip]) && s[i] == digits[i - skip];
      }
    }
  }

  /** A plus sign counts as a zero. */
  lemma PlusIsIgnored(d: byte)
    requires IsDigit(d)
    ensures ParseNumber([0x2B, d]) == ParseNumber([0x30, d]) == Some(d - 0x30)
  {
    assert [0x2B, d][1..] == [d];
    assert [d][..0] == [] && [0x30, d][..1] == [0x30] && [0x30][..0] == [];
    assert DecimalValue([0x30]) == 0 && DecimalValue([d]) == d - 0x30;
  }

  /** Both kinds of time end ten numeral octets after their year. */
  predicate NumeralsFrom(bytes: Bytes, at: nat) {
    at + 10 <= |bytes| && forall i :: 0 <= i < 5 ==> IsNumeral(bytes[at + 2 * i..at + 2 * i + 2])
  }

  /** Whatever is accepted as a time is UTF-8 text that starts with numerals, under one of the two tags. */
  lemma AcceptedTimesAreNumerals(tag: byte, bytes: Bytes)
    requires ParseTime(tag, bytes).Some?
    ensures Utf8.Valid(bytes)
    ensures || (tag == 0x17 && |bytes| >= 12 && IsNumeral(bytes[0..2]) && NumeralsFrom(bytes, 2))
            || (tag == 0x18 && |bytes| >= 14 && IsNumeral(bytes[0..4]) && NumeralsFrom(bytes, 4))
  {
    hide ParseNumber, DaysFromCivil, Utf8.Valid, IsNumeral;
    var y := if tag == UTC_TIME then 2 else 4;
    NumeralsParse(bytes[0..y]);
    var rest := bytes[y..];
    forall i | 0 <= i < 5
      ensures IsNumeral(bytes[y + 2 * i..y + 2 * i + 2])
    {
      assert Field(rest, 2 * i, 2 * i + 2).Some?;
      assert rest[2 * i..2 * i + 2] == bytes[y + 2 * i..y + 2 * i + 2];
      NumeralsParse(rest[2 * i..2 * i + 2]);
    }
  }
}
