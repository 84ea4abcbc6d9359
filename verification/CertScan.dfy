/** The expiry date of a certificate, as the renewal task finds it.

    The bytes of the certificate are not parsed: a scan looks for the tag of a time value and takes the
    second value it finds as the end of the validity period. The theorems say when that is right and that
    the day number of the value is that of the calendar, two-digit years included
    (section 4.1.2.5 of RFC 5280).
 */
module CertScan {
  import opened Wrappers
  import opened Calendar
  import opened Utf8
  import opened Text

  // ----- the scan -----

  /** A slice of the certificate, without the copy. */
  datatype Span = Span(start: nat, end: nat)

  predicate TimeTag(b: byte) {
    b == 0x17 || b == 0x18
  }

  /** Every value the scan would take from a position on. */
  function Spans(der: seq<byte>, i: nat): (spans: seq<Span>)
    ensures forall s | s in spans :: i + 2 <= s.start <= s.end <= |der|
    decreases |der| - i
  {
    if i + 2 >= |der| then []
    else if !TimeTag(der[i]) then Spans(der, i + 1)
    else
      var end := i + 2 + der[i + 1];
      if end <= |der| then [Span(i + 2, end)] + Spans(der, end) else Spans(der, end)
  }

  method ScanTimes(der: seq<byte>) returns (found: seq<Span>)
    ensures var all := Spans(der, 0);
            found == if |all| < 2 then all else all[..2]
  {
    found := [];
    var i := 0;
    while i + 2 < |der| && |found| < 2
      invariant |found| <= 2
      invariant |found| < 2 ==> Spans(der, 0) == found + Spans(der, i)
      invariant |found| == 2 ==> found <= Spans(der, 0)
      decreases |der| - i
    {
      if TimeTag(der[i]) {
        var end := i + 2 + der[i + 1];
        ghost var rest := Spans(der, i);
        if end <= |der| {
          assert found + rest == found + [Span(i + 2, end)] + Spans(der, end);
          found := found + [Span(i + 2, end)];
        }
        i := end;
      } else {
        i := i + 1;
      }
    }
  }

  /** The universal tags of UTCTime and GeneralizedTime, numbers 23 and 24. */
  predicate TimeType(b: byte) {
    b == 23 || b == 24
  }

  ghost predicate NoTagIn(der: seq<byte>, lo: nat, hi: nat)
    requires hi <= |der|
  {
    forall k | lo <= k < hi :: !TimeType(der[k])
  }

  /** A tag that is followed by a length and a value of that length. */
  predicate ValueAt(der: seq<byte>, k: nat) {
    k + 2 < |der| && TimeType(der[k]) && k + 2 + der[k + 1] <= |der|
  }

  function SpanAt(der: seq<byte>, k: nat): Span
    requires ValueAt(der, k)
  {
    Span(k + 2, k + 2 + der[k + 1])
  }

  /** Nothing is taken but tagged values, and none of the last two bytes. */
  lemma {:induction false} TakenAreValues(der: seq<byte>, i: nat, s: Span) returns (k: nat)
    requires s in Spans(der, i)
    ensures i <= k && k + 2 < |der| && ValueAt(der, k) && s == SpanAt(der, k)
    decreases |der| - i
  {
    var next := if TimeType(der[i]) then i + 2 + der[i + 1] else i + 1;
    if TimeType(der[i]) && s == SpanAt(der, i) {
      k := i;
    } else {
      k := TakenAreValues(der, next, s);
    }
  }

  lemma {:induction false} FirstTimeIff(der: seq<byte>, i: nat, k: nat)
    requires ValueAt(der, k)
    ensures Spans(der, i) != [] && Spans(der, i)[0] == SpanAt(der, k) <==> i <= k && NoTagIn(der, i, k)
    decreases |der| - i
  {
    if i + 2 < |der| && !TimeType(der[i]) {
      FirstTimeIff(der, i + 1, k);
    }
  }

  /** The scan takes the value at k as its second exactly if what it took as its first ends at or before k
      and no tag lies between; j is the first tag of all. */
  lemma SecondTimeIff(der: seq<byte>, j: nat, k: nat)
    requires ValueAt(der, k)
    requires j <= k && TimeType(der[j]) && NoTagIn(der, 0, j)
    ensures var end := j + 2 + der[j + 1];
            (|Spans(der, 0)| >= 2 && Spans(der, 0)[1] == SpanAt(der, k)) <==> (end <= k && NoTagIn(der, end, k))
  {
    var end := j + 2 + der[j + 1];
    SkipPlain(der, 0, j);
    FirstTimeIff(der, end, k);
  }

  lemma {:induction false} SkipPlain(der: seq<byte>, i: nat, j: nat)
    requires i <= j <= |der| && NoTagIn(der, i, j)
    ensures Spans(der, i) == Spans(der, j)
    decreases j - i
  {
    if i < j {
      SkipPlain(der, i + 1, j);
    }
  }

  /** A tag, a one-byte length and a value. */
  function Tlv(tag: byte, value: seq<byte>): seq<byte>
    requires |value| < 0x80
  {
    [tag, |value|] + value
  }

  ghost predicate Plain(b: seq<byte>) {
    forall k | 0 <= k < |b| :: !TimeType(b[k])
  }

  /** Bytes without a tag, two time values, and anything after them: the scan takes the second value. */
  lemma ScanPicksSecond(prefix: seq<byte>, t1: byte, v1: seq<byte>, t2: byte, v2: seq<byte>, suffix: seq<byte>)
    requires Plain(prefix) && TimeType(t1) && TimeType(t2)
    requires |v1| < 0x80 && 0 < |v2| < 0x80
    ensures var der := prefix + Tlv(t1, v1) + Tlv(t2, v2) + suffix;
            var spans := Spans(der, 0);
            && |spans| >= 2
            && der[spans[0].start..spans[0].end] == v1
            && der[spans[1].start..spans[1].end] == v2
  {
    var der := prefix + Tlv(t1, v1) + Tlv(t2, v2) + suffix;
    var j := |prefix|;
    var k := j + 2 + |v1|;
    assert der[j] == t1 && der[j + 1] == |v1| && der[j + 2..k] == v1;
    assert der[k] == t2 && der[k + 1] == |v2| && der[k + 2..k + 2 + |v2|] == v2;
    assert NoTagIn(der, 0, j);
    SecondTimeIff(der, j, k);
    FirstTimeIff(der, 0, j);
  }

  /** A stray tag before the two values, such as a byte of a serial number, can make the scan take the
      first value, the start of the validity period, for the end of it. */
  lemma StrayTagTakesFirst(prefix: seq<byte>, stray: seq<byte>, t1: byte, v1: seq<byte>, t2: byte, v2: seq<byte>,
                           suffix: seq<byte>)
    requires Plain(prefix) && TimeType(t1) && TimeType(t2)
    requires |stray| < 0x80 && 0 < |v1| < 0x80 && |v2| < 0x80
    ensures var der := prefix + Tlv(0x17, stray) + Tlv(t1, v1) + Tlv(t2, v2) + suffix;
            var spans := Spans(der, 0);
            |spans| >= 2 && der[spans[1].start..spans[1].end] == v1
  {
    hide Spans, Plain;
    ScanPicksSecond(prefix, 0x17, stray, t1, v1, Tlv(t2, v2) + suffix);
    assert prefix + Tlv(0x17, stray) + Tlv(t1, v1) + Tlv(t2, v2) + suffix
        == prefix + Tlv(0x17, stray) + Tlv(t1, v1) + (Tlv(t2, v2) + suffix);
  }

  // ----- the text of a time -----

  /** A Rust function that returns an option but may also panic. */
  datatype Outcome<T> = Panic | Nothing | Got(value: T) {
    predicate IsFailure() {
      !Got?
    }

    function PropagateFailure<U>(): Outcome<U>
      requires !Got?
    {
      if Panic? then Panic else Nothing
    }

    function Extract(): T
      requires Got?
    {
      value
    }
  }

  predicate Boundary(b: seq<byte>, k: nat) {
    k == |b| || (k < |b| && !Continuation(b[k]))
  }

  function Chars(b: seq<byte>): string {
    seq(|b|, i requires 0 <= i < |b| => b[i] as char)
  }

  /** Rust's `parse` into a signed type, for texts too short to overflow. */
  function ParseSigned(s: string): Option<int> {
    if s != "" && s[0] == '-' then
      var v :- Digits(s[1..]);
      var n: int := v;
      Some(-n)
    else
      var v :- Digits(if s != "" && s[0] == '+' then s[1..] else s);
      Some(v)
  }

  /** The number in part of a text. Slicing a text off its character boundaries panics. */
  function Number(b: seq<byte>, lo: nat, hi: nat): Outcome<int>
    requires lo <= hi
  {
    if !Boundary(b, lo) || !Boundary(b, hi) then Panic
    else
      match ParseSigned(Chars(b[lo..hi]))
      case Some(v) => Got(v)
      case None => Nothing
  }

  function FullYear(yy: int): int {
    if yy < 50 then 2000 + yy else 1900 + yy
  }

  function ParseTime(b: seq<byte>): Outcome<Date> {
    if !Valid(b) then Nothing
    else
      var w := if |b| >= 15 then 4 else 2;
      var y :- Number(b, 0, w);
      var month :- Number(b, w, w + 2);
      var day :- Number(b, w + 2, w + 4);
      Got(Date(if w == 4 then y else FullYear(y), month, day))
  }

  function Expiry(der: seq<byte>, now: nat): Outcome<int> {
    var spans := Spans(der, 0);
    if |spans| < 2 then Nothing
    else
      var date :- ParseTime(der[spans[1].start..spans[1].end]);
      Got(DaysSinceEpoch(date) - now / SECS_PER_DAY)
  }

  /** The days from now to the expiry of a decoded certificate. */
  method DaysUntilExpiry(der: seq<byte>, now: nat) returns (days: Outcome<int>)
    ensures days == Expiry(der, now)
  {
    hide ParseTime, DaysSinceEpoch;
    var found := ScanTimes(der);
    if |found| < 2 {
      return Nothing;
    }
    assert found[1] in Spans(der, 0);
    var date :- ParseTime(der[found[1].start..found[1].end]);
    return Got(DaysSinceEpoch(date) - now / SECS_PER_DAY);
  }

  // ----- what a certificate writes -----

  function TwoDigits(n: nat): string
    requires n < 100
  {
    ['0' + (n / 10) as char, '0' + (n % 10) as char]
  }

  function MonthAndDay(date: Date): string
    requires ValidDate(date)
  {
    TwoDigits(date.month) + TwoDigits(date.day)
  }

  /** YYMMDD and the time of day. */
  function UtcTime(date: Date, clock: string): string
    requires ValidDate(date) && date.year >= 0
  {
    TwoDigits(date.year % 100) + MonthAndDay(date) + clock
  }

  /** YYYYMMDD and the time of day. */
  function GeneralizedTime(date: Date, clock: string): string
    requires ValidDate(date) && 0 <= date.year < 10000
  {
    TwoDigits(date.year / 100) + TwoDigits(date.year % 100) + MonthAndDay(date) + clock
  }

  ghost predicate Clock(s: string) {
    |s| == 7 && IsAscii(s)
  }

  lemma NumberOfTwo(b: seq<byte>, lo: nat, n: nat)
    requires n < 100 && lo + 2 <= |b|
    requires Boundary(b, lo) && Boundary(b, lo + 2)
    requires Chars(b[lo..lo + 2]) == TwoDigits(n)
    ensures Number(b, lo, lo + 2) == Got(n)
  {
    var s := TwoDigits(n);
    assert Digits(s[..1]) == Some(n / 10);
  }

  lemma NumberOfFour(b: seq<byte>, m: nat, n: nat)
    requires m < 100 && n < 100 && 4 <= |b|
    requires Boundary(b, 0) && Boundary(b, 4)
    requires Chars(b[0..4]) == TwoDigits(m) + TwoDigits(n)
    ensures Number(b, 0, 4) == Got(100 * m + n)
  {
    var s := TwoDigits(m) + TwoDigits(n);
    assert Digits(s[..1]) == Some(m / 10);
    assert s[..2][..1] == s[..1] && Digits(s[..2]) == Some(m);
    assert s[..3][..2] == s[..2] && Digits(s[..3]) == Some(10 * m + n / 10);
    assert s[..4] == s && s[..4][..3] == s[..3];
  }

  lemma AsciiPart(s: string, lo: nat, hi: nat)
    requires IsAscii(s) && lo <= hi <= |s|
    ensures Boundary(Ascii(s), lo) && Boundary(Ascii(s), hi)
    ensures Chars(Ascii(s)[lo..hi]) == s[lo..hi]
  {
    var b := Ascii(s);
    assert |Chars(b[lo..hi])| == hi - lo == |s[lo..hi]|;
    forall k: nat | k < hi - lo ensures Chars(b[lo..hi])[k] == s[lo..hi][k] {
      assert b[lo..hi][k] == b[lo + k] == s[lo + k] as byte;
    }
  }

  /** A two-digit year comes back exactly for the years of the pivot's century. */
  lemma UtcTimeIff(date: Date, clock: string)
    requires ValidDate(date) && date.year >= 0 && Clock(clock)
    ensures IsAscii(UtcTime(date, clock))
    ensures ParseTime(Ascii(UtcTime(date, clock))) == Got(Date(FullYear(date.year % 100), date.month, date.day))
    ensures ParseTime(Ascii(UtcTime(date, clock))) == Got(date) <==> 1950 <= date.year < 2050
  {
    hide Number, FromUtf8, Ascii, Boundary, Chars;
    var s := UtcTime(date, clock);
    var b := Ascii(s);
    DecodeAscii(s);
    AsciiPart(s, 0, 2);
    AsciiPart(s, 2, 4);
    AsciiPart(s, 4, 6);
    NumberOfTwo(b, 0, date.year % 100);
    NumberOfTwo(b, 2, date.month);
    NumberOfTwo(b, 4, date.day);
  }

  lemma GeneralizedTimeIs(date: Date, clock: string)
    requires ValidDate(date) && 0 <= date.year < 10000 && Clock(clock)
    ensures IsAscii(GeneralizedTime(date, clock))
    ensures ParseTime(Ascii(GeneralizedTime(date, clock))) == Got(date)
  {
    hide Number, FromUtf8, Ascii, Boundary, Chars;
    var s := GeneralizedTime(date, clock);
    var b := Ascii(s);
    DecodeAscii(s);
    AsciiPart(s, 0, 4);
    AsciiPart(s, 4, 6);
    AsciiPart(s, 6, 8);
    NumberOfFour(b, date.year / 100, date.year % 100);
    NumberOfTwo(b, 4, date.month);
    NumberOfTwo(b, 6, date.day);
  }

  /** The form that section 4.1.2.5 of RFC 5280 asks for. */
  function ValidityTime(date: Date, clock: string): string
    requires ValidDate(date) && 1950 <= date.year < 10000
  {
    if date.year < 2050 then UtcTime(date, clock) else GeneralizedTime(date, clock)
  }

  lemma ValidityTimeIs(date: Date, clock: string)
    requires ValidDate(date) && 1950 <= date.year < 10000 && Clock(clock)
    ensures IsAscii(ValidityTime(date, clock))
    ensures 0 < |ValidityTime(date, clock)| < 0x80
    ensures ParseTime(Ascii(ValidityTime(date, clock))) == Got(date)
  {
    hide ParseTime, IsAscii;
    if date.year < 2050 {
      UtcTimeIff(date, clock);
    } else {
      GeneralizedTimeIs(date, clock);
    }
  }

  function Certificate(prefix: seq<byte>, t1: byte, notBefore: seq<byte>,
                       t2: byte, notAfter: seq<byte>, suffix: seq<byte>): seq<byte>
    requires |notBefore| < 0x80 && |notAfter| < 0x80
  {
    prefix + Tlv(t1, notBefore) + Tlv(t2, notAfter) + suffix
  }

  /** The number of days until a certificate expires is the difference of the day counts. */
  lemma ExpiryIsDayCount(prefix: seq<byte>, t1: byte, notBefore: seq<byte>, t2: byte, n: nat, clock: string,
                         suffix: seq<byte>, now: nat)
    requires Plain(prefix) && TimeType(t1) && TimeType(t2) && |notBefore| < 0x80 && Clock(clock)
    requires CountFromEpoch(n).year < 10000
    ensures ValidDate(CountFromEpoch(n)) && CountFromEpoch(n).year >= 1950
    ensures var notAfter := ValidityTime(CountFromEpoch(n), clock);
            && IsAscii(notAfter) && |notAfter| < 0x80
            && Expiry(Certificate(prefix, t1, notBefore, t2, Ascii(notAfter), suffix), now)
               == Got(n - now / (24 * 60 * 60))
  {
    hide ParseTime, DaysSinceEpoch, Spans, CountFromEpoch, ValidityTime, IsAscii, TimeType, Plain;
    JulianCountsDays(n);
    var date := CountFromEpoch(n);
    ValidityTimeIs(date, clock);
    ScanPicksSecond(prefix, t1, notBefore, t2, Ascii(ValidityTime(date, clock)), suffix);
  }

  /** Without a second value, or with one that is not UTF-8, there is no expiry date; a value that is too short
      to slice panics. */
  lemma NoExpiry(der: seq<byte>, now: nat)
    ensures |Spans(der, 0)| < 2 ==> Expiry(der, now) == Nothing
    ensures |Spans(der, 0)| >= 2 ==>
              var value := der[Spans(der, 0)[1].start..Spans(der, 0)[1].end];
              && (!Valid(value) ==> Expiry(der, now) == Nothing)
              && (Valid(value) && |value| < 2 ==> Expiry(der, now) == Panic)
  {
    hide FromUtf8;
    if |Spans(der, 0)| >= 2 {
      assert Spans(der, 0)[1] in Spans(der, 0);
    }
  }

  lemma AsciiBoundaries(s: string)
    requires IsAscii(s)
    ensures forall k: nat | k <= |s| :: Boundary(Ascii(s), k)
  {
  }

  /** An ASCII value of six characters or more never panics. */
  lemma LongEnoughNeverPanics(s: string)
    requires IsAscii(s) && |s| >= 6
    ensures ParseTime(Ascii(s)) != Panic
  {
    hide FromUtf8, Ascii, ParseSigned, Chars;
    DecodeAscii(s);
    AsciiBoundaries(s);
  }

  lemma SignedIs(n: nat)
    ensures var m: int := n;
            && ParseSigned("-" + Decimal(n)) == Some(-m)
            && ParseSigned("+" + Decimal(n)) == Some(m) == ParseSigned(Decimal(n))
  {
    DecimalDigits(n);
    DecimalChars(n);
    assert ("-" + Decimal(n))[1..] == Decimal(n) && ("+" + Decimal(n))[1..] == Decimal(n);
    assert Digit(Decimal(n)[0]);
  }
}
