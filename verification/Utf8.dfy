/** UTF-8 decoding as Rust's `from_utf8` does it: section 4 of RFC 3629, no overlong forms, no surrogates. */
module Utf8 {
  import opened Arith
  import opened Wrappers

  type byte = n: nat | n < 256

  predicate Continuation(b: byte) {
    0x80 <= b < 0xC0
  }

  /** The allowed range of the second byte depends on the first. */
  predicate SecondByte(b0: byte, b1: byte) {
    && Continuation(b1)
    && (b0 == 0xE0 ==> b1 >= 0xA0)
    && (b0 == 0xED ==> b1 < 0xA0)
    && (b0 == 0xF0 ==> b1 >= 0x90)
    && (b0 == 0xF4 ==> b1 < 0x90)
  }

  /** The number of bytes a first byte announces, 0 if no character starts with it. */
  function Announced(b0: byte): nat {
    if b0 < 0x80 then 1
    else if 0xC2 <= b0 < 0xE0 then 2
    else if 0xE0 <= b0 < 0xF0 then 3
    else if 0xF0 <= b0 < 0xF5 then 4
    else 0
  }

  /** The length of the character at the front, 0 if there is none. */
  function FrontLength(b: seq<byte>): (n: nat)
    ensures n <= |b|
  {
    if b == [] then 0
    else
      var n := Announced(b[0]);
      if |b| < n then 0
      else if n >= 2 && !SecondByte(b[0], b[1]) then 0
      else if n >= 3 && !Continuation(b[2]) then 0
      else if n >= 4 && !Continuation(b[3]) then 0
      else n
  }

  function FrontChar(b: seq<byte>): char
    requires FrontLength(b) > 0
  {
    var n := FrontLength(b);
    var b0: int := b[0];
    if n == 1 then b0 as char
    else
      var b1: int := b[1] - 0x80;
      if n == 2 then ((b0 - 0xC0) * 0x40 + b1) as char
      else
        var b2: int := b[2] - 0x80;
        if n == 3 then ((b0 - 0xE0) * 0x1000 + b1 * 0x40 + b2) as char
        else
          var b3: int := b[3] - 0x80;
          ((b0 - 0xF0) * 0x40000 + b1 * 0x1000 + b2 * 0x40 + b3) as char
  }

  function FromUtf8(b: seq<byte>): Option<string> {
    if b == [] then Some("")
    else if FrontLength(b) == 0 then None
    else
      var rest :- FromUtf8(b[FrontLength(b)..]);
      Some([FrontChar(b)] + rest)
  }

  predicate Valid(b: seq<byte>) {
    FromUtf8(b).Some?
  }

  function Cat(a: Option<string>, b: Option<string>): Option<string> {
    if a.Some? && b.Some? then Some(a.value + b.value) else None
  }

  lemma FrontLocal(a: seq<byte>, u: seq<byte>)
    requires a != [] && (FrontLength(a) > 0 || (u != [] && u[0] < 0x80))
    ensures FrontLength(a + u) == FrontLength(a)
    ensures FrontLength(a) > 0 ==> FrontChar(a + u) == FrontChar(a)
  {
  }

  /** Decoding splits wherever the left part is well formed or the right part starts with an ASCII byte. */
  lemma {:induction false} DecodeSplit(a: seq<byte>, u: seq<byte>)
    requires Valid(a) || (u != [] && u[0] < 0x80)
    ensures FromUtf8(a + u) == Cat(FromUtf8(a), FromUtf8(u))
  {
    if a == [] {
      assert a + u == u;
      assert FromUtf8(u).Some? ==> "" + FromUtf8(u).value == FromUtf8(u).value;
    } else {
      FrontLocal(a, u);
      var n := FrontLength(a);
      if n > 0 {
        assert (a + u)[n..] == a[n..] + u;
        DecodeSplit(a[n..], u);
        if Valid(a) && Valid(u) {
          var c, rest, tail := FrontChar(a), FromUtf8(a[n..]).value, FromUtf8(u).value;
          assert [c] + (rest + tail) == ([c] + rest) + tail;
        }
      }
    }
  }

  predicate IsAscii(s: string) {
    forall i | 0 <= i < |s| :: s[i] as int < 0x80
  }

  /** The bytes of an ASCII text. */
  function Ascii(s: string): (b: seq<byte>)
    requires IsAscii(s)
    ensures |b| == |s|
    ensures forall i | 0 <= i < |s| :: b[i] == s[i] as int
  {
    if s == "" then [] else [s[0] as int] + Ascii(s[1..])
  }

  lemma {:induction false} DecodeAscii(s: string)
    requires IsAscii(s)
    ensures FromUtf8(Ascii(s)) == Some(s)
  {
    if s != "" {
      var b := Ascii(s);
      assert b[0] == s[0] as int && b[1..] == Ascii(s[1..]);
      assert FrontLength(b) == 1 && FrontChar(b) == s[0];
      DecodeAscii(s[1..]);
      assert [s[0]] + s[1..] == s;
    }
  }

  // ----- the encoding -----

  /** The bytes of a character: section 3 of RFC 3629. */
  function EncodeChar(c: char): (b: seq<byte>)
    ensures 1 <= |b| <= 4
  {
    var n := c as int;
    if n < 0x80 then [n]
    else if n < 0x800 then [0xC0 + n / 0x40, 0x80 + n % 0x40]
    else if n < 0x1_0000 then [0xE0 + n / 0x1000, 0x80 + n / 0x40 % 0x40, 0x80 + n % 0x40]
    else [0xF0 + n / 0x4_0000, 0x80 + n / 0x1000 % 0x40, 0x80 + n / 0x40 % 0x40, 0x80 + n % 0x40]
  }

  function EncodeText(s: string): seq<byte> {
    if s == "" then [] else EncodeChar(s[0]) + EncodeText(s[1..])
  }

  lemma TwoParts(n: nat, a: nat, b: nat)
    requires 0x80 <= n < 0x800 && b < 0x40 && n == 0x40 * a + b
    ensures n / 0x40 == a && n % 0x40 == b && 2 <= a < 0x20
  {
    QuotientIs(n, 0x40, a, b);
  }

  lemma ThreeParts(n: nat, a: nat, b: nat, c: nat)
    requires 0x800 <= n < 0x1_0000 && b < 0x40 && c < 0x40 && n == 0x1000 * a + 0x40 * b + c
    ensures n / 0x1000 == a && n / 0x40 % 0x40 == b && n % 0x40 == c && a < 0x10
  {
    QuotientIs(n, 0x40, 0x40 * a + b, c);
    QuotientIs(0x40 * a + b, 0x40, a, b);
    QuotientIs(n, 0x1000, a, 0x40 * b + c);
  }

  lemma FourParts(n: nat, a: nat, b: nat, c: nat, d: nat)
    requires 0x1_0000 <= n < 0x11_0000 && b < 0x40 && c < 0x40 && d < 0x40
    requires n == 0x4_0000 * a + 0x1000 * b + 0x40 * c + d
    ensures n / 0x4_0000 == a && n / 0x1000 % 0x40 == b && n / 0x40 % 0x40 == c && n % 0x40 == d && a < 5
  {
    QuotientIs(n, 0x40, 0x1000 * a + 0x40 * b + c, d);
    QuotientIs(0x1000 * a + 0x40 * b + c, 0x40, 0x40 * a + b, c);
    QuotientIs(n, 0x1000, 0x40 * a + b, 0x40 * c + d);
    QuotientIs(0x40 * a + b, 0x40, a, b);
    QuotientIs(n, 0x4_0000, a, 0x1000 * b + 0x40 * c + d);
  }

  /** The parts of a number add up. */
  lemma PartsAddUp(n: nat)
    ensures n == 0x40 * (n / 0x40) + n % 0x40
    ensures n == 0x1000 * (n / 0x1000) + 0x40 * (n / 0x40 % 0x40) + n % 0x40
    ensures n == 0x4_0000 * (n / 0x4_0000) + 0x1000 * (n / 0x1000 % 0x40) + 0x40 * (n / 0x40 % 0x40) + n % 0x40
  {
    var q := n / 0x40;
    var r := q / 0x40;
    var t := r / 0x40;
    QuotientIs(n, 0x1000, r, 0x40 * (q % 0x40) + n % 0x40);
    QuotientIs(n, 0x4_0000, t, 0x1000 * (r % 0x40) + 0x40 * (q % 0x40) + n % 0x40);
  }

  lemma FrontOfTwo(c: char, a: nat, b: nat)
    requires c as int < 0x800 && 2 <= a < 0x20 && b < 0x40 && c as int == 0x40 * a + b
    ensures var e: seq<byte> := [0xC0 + a, 0x80 + b]; FrontLength(e) == 2 && FrontChar(e) == c
  {
  }

  lemma FrontOfThree(c: char, a: nat, b: nat, d: nat)
    requires 0x800 <= c as int < 0x1_0000 && a < 0x10 && b < 0x40 && d < 0x40
    requires c as int == 0x1000 * a + 0x40 * b + d
    ensures var e: seq<byte> := [0xE0 + a, 0x80 + b, 0x80 + d]; FrontLength(e) == 3 && FrontChar(e) == c
  {
    assert c as int < 0xD800 || 0xE000 <= c as int;
  }

  lemma FrontOfFour(c: char, a: nat, b: nat, d: nat, f: nat)
    requires 0x1_0000 <= c as int && a < 5 && b < 0x40 && d < 0x40 && f < 0x40
    requires c as int == 0x4_0000 * a + 0x1000 * b + 0x40 * d + f
    ensures var e: seq<byte> := [0xF0 + a, 0x80 + b, 0x80 + d, 0x80 + f]; FrontLength(e) == 4 && FrontChar(e) == c
  {
    assert c as int < 0x11_0000;
  }

  lemma FrontOfChar(c: char)
    ensures FrontLength(EncodeChar(c)) == |EncodeChar(c)| && FrontChar(EncodeChar(c)) == c
  {
    var n := c as int;
    if n >= 0x80 {
      hide FrontLength, FrontChar;
      PartsAddUp(n);
      if n < 0x800 {
        TwoParts(n, n / 0x40, n % 0x40);
        FrontOfTwo(c, n / 0x40, n % 0x40);
      } else if n < 0x1_0000 {
        ThreeParts(n, n / 0x1000, n / 0x40 % 0x40, n % 0x40);
        FrontOfThree(c, n / 0x1000, n / 0x40 % 0x40, n % 0x40);
      } else {
        assert n < 0x11_0000;
        FourParts(n, n / 0x4_0000, n / 0x1000 % 0x40, n / 0x40 % 0x40, n % 0x40);
        FrontOfFour(c, n / 0x4_0000, n / 0x1000 % 0x40, n / 0x40 % 0x40, n % 0x40);
      }
    }
  }

  /** Decoding undoes encoding. */
  lemma {:induction false} DecodeEncoded(s: string)
    ensures FromUtf8(EncodeText(s)) == Some(s)
  {
    if s != "" {
      var front, rest := EncodeChar(s[0]), EncodeText(s[1..]);
      FrontOfChar(s[0]);
      FrontLocal(front, rest);
      DecodeEncoded(s[1..]);
      assert (front + rest)[|front|..] == rest;
      assert [s[0]] + s[1..] == s;
    }
  }

  /** What a front of each length is made of. */
  lemma FrontPartsOfOne(b: seq<byte>)
    requires FrontLength(b) == 1
    ensures FrontChar(b) as int == b[0] < 0x80
  {
  }

  lemma FrontPartsOfTwo(b: seq<byte>)
    requires FrontLength(b) == 2
    ensures var n := FrontChar(b) as int;
            var b0: int, b1: int := b[0], b[1];
            0xC0 <= b0 && 0x80 <= b1 < 0xC0 && 0x80 <= n < 0x800 && n == 0x40 * (b0 - 0xC0) + (b1 - 0x80)
  {
  }

  lemma FrontPartsOfThree(b: seq<byte>)
    requires FrontLength(b) == 3
    ensures var n := FrontChar(b) as int;
            var b0: int, b1: int, b2: int := b[0], b[1], b[2];
            && 0xE0 <= b0 < 0xF0 && 0x80 <= b1 < 0xC0 && 0x80 <= b2 < 0xC0 && 0x800 <= n < 0x1_0000
            && n == 0x1000 * (b0 - 0xE0) + 0x40 * (b1 - 0x80) + (b2 - 0x80)
  {
  }

  lemma FrontPartsOfFour(b: seq<byte>)
    requires FrontLength(b) == 4
    ensures var n := FrontChar(b) as int;
            var b0: int, b1: int, b2: int, b3: int := b[0], b[1], b[2], b[3];
            && 0xF0 <= b0 < 0xF5 && 0x80 <= b1 < 0xC0 && 0x80 <= b2 < 0xC0 && 0x80 <= b3 < 0xC0
            && 0x1_0000 <= n < 0x11_0000
            && n == 0x4_0000 * (b0 - 0xF0) + 0x1000 * (b1 - 0x80) + 0x40 * (b2 - 0x80) + (b3 - 0x80)
  {
  }

  lemma FrontLengths(b: seq<byte>)
    ensures FrontLength(b) in {0, 1, 2, 3, 4}
  {
  }

  lemma CharOfFront(b: seq<byte>)
    requires FrontLength(b) > 0
    ensures EncodeChar(FrontChar(b)) == b[..FrontLength(b)]
  {
    hide FrontLength, FrontChar;
    FrontLengths(b);
    var k, n := FrontLength(b), FrontChar(b) as int;
    if k == 1 {
      FrontPartsOfOne(b);
    } else if k == 2 {
      FrontPartsOfTwo(b);
      TwoParts(n, b[0] - 0xC0, b[1] - 0x80);
    } else if k == 3 {
      FrontPartsOfThree(b);
      ThreeParts(n, b[0] - 0xE0, b[1] - 0x80, b[2] - 0x80);
    } else {
      FrontPartsOfFour(b);
      FourParts(n, b[0] - 0xF0, b[1] - 0x80, b[2] - 0x80, b[3] - 0x80);
    }
  }

  lemma DecodeStep(b: seq<byte>)
    requires Valid(b) && b != []
    ensures FrontLength(b) > 0 && Valid(b[FrontLength(b)..])
    ensures FromUtf8(b).value == [FrontChar(b)] + FromUtf8(b[FrontLength(b)..]).value
  {
  }

  lemma EncodeStep(c: char, s: string)
    ensures EncodeText([c] + s) == EncodeChar(c) + EncodeText(s)
  {
    assert ([c] + s)[1..] == s;
  }

  /** Only encodings are decoded: no text has a second form. */
  lemma {:induction false} DecodedIsEncoding(b: seq<byte>)
    requires Valid(b)
    ensures EncodeText(FromUtf8(b).value) == b
  {
    if b != [] {
      DecodeStep(b);
      hide FrontLength, FrontChar, EncodeChar, FromUtf8, EncodeText;
      var n := FrontLength(b);
      CharOfFront(b);
      DecodedIsEncoding(b[n..]);
      EncodeStep(FrontChar(b), FromUtf8(b[n..]).value);
      assert b[..n] + b[n..] == b;
    }
  }
}
