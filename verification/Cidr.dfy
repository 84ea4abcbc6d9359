/** Address blocks in CIDR notation: section 3.1 of RFC 4632.

    The deny list and the admin allow list store a block as a network and a mask and test an address by
    masking it. The theorems say that this is membership in an interval of addresses, for everything the
    two parsers accept.
 */
module Cidr {
  import opened Arith
  import opened Wrappers
  import opened Text

  type u32 = n: nat | n < 0x1_0000_0000

  datatype IpAddr = V4(v: u32) | V6(segments: seq<u16>)

  /** A network and a mask, as both lists store it. */
  datatype Entry = Entry(net: u32, mask: u32)

  // ----- 32-bit words -----

  function Pow2(k: nat): (p: nat)
    ensures p >= 1
  {
    if k == 0 then 1 else 2 * Pow2(k - 1)
  }

  /** Bitwise "and" of the low n bits of two numbers. */
  function And(x: nat, y: nat, n: nat): nat {
    if n == 0 then 0 else 2 * And(x / 2, y / 2, n - 1) + (if x % 2 == 1 && y % 2 == 1 then 1 else 0)
  }

  /** A left shift of a 32-bit word drops the bits that do not fit. */
  function ShiftLeft(x: u32, k: nat): u32 {
    x * Pow2(k) % 0x1_0000_0000
  }

  function Mask(prefixLen: nat): u32
    requires prefixLen <= 32
  {
    if prefixLen == 0 then 0 else ShiftLeft(0xFFFF_FFFF, 32 - prefixLen)
  }

  function And32(x: u32, y: u32): (r: u32)
  {
    AndBound(x, y, 32);
    Pow2Of32();
    And(x, y, 32)
  }

  lemma {:induction false} AndBound(x: nat, y: nat, n: nat)
    ensures And(x, y, n) < Pow2(n)
  {
    if n > 0 {
      AndBound(x / 2, y / 2, n - 1);
    }
  }

  lemma {:induction false} Pow2Adds(a: nat, b: nat)
    ensures Pow2(a + b) == Pow2(a) * Pow2(b)
  {
    if a > 0 {
      Pow2Adds(a - 1, b);
      assert Pow2(a) * Pow2(b) == 2 * (Pow2(a - 1) * Pow2(b));
    }
  }

  lemma Pow2Of32()
    ensures Pow2(32) == 0x1_0000_0000
  {
    assert Pow2(8) == 256;
    Pow2Adds(8, 8);
    Pow2Adds(16, 16);
  }

  lemma {:induction false} Pow2Grows(a: nat, b: nat)
    requires a <= b
    ensures Pow2(a) <= Pow2(b)
  {
    if a < b {
      Pow2Grows(a, b - 1);
    }
  }

  // ----- masking clears the low bits -----

  lemma {:induction false} AndOnes(x: nat, n: nat)
    requires x < Pow2(n)
    ensures And(x, Pow2(n) - 1, n) == x
  {
    if n > 0 {
      AndOnes(x / 2, n - 1);
      assert (Pow2(n) - 1) / 2 == Pow2(n - 1) - 1;
    }
  }

  lemma HalvesOfRemainder(x: nat, p: nat)
    requires p >= 1
    ensures x % (2 * p) == 2 * (x / 2 % p) + x % 2
  {
    var q, r := x / 2 / p, x / 2 % p;
    assert x == 2 * (p * q + r) + x % 2;
    assert x == (2 * p) * q + (2 * r + x % 2);
    QuotientIs(x, 2 * p, q, 2 * r + x % 2);
  }

  lemma AndEven(x: nat, m: nat, n: nat)
    requires n > 0
    ensures And(x, 2 * m, n) == 2 * And(x / 2, m, n - 1)
  {
    assert 2 * m / 2 == m && 2 * m % 2 == 0;
  }

  lemma Pow2Step(n: nat)
    requires n > 0
    ensures Pow2(n) == 2 * Pow2(n - 1)
  {
  }

  lemma {:induction false} AndHighOnes(x: nat, n: nat, k: nat)
    requires k <= n && x < Pow2(n)
    ensures Pow2(k) <= Pow2(n)
    ensures And(x, Pow2(n) - Pow2(k), n) == x - x % Pow2(k)
    decreases n, 1
  {
    Pow2Grows(k, n);
    if k == 0 {
      AndOnes(x, n);
    } else {
      AndHighOnesStep(x, n, k);
    }
  }

  lemma {:induction false} AndHighOnesStep(x: nat, n: nat, k: nat)
    requires 0 < k <= n && x < Pow2(n)
    ensures Pow2(k) <= Pow2(n)
    ensures And(x, Pow2(n) - Pow2(k), n) == x - x % Pow2(k)
    decreases n, 0
  {
    hide Pow2, And;
    var a, b := Pow2(n - 1), Pow2(k - 1);
    Pow2Step(n);
    Pow2Step(k);
    AndHighOnes(x / 2, n - 1, k - 1);
    HalvesOfRemainder(x, b);
    AndEven(x, a - b, n);
  }

  function BlockSize(prefixLen: nat): (size: nat)
    requires prefixLen <= 32
    ensures size >= 1
  {
    Pow2(32 - prefixLen)
  }

  lemma MaskIsHighOnes(prefixLen: nat)
    requires prefixLen <= 32
    ensures BlockSize(prefixLen) <= 0x1_0000_0000
    ensures Mask(prefixLen) == 0x1_0000_0000 - BlockSize(prefixLen)
  {
    Pow2Of32();
    Pow2Grows(32 - prefixLen, 32);
    if prefixLen > 0 {
      var k := 32 - prefixLen;
      Pow2Grows(k, 31);
      Pow2Grows(31, 32);
      var p := Pow2(k);
      assert 0xFFFF_FFFF * p == 0x1_0000_0000 * (p - 1) + (0x1_0000_0000 - p);
      QuotientIs(0xFFFF_FFFF * p, 0x1_0000_0000, p - 1, 0x1_0000_0000 - p);
    }
  }

  /** Masking an address rounds it down to a multiple of the block size. */
  lemma MaskRoundsDown(ip: u32, prefixLen: nat)
    requires prefixLen <= 32
    ensures And32(ip, Mask(prefixLen)) == ip - ip % BlockSize(prefixLen)
  {
    MaskIsHighOnes(prefixLen);
    Pow2Of32();
    AndHighOnes(ip, 32, 32 - prefixLen);
  }

  // ----- blocks -----

  /** An entry that stands for the block of addresses with a prefix of some length. */
  ghost predicate IsBlock(e: Entry, prefixLen: nat) {
    prefixLen <= 32 && e.mask == Mask(prefixLen) && e.net % BlockSize(prefixLen) == 0
  }

  ghost predicate InBlock(e: Entry, prefixLen: nat, ip: u32)
    requires prefixLen <= 32
  {
    e.net <= ip < e.net + BlockSize(prefixLen)
  }

  predicate Covers(e: Entry, ip: u32) {
    And32(ip, e.mask) == e.net
  }

  lemma AlignedIff(size: nat, net: nat, ip: nat)
    requires size >= 1 && net % size == 0
    ensures net <= ip < net + size <==> ip / size == net / size
    ensures ip - ip % size == net <==> ip / size == net / size
  {
    var q := ip / size - net / size;
    assert ip - net == size * q + ip % size by {
      assert size * q == size * (ip / size) - size * (net / size);
    }
    MulAtLeast(size, q);
  }

  /** The mask test is membership in the interval of the block. */
  lemma CoversIff(e: Entry, prefixLen: nat, ip: u32)
    requires IsBlock(e, prefixLen)
    ensures Covers(e, ip) <==> InBlock(e, prefixLen, ip)
  {
    MaskRoundsDown(ip, prefixLen);
    AlignedIff(BlockSize(prefixLen), e.net, ip);
  }

  lemma DivideTwice(x: nat, a: nat, b: nat)
    requires a >= 1 && b >= 1
    ensures a * b >= 1 && x / (a * b) == x / a / b
  {
    var q, r := x / a / b, x / a % b;
    assert x / a == b * q + r;
    MulAtLeast(a, b);
    assert a * (b * q + r) == (a * b) * q + a * r;
    assert a * r <= a * (b - 1) by {
      MulAtLeast(a, b - 1 - r);
      assert a * (b - 1 - r) == a * (b - 1) - a * r;
    }
    assert a * (b - 1) == a * b - a;
    QuotientIs(x, a * b, q, a * r + x % a);
  }

  /** Of two blocks, the one with the longer prefix lies inside the other or apart from it. */
  lemma NestedOrDisjoint(a: Entry, p: nat, b: Entry, q: nat, ip: u32)
    requires IsBlock(a, p) && IsBlock(b, q) && p <= q
    requires InBlock(a, p, ip) && InBlock(b, q, ip)
    ensures forall other: u32 | InBlock(b, q, other) :: InBlock(a, p, other)
  {
    hide Pow2;
    var big, small, k := BlockSize(p), BlockSize(q), Pow2(q - p);
    Pow2Adds(32 - q, q - p);
    assert big == small * k;
    AlignedIff(big, a.net, ip);
    AlignedIff(small, b.net, ip);
    DivideTwice(ip, small, k);
    forall other: u32 | InBlock(b, q, other)
      ensures InBlock(a, p, other)
    {
      AlignedIff(small, b.net, other);
      DivideTwice(other, small, k);
      AlignedIff(big, a.net, other);
    }
  }

  // ----- the two lists -----

  /** The deny list also reads the IPv4 address out of IPv6 forms that carry one. */
  function ToIpv4(ip: IpAddr): Option<u32> {
    match ip
    case V4(v) => Some(v)
    case V6(segs) =>
      if |segs| == 8 && segs[0] == segs[1] == segs[2] == segs[3] == segs[4] == 0 && (segs[5] == 0 || segs[5] == 0xFFFF)
      then
        var high: int, low: int := segs[6], segs[7];
        Some(0x1_0000 * high + low)
      else None
  }

  predicate IsDenied(entries: seq<Entry>, ip: IpAddr) {
    match ToIpv4(ip)
    case None => false
    case Some(v) => exists i | 0 <= i < |entries| :: Covers(entries[i], v)
  }

  predicate IpInCidr(ip: IpAddr, cidrs: seq<Entry>) {
    || cidrs == []
    || match ip
       case V4(v) => exists i | 0 <= i < |cidrs| :: Covers(cidrs[i], v)
       case V6(_) => false
  }

  // ----- parsing -----

  function ParseOctet(s: string): Option<nat> {
    if !(1 <= |s| <= 3) || (|s| > 1 && s[0] == '0') then None
    else
      var v :- Digits(s);
      if v < 256 then Some(v) else None
  }

  /** The pieces between occurrences of a character; there is always at least one. */
  function Pieces(s: string, c: char): (pieces: seq<string>)
    ensures |pieces| >= 1
    decreases |s|
  {
    match Find(s, c)
    case None => [s]
    case Some(i) => [s[..i]] + Pieces(s[i + 1..], c)
  }

  function ParseIpv4(s: string): Option<u32> {
    var parts := Pieces(s, '.');
    if |parts| != 4 then None
    else
      var a :- ParseOctet(parts[0]);
      var b :- ParseOctet(parts[1]);
      var c :- ParseOctet(parts[2]);
      var d :- ParseOctet(parts[3]);
      FromOctets(a, b, c, d)
  }

  function FromOctets(a: nat, b: nat, c: nat, d: nat): Option<u32> {
    var v := 0x100_0000 * a + 0x1_0000 * b + 0x100 * c + d;
    if v < 0x1_0000_0000 then Some(v) else None
  }

  function ParsePrefix(s: string): Option<nat> {
    var n :- ParseUnsigned(s, 0x1_0000_0000);
    if n <= 32 then Some(n) else None
  }

  function Block(ip: u32, prefixLen: nat): Entry
    requires prefixLen <= 32
  {
    Entry(And32(ip, Mask(prefixLen)), Mask(prefixLen))
  }

  /** The parser of the deny list. It trims the address. */
  function ParseDenyCidr(s: string): Option<Entry> {
    var slash :- Find(s, '/');
    var prefixLen :- ParsePrefix(s[slash + 1..]);
    var ip :- ParseIpv4(Trim(s[..slash]));
    Built(ip, prefixLen)
  }

  /** The parser of the admin allow list. It trims the whole text. */
  function ParseAdminCidr(s: string): Option<Entry> {
    var t := Trim(s);
    var slash :- Find(t, '/');
    var prefixLen :- ParsePrefix(t[slash + 1..]);
    var ip :- ParseIpv4(t[..slash]);
    Built(ip, prefixLen)
  }

  function Built(ip: u32, prefixLen: nat): Option<Entry> {
    if prefixLen <= 32 then Some(Block(ip, prefixLen)) else None
  }

  /** What a block is made from is in it, and it is a block. */
  lemma BlockIsBlock(ip: u32, prefixLen: nat)
    requires prefixLen <= 32
    ensures IsBlock(Block(ip, prefixLen), prefixLen) && InBlock(Block(ip, prefixLen), prefixLen, ip)
  {
    hide Mask, And32, BlockSize;
    MaskRoundsDown(ip, prefixLen);
    RoundedDown(ip, BlockSize(prefixLen));
  }

  lemma RoundedDown(x: nat, size: nat)
    requires size >= 1
    ensures (x - x % size) % size == 0 && x - x % size <= x < x - x % size + size
  {
    QuotientIs(x - x % size, size, x / size, 0);
  }

  lemma ParsedIsBlock(s: string)
    ensures ParseDenyCidr(s).Some? ==> exists p :: IsBlock(ParseDenyCidr(s).value, p)
    ensures ParseAdminCidr(s).Some? ==> exists p :: IsBlock(ParseAdminCidr(s).value, p)
  {
    hide Block, Trim, ParseIpv4, Find, IsBlock;
    if ParseDenyCidr(s).Some? {
      var slash := Find(s, '/').value;
      BlockIsBlock(ParseIpv4(Trim(s[..slash])).value, ParsePrefix(s[slash + 1..]).value);
    }
    if ParseAdminCidr(s).Some? {
      var t := Trim(s);
      var slash := Find(t, '/').value;
      BlockIsBlock(ParseIpv4(t[..slash]).value, ParsePrefix(t[slash + 1..]).value);
    }
  }

  // ----- what the parsers accept -----

  function FormatIpv4(a: nat, b: nat, c: nat, d: nat): string {
    Decimal(a) + "." + Decimal(b) + "." + Decimal(c) + "." + Decimal(d)
  }

  function FormatCidr(a: nat, b: nat, c: nat, d: nat, prefixLen: nat): string {
    FormatIpv4(a, b, c, d) + "/" + Decimal(prefixLen)
  }

  lemma DecimalPlain(n: nat)
    ensures '.' !in Decimal(n) && '/' !in Decimal(n) && Decimal(n) != ""
    ensures !White(Decimal(n)[0]) && !White(Decimal(n)[|Decimal(n)| - 1])
    ensures Decimal(n)[0] != '+'
  {
    DecimalChars(n);
    DecimalDigits(n);
    assert Digit(Decimal(n)[0]) && Digit(Decimal(n)[|Decimal(n)| - 1]);
  }

  lemma {:induction false} DecimalLeads(n: nat)
    ensures n > 0 ==> Decimal(n)[0] != '0'
    ensures n < 10 ==> |Decimal(n)| == 1
    ensures n < 1000 ==> |Decimal(n)| <= 3
  {
    if n >= 10 {
      DecimalLeads(n / 10);
      if n >= 100 {
        DecimalLeads(n / 100);
        assert n / 10 / 10 == n / 100;
      }
    }
  }

  lemma ParseOctetOf(n: nat)
    requires n < 256
    ensures ParseOctet(Decimal(n)) == Some(n)
  {
    DecimalDigits(n);
    DecimalLeads(n);
  }

  lemma {:induction false} PiecesFirst(s: string, c: char, rest: string)
    requires c !in s
    ensures Pieces(s + [c] + rest, c) == [s] + Pieces(rest, c)
  {
    FindIs(s + [c] + rest, c, |s|);
    assert (s + [c] + rest)[..|s|] == s && (s + [c] + rest)[|s| + 1..] == rest;
  }

  lemma ParseIpv4Of(a: nat, b: nat, c: nat, d: nat)
    requires a < 256 && b < 256 && c < 256 && d < 256
    ensures ParseIpv4(FormatIpv4(a, b, c, d)) == FromOctets(a, b, c, d)
    ensures FromOctets(a, b, c, d).Some?
  {
    hide Decimal, ParseOctet, Pieces;
    DecimalPlain(a);
    DecimalPlain(b);
    DecimalPlain(c);
    DecimalPlain(d);
    var cd := Decimal(c) + "." + Decimal(d);
    var bcd := Decimal(b) + "." + cd;
    assert FormatIpv4(a, b, c, d) == Decimal(a) + "." + bcd;
    PiecesFirst(Decimal(a), '.', bcd);
    PiecesFirst(Decimal(b), '.', cd);
    PiecesFirst(Decimal(c), '.', Decimal(d));
    PiecesOne(Decimal(d), '.');
    assert Pieces(FormatIpv4(a, b, c, d), '.') == [Decimal(a), Decimal(b), Decimal(c), Decimal(d)];
    ParseOctetOf(a);
    ParseOctetOf(b);
    ParseOctetOf(c);
    ParseOctetOf(d);
  }

  lemma PiecesOne(s: string, c: char)
    requires c !in s
    ensures Pieces(s, c) == [s]
  {
    FindNone(s, c);
  }

  /** Both parsers read an address and a prefix length in the usual notation as the block of that length
      around the address, whether or not the address is the first of its block. */
  lemma ParseFormatted(a: nat, b: nat, c: nat, d: nat, prefixLen: nat)
    requires a < 256 && b < 256 && c < 256 && d < 256 && prefixLen <= 32
    ensures FromOctets(a, b, c, d).Some?
    ensures ParseDenyCidr(FormatCidr(a, b, c, d, prefixLen)) == Some(Block(FromOctets(a, b, c, d).value, prefixLen))
    ensures ParseAdminCidr(FormatCidr(a, b, c, d, prefixLen)) == Some(Block(FromOctets(a, b, c, d).value, prefixLen))
  {
    hide Decimal, ParseIpv4, Block, Trim, FromOctets, FormatIpv4;
    var s, t, n := FormatCidr(a, b, c, d, prefixLen), FormatIpv4(a, b, c, d), Decimal(prefixLen);
    FormattedIsPlain(a, b, c, d);
    DecimalPlain(prefixLen);
    FindIs(s, '/', |t|);
    assert s[..|t|] == t && s[|t| + 1..] == n;
    assert s[0] == t[0] && s[|s| - 1] == n[|n| - 1];
    TrimNothing(t);
    TrimNothing(s);
    ParseIpv4Of(a, b, c, d);
    DecimalDigits(prefixLen);
  }

  lemma FormattedIsPlain(a: nat, b: nat, c: nat, d: nat)
    ensures var t := FormatIpv4(a, b, c, d);
            '/' !in t && t != "" && !White(t[0]) && !White(t[|t| - 1])
  {
    hide Decimal;
    DecimalPlain(a);
    DecimalPlain(b);
    DecimalPlain(c);
    DecimalPlain(d);
  }

  lemma {:induction false} PiecesEnds(s: string, c: char)
    ensures Pieces(s, c)[0] <= s
    ensures var last := Pieces(s, c)[|Pieces(s, c)| - 1];
            |last| <= |s| && last == s[|s| - |last|..]
    decreases |s|
  {
    if Find(s, c).Some? {
      PiecesEnds(s[Find(s, c).value + 1..], c);
    }
  }

  lemma {:induction false} DigitsOnly(s: string)
    requires Digits(s).Some?
    ensures s != "" && forall i | 0 <= i < |s| :: Digit(s[i])
  {
    if |s| > 1 {
      DigitsOnly(s[..|s| - 1]);
      assert forall i | 0 <= i < |s| - 1 :: s[i] == s[..|s| - 1][i];
    }
  }

  lemma AddressIsTrimmed(s: string)
    requires ParseIpv4(s).Some?
    ensures Trim(s) == s && s != "" && Digit(s[0])
  {
    var parts := Pieces(s, '.');
    PiecesEnds(s, '.');
    DigitsOnly(parts[0]);
    DigitsOnly(parts[3]);
    assert Digit(parts[0][0]) && parts[0][0] == s[0];
    assert Digit(parts[3][|parts[3]| - 1]) && parts[3][|parts[3]| - 1] == s[|s| - 1];
    TrimNothing(s);
  }

  /** What the admin parser accepts, the deny list parser reads the same on a trimmed line. */
  lemma ParsersAgree(s: string)
    requires ParseAdminCidr(s).Some?
    ensures ParseDenyCidr(Trim(s)) == ParseAdminCidr(s)
  {
    hide Trim, ParseIpv4, Block;
    var t := Trim(s);
    AddressIsTrimmed(t[..Find(t, '/').value]);
  }

  /** The four numbers of an address in the usual notation. */
  predicate HasOctets(v: u32, a: nat, b: nat, c: nat, d: nat) {
    v / 0x100_0000 == a && v / 0x1_0000 % 0x100 == b && v / 0x100 % 0x100 == c && v % 0x100 == d
  }

  lemma OctetsAddUp(v: u32)
    ensures v == 0x100_0000 * (v / 0x100_0000) + 0x1_0000 * (v / 0x1_0000 % 0x100)
                 + 0x100 * (v / 0x100 % 0x100) + v % 0x100
  {
    DivideTwice(v, 0x100, 0x100);
    DivideTwice(v, 0x1_0000, 0x100);
  }

  lemma OctetsBack(v: u32, a: nat, b: nat, c: nat, d: nat)
    requires a < 256 && b < 256 && c < 256 && d < 256
    ensures v == 0x100_0000 * a + 0x1_0000 * b + 0x100 * c + d <==> HasOctets(v, a, b, c, d)
  {
    OctetsAddUp(v);
    if v == 0x100_0000 * a + 0x1_0000 * b + 0x100 * c + d {
      QuotientIs(v, 0x100, 0x1_0000 * a + 0x100 * b + c, d);
      QuotientIs(v, 0x1_0000, 0x100 * a + b, 0x100 * c + d);
      QuotientIs(v, 0x100_0000, a, 0x1_0000 * b + 0x100 * c + d);
      QuotientIs(0x1_0000 * a + 0x100 * b + c, 0x100, 0x100 * a + b, c);
      QuotientIs(0x100 * a + b, 0x100, a, b);
    }
  }

  lemma OctetsParsed(v: u32, a: nat, b: nat, c: nat, d: nat)
    requires HasOctets(v, a, b, c, d)
    ensures a < 256 && b < 256 && c < 256 && d < 256 && FromOctets(a, b, c, d) == Some(v)
  {
    OctetsAddUp(v);
  }

  /** Both parsers read an address and a prefix length as a block that holds exactly the addresses that agree
      with the written one after division by the block size. */
  lemma FormattedCovers(a: nat, b: nat, c: nat, d: nat, prefixLen: nat, addr: u32, v: u32)
    requires HasOctets(addr, a, b, c, d) && prefixLen <= 32
    ensures ParseDenyCidr(FormatCidr(a, b, c, d, prefixLen)).Some?
    ensures ParseAdminCidr(FormatCidr(a, b, c, d, prefixLen)) == ParseDenyCidr(FormatCidr(a, b, c, d, prefixLen))
    ensures Covers(ParseDenyCidr(FormatCidr(a, b, c, d, prefixLen)).value, v)
       <==> v / Pow2(32 - prefixLen) == addr / Pow2(32 - prefixLen)
  {
    hide Pow2, Mask, And32, FormatCidr, ParseDenyCidr, ParseAdminCidr, FromOctets, HasOctets;
    OctetsParsed(addr, a, b, c, d);
    ParseFormatted(a, b, c, d, prefixLen);
    var e, size := Block(addr, prefixLen), Pow2(32 - prefixLen);
    BlockIsBlock(addr, prefixLen);
    CoversIff(e, prefixLen, v);
    AlignedIff(size, e.net, v);
    AlignedIff(size, e.net, addr);
  }

  lemma SizesOfOctets()
    ensures Pow2(32 - 8) == 0x100_0000 && Pow2(32 - 16) == 0x1_0000 && Pow2(32 - 24) == 0x100 && Pow2(32 - 32) == 1
  {
    assert Pow2(8) == 256;
    Pow2Adds(8, 8);
    Pow2Adds(16, 8);
  }

  /** With whole octets, the leading ones decide. */
  lemma LeadingOctetsDecide(a: nat, b: nat, c: nat, d: nat, addr: u32, v: u32)
    requires HasOctets(addr, a, b, c, d)
    ensures forall p | p in {8, 16, 24, 32} :: ParseDenyCidr(FormatCidr(a, b, c, d, p)).Some?
    ensures Covers(ParseDenyCidr(FormatCidr(a, b, c, d, 8)).value, v) <==> v / 0x100_0000 == a
    ensures Covers(ParseDenyCidr(FormatCidr(a, b, c, d, 16)).value, v)
       <==> v / 0x100_0000 == a && v / 0x1_0000 % 0x100 == b
    ensures Covers(ParseDenyCidr(FormatCidr(a, b, c, d, 24)).value, v)
       <==> v / 0x100_0000 == a && v / 0x1_0000 % 0x100 == b && v / 0x100 % 0x100 == c
    ensures Covers(ParseDenyCidr(FormatCidr(a, b, c, d, 32)).value, v) <==> v == addr
  {
    hide Pow2, FormatCidr, ParseDenyCidr, ParseAdminCidr, Covers;
    SizesOfOctets();
    FormattedCovers(a, b, c, d, 8, addr, v);
    FormattedCovers(a, b, c, d, 16, addr, v);
    FormattedCovers(a, b, c, d, 24, addr, v);
    FormattedCovers(a, b, c, d, 32, addr, v);
    LeadingOctets(v, addr);
  }

  lemma LeadingOctets(v: u32, w: u32)
    ensures v / 0x1_0000 == w / 0x1_0000
       <==> v / 0x100_0000 == w / 0x100_0000 && v / 0x1_0000 % 0x100 == w / 0x1_0000 % 0x100
    ensures v / 0x100 == w / 0x100 <==> v / 0x1_0000 == w / 0x1_0000 && v / 0x100 % 0x100 == w / 0x100 % 0x100
    ensures v / 1 == w / 1 <==> v == w
  {
    DivideTwice(v, 0x100, 0x100);
    DivideTwice(w, 0x100, 0x100);
    DivideTwice(v, 0x1_0000, 0x100);
    DivideTwice(w, 0x1_0000, 0x100);
  }

  // ----- which texts are addresses -----

  lemma PiecesHead(s: string, c: char) returns (rest: string)
    ensures |Pieces(s, c)| == 1 ==> s == Pieces(s, c)[0]
    ensures |Pieces(s, c)| > 1 ==> s == Pieces(s, c)[0] + [c] + rest && Pieces(rest, c) == Pieces(s, c)[1..]
  {
    rest := "";
    if Find(s, c).Some? {
      var i := Find(s, c).value;
      rest := s[i + 1..];
      assert s == s[..i] + [s[i]] + s[i + 1..];
    }
  }

  lemma OctetIsDecimal(s: string)
    requires ParseOctet(s).Some?
    ensures Decimal(ParseOctet(s).value) == s && ParseOctet(s).value < 256
  {
    DigitsCanonical(s);
  }

  /** Exactly the usual notation of an address is read as that address: four numbers below 256 without
      leading zeros, with dots between them. */
  lemma ParseIpv4Iff(s: string, v: u32)
    ensures ParseIpv4(s) == Some(v)
       <==> s == FormatIpv4(v / 0x100_0000, v / 0x1_0000 % 0x100, v / 0x100 % 0x100, v % 0x100)
  {
    hide Decimal, ParseOctet, Pieces, FromOctets;
    var a, b, c, d := v / 0x100_0000, v / 0x1_0000 % 0x100, v / 0x100 % 0x100, v % 0x100;
    OctetsParsed(v, a, b, c, d);
    ParseIpv4Of(a, b, c, d);
    if ParseIpv4(s) == Some(v) {
      ParsedIsFormatted(s, v);
    }
  }

  lemma ParsedIsFormatted(s: string, v: u32)
    requires ParseIpv4(s) == Some(v)
    ensures s == FormatIpv4(v / 0x100_0000, v / 0x1_0000 % 0x100, v / 0x100 % 0x100, v % 0x100)
  {
    hide Decimal, ParseOctet, Pieces;
    var parts := Pieces(s, '.');
    OctetIsDecimal(parts[0]);
    OctetIsDecimal(parts[1]);
    OctetIsDecimal(parts[2]);
    OctetIsDecimal(parts[3]);
    var a, b, c, d := ParseOctet(parts[0]).value, ParseOctet(parts[1]).value, ParseOctet(parts[2]).value,
                      ParseOctet(parts[3]).value;
    OctetsBack(v, a, b, c, d);
    var r1 := PiecesHead(s, '.');
    var r2 := PiecesHead(r1, '.');
    var r3 := PiecesHead(r2, '.');
    var r4 := PiecesHead(r3, '.');
    assert s == parts[0] + "." + (parts[1] + "." + (parts[2] + "." + parts[3]));
    assert s == parts[0] + "." + parts[1] + "." + parts[2] + "." + parts[3];
  }

  lemma PrefixIs(n: nat)
    ensures ParsePrefix(Decimal(n)) == if n <= 32 then Some(n) else None
    ensures ParsePrefix("+" + Decimal(n)) == ParsePrefix(Decimal(n))
  {
    DecimalDigits(n);
    DecimalPlain(n);
    assert ("+" + Decimal(n))[1..] == Decimal(n);
  }

  // ----- the deny list file -----

  /** A line that stands for a block. */
  function EntryOf(line: string): Option<Entry> {
    var t := Trim(line);
    if t == "" || t[0] == '#' then None else ParseDenyCidr(t)
  }

  lemma CommentIsNoBlock(t: string)
    requires t != "" && t[0] == '#'
    ensures ParseDenyCidr(t) == None
  {
    hide ParseIpv4, ParsePrefix, Trim, TrimEnd, FormatIpv4;
    if ParseDenyCidr(t).Some? {
      var slash := Find(t, '/').value;
      var s := t[..slash];
      TrimKeeps("", "#", s[1..]);
      assert s == "" + ("#" + s[1..]);
      assert TrimStart("") == "";
      assert Trim(s)[0] == '#';
      AddressIsTrimmed(Trim(s));
    }
  }

  /** The check for comments and blank lines only spares a warning: neither reads as a block. */
  lemma EveryLineIsRead(line: string)
    ensures EntryOf(line) == ParseDenyCidr(Trim(line))
  {
    hide ParseDenyCidr, Trim;
    if Trim(line) == "" {
      BlankIsNoBlock();
    } else if Trim(line)[0] == '#' {
      CommentIsNoBlock(Trim(line));
    }
  }

  lemma BlankIsNoBlock()
    ensures ParseDenyCidr("") == None
  {
  }

  function EntriesOf(lines: seq<string>): seq<Entry> {
    if lines == [] then []
    else
      var n := |lines| - 1;
      match EntryOf(lines[n])
      case Some(e) => EntriesOf(lines[..n]) + [e]
      case None => EntriesOf(lines[..n])
  }

  /** The list that a file stands for; no text means that the file could not be read. */
  function ListOf(text: Option<string>): seq<Entry> {
    if text.Some? then EntriesOf(Pieces(text.value, '\n')) else []
  }

  method ParseDenylistFile(text: Option<string>) returns (entries: seq<Entry>)
    ensures entries == ListOf(text)
  {
    hide ParseDenyCidr, Trim;
    entries := [];
    if text.None? {
      return;
    }
    var lines := Pieces(text.value, '\n');
    for lineno := 0 to |lines|
      invariant entries == EntriesOf(lines[..lineno])
    {
      assert lines[..lineno + 1][..lineno] == lines[..lineno];
      var line := Trim(lines[lineno]);
      if line == "" || line[0] == '#' {
        continue;
      }
      var parsed := ParseDenyCidr(line);
      if parsed.Some? {
        entries := entries + [parsed.value];
      }
    }
    assert lines[..|lines|] == lines;
  }

  class IpDenyList {
    const configured: bool
    var entries: seq<Entry>

    constructor Disabled()
      ensures !configured && entries == []
    {
      configured := false;
      entries := [];
    }

    constructor FromFile(text: Option<string>)
      ensures configured && entries == ListOf(text)
    {
      configured := true;
      entries := [];
      new;
      entries := ParseDenylistFile(text);
    }

    /** A file that cannot be read leaves an empty list; a list without a file stays as it is. */
    method Reload(text: Option<string>)
      modifies this
      ensures entries == if configured then ListOf(text) else old(entries)
    {
      if !configured {
        return;
      }
      entries := ParseDenylistFile(text);
    }

    method Denied(ip: IpAddr) returns (r: bool)
      ensures r == IsDenied(entries, ip)
    {
      var v := ToIpv4(ip);
      if v.None? {
        return false;
      }
      for i := 0 to |entries|
        invariant forall j | 0 <= j < i :: !Covers(entries[j], v.value)
      {
        if Covers(entries[i], v.value) {
          return true;
        }
      }
      return false;
    }
  }

  lemma {:induction false} EntriesFromLines(lines: seq<string>, e: Entry)
    ensures e in EntriesOf(lines) <==> exists i | 0 <= i < |lines| :: EntryOf(lines[i]) == Some(e)
  {
    hide EntryOf;
    if lines != [] {
      var n := |lines| - 1;
      var front := lines[..n];
      EntriesFromLines(front, e);
      forall i | 0 <= i < n
        ensures front[i] == lines[i]
      {
      }
      if e in EntriesOf(front) {
        var i :| 0 <= i < n && EntryOf(front[i]) == Some(e);
        assert EntryOf(lines[i]) == Some(e);
      }
      if i :| 0 <= i < |lines| && EntryOf(lines[i]) == Some(e) {
        assert i < n ==> EntryOf(front[i]) == Some(e);
      }
    }
  }

  lemma {:induction false} PiecesOfLines(lines: seq<string>, last: string)
    requires (forall i | 0 <= i < |lines| :: '\n' !in lines[i]) && '\n' !in last
    ensures Pieces(Joined(lines) + last, '\n') == lines + [last]
  {
    hide Pieces;
    if lines == [] {
      PiecesOne(last, '\n');
      assert "" + last == last;
    } else {
      PiecesFirst(lines[0], '\n', Joined(lines[1..]) + last);
      assert Joined(lines) + last == lines[0] + ['\n'] + (Joined(lines[1..]) + last);
      PiecesOfLines(lines[1..], last);
      assert lines + [last] == [lines[0]] + (lines[1..] + [last]);
    }
  }

  /** A file stands for its lines, whether or not the last one is ended. */
  lemma FileIsItsLines(lines: seq<string>, last: string)
    requires (forall i | 0 <= i < |lines| :: '\n' !in lines[i]) && '\n' !in last
    ensures ListOf(Some(Joined(lines) + last)) == EntriesOf(lines + [last])
    ensures ListOf(Some(Joined(lines))) == EntriesOf(lines)
    ensures ListOf(None) == []
  {
    hide Pieces, EntryOf, EntriesOf;
    PiecesOfLines(lines, last);
    PiecesOfLines(lines, "");
    assert Joined(lines) + "" == Joined(lines);
    EmptyLastLine(lines);
  }

  lemma EmptyLastLine(lines: seq<string>)
    ensures EntriesOf(lines + [""]) == EntriesOf(lines)
  {
    hide EntryOf;
    EmptyIsNoBlock();
    assert (lines + [""])[..|lines|] == lines;
  }

  lemma EmptyIsNoBlock()
    ensures EntryOf("") == None
  {
    assert TrimStart("") == "" && TrimEnd("") == "";
  }

  /** An address is denied exactly when it stands for an IPv4 address and some line of the file stands for
      a block that holds it. */
  lemma DeniedIff(lines: seq<string>, ip: IpAddr)
    ensures IsDenied(EntriesOf(lines), ip)
       <==> exists i, p, v: u32 | 0 <= i < |lines| && 0 <= p <= 32 && ToIpv4(ip) == Some(v) ::
              EntryOf(lines[i]).Some? && IsBlock(EntryOf(lines[i]).value, p) && InBlock(EntryOf(lines[i]).value, p, v)
  {
    hide EntryOf, IsBlock, InBlock, Covers, EntriesOf;
    var entries := EntriesOf(lines);
    if ToIpv4(ip).Some? {
      var v := ToIpv4(ip).value;
      if j :| 0 <= j < |entries| && Covers(entries[j], v) {
        EntriesFromLines(lines, entries[j]);
        var i :| 0 <= i < |lines| && EntryOf(lines[i]) == Some(entries[j]);
        var p := PrefixOf(lines[i]);
        CoversIff(entries[j], p, v);
      }
      forall i, p | 0 <= i < |lines| && 0 <= p <= 32 &&
        EntryOf(lines[i]).Some? && IsBlock(EntryOf(lines[i]).value, p) && InBlock(EntryOf(lines[i]).value, p, v)
        ensures IsDenied(entries, ip)
      {
        var e := EntryOf(lines[i]).value;
        EntriesFromLines(lines, e);
        CoversIff(e, p, v);
      }
    }
  }

  lemma PrefixOf(line: string) returns (p: nat)
    requires EntryOf(line).Some?
    ensures p <= 32 && IsBlock(EntryOf(line).value, p)
  {
    hide ParseDenyCidr, Trim, IsBlock;
    ParsedIsBlock(Trim(line));
    p :| IsBlock(EntryOf(line).value, p);
    BlockPrefix(EntryOf(line).value, p);
  }

  lemma BlockPrefix(e: Entry, p: nat)
    requires IsBlock(e, p)
    ensures p <= 32
  {
  }

  /** The IPv6 forms of an IPv4 address, mapped and compatible, are denied exactly when it is. */
  lemma CarriedAddressDenied(entries: seq<Entry>, addr: u32, a: nat, b: nat, c: nat, d: nat, sixth: u16)
    requires HasOctets(addr, a, b, c, d) && (sixth == 0 || sixth == 0xFFFF)
    ensures a < 256 && b < 256 && c < 256 && d < 256
    ensures IsDenied(entries, V6([0, 0, 0, 0, 0, sixth, 0x100 * a + b, 0x100 * c + d])) <==> IsDenied(entries, V4(addr))
  {
    OctetsParsed(addr, a, b, c, d);
    OctetsAddUp(addr);
    hide HasOctets, Covers;
    assert 0x1_0000 * (0x100 * a + b) + (0x100 * c + d) == addr by {
      assert 0x1_0000 * (0x100 * a + b) == 0x100_0000 * a + 0x1_0000 * b;
    }
  }

  /** No other IPv6 address is denied, and no IPv6 address passes an allow list that is not empty. */
  lemma OtherAddressesNotDenied(entries: seq<Entry>, segs: seq<u16>)
    requires |segs| == 8
    requires (exists i | 0 <= i < 5 :: segs[i] != 0) || (segs[5] != 0 && segs[5] != 0xFFFF)
    ensures !IsDenied(entries, V6(segs)) && (IpInCidr(V6(segs), entries) <==> entries == [])
  {
  }

  /** On IPv4 the two tests agree for every list that is not empty. */
  lemma TestsAgree(entries: seq<Entry>, ip: u32)
    ensures entries != [] ==> IpInCidr(V4(ip), entries) == IsDenied(entries, V4(ip))
    ensures IpInCidr(V4(ip), []) && !IsDenied([], V4(ip))
  {
  }
}
