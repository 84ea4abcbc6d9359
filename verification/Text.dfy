/** The string operations of Rust's standard library that the parsers of the relay use. */
module Text {
  import opened Wrappers

  // ----- case -----

  function LowerChar(c: char): char {
    if 'A' <= c <= 'Z' then (c as int + 32) as char else c
  }

  function Lower(s: string): (t: string)
    ensures |t| == |s|
  {
    seq(|s|, i requires 0 <= i < |s| => LowerChar(s[i]))
  }

  predicate EqIgnoreCase(a: string, b: string) {
    Lower(a) == Lower(b)
  }

  // ----- white space -----

  predicate White(c: char) {
    var n := c as int;
    || 0x09 <= n <= 0x0D || n == 0x20 || n == 0x85 || n == 0xA0 || n == 0x1680
    || 0x2000 <= n <= 0x200A || n == 0x2028 || n == 0x2029 || n == 0x202F || n == 0x205F || n == 0x3000
  }

  function TrimStart(s: string): string {
    if s != "" && White(s[0]) then TrimStart(s[1..]) else s
  }

  function TrimEnd(s: string): string {
    if s != "" && White(s[|s| - 1]) then TrimEnd(s[..|s| - 1]) else s
  }

  function Trim(s: string): string {
    TrimEnd(TrimStart(s))
  }

  lemma TrimNothing(s: string)
    requires s != "" ==> !White(s[0]) && !White(s[|s| - 1])
    ensures Trim(s) == s
  {
  }

  /** Optional white space on a line. */
  predicate Padding(s: string) {
    forall i | 0 <= i < |s| :: White(s[i]) && s[i] != '\r' && s[i] != '\n'
  }

  lemma {:induction false} TrimStartPadded(pad: string, s: string)
    requires Padding(pad)
    ensures TrimStart(pad + s) == TrimStart(s)
  {
    if pad == "" {
      assert pad + s == s;
    } else {
      assert (pad + s)[1..] == pad[1..] + s;
      TrimStartPadded(pad[1..], s);
    }
  }

  lemma {:induction false} TrimEndPadded(s: string, pad: string)
    requires Padding(pad)
    ensures TrimEnd(s + pad) == TrimEnd(s)
  {
    if pad == "" {
      assert s + pad == s;
    } else {
      assert (s + pad)[..|s + pad| - 1] == s + pad[..|pad| - 1];
      TrimEndPadded(s, pad[..|pad| - 1]);
    }
  }

  lemma {:induction false} TrimStartAppend(s: string, pad: string)
    requires Padding(pad)
    ensures TrimStart(s + pad) == TrimStart(s) + pad || (TrimStart(s) == "" && TrimStart(s + pad) == "")
  {
    if s == "" {
      assert s + pad == pad == pad + "";
      TrimStartPadded(pad, "");
    } else {
      assert (s + pad)[1..] == s[1..] + pad;
      TrimStartAppend(s[1..], pad);
    }
  }

  lemma TrimPadded(pre: string, s: string, post: string)
    requires Padding(pre) && Padding(post)
    ensures Trim(pre + (s + post)) == Trim(s)
  {
    hide TrimStart, TrimEnd, Padding;
    TrimStartPadded(pre, s + post);
    TrimStartAppend(s, post);
    TrimEndPadded(TrimStart(s), post);
  }

  lemma {:induction false} TrimStartKeeps(s: string, t: string)
    requires t != "" && !White(t[0])
    ensures TrimStart(s + t) == TrimStart(s) + t
  {
    if s == "" {
      assert s + t == t;
    } else {
      assert (s + t)[1..] == s[1..] + t;
      TrimStartKeeps(s[1..], t);
    }
  }

  lemma {:induction false} TrimEndKeeps(t: string, s: string)
    requires t != "" && !White(t[|t| - 1])
    ensures TrimEnd(t + s) == t + TrimEnd(s)
  {
    if s == "" {
      assert t + s == t;
    } else {
      assert (t + s)[..|t + s| - 1] == t + s[..|s| - 1];
      TrimEndKeeps(t, s[..|s| - 1]);
    }
  }

  /** White space is only trimmed up to the first and from the last other character. */
  lemma TrimKeeps(s: string, t: string, u: string)
    requires t != "" && !White(t[0]) && !White(t[|t| - 1])
    ensures Trim(s + (t + u)) == TrimStart(s) + (t + TrimEnd(u))
  {
    hide TrimStart, TrimEnd, White;
    TrimStartKeeps(s, t + u);
    TrimEndKeeps(TrimStart(s) + t, u);
    assert TrimStart(s) + (t + u) == TrimStart(s) + t + u;
    assert TrimStart(s) + t + TrimEnd(u) == TrimStart(s) + (t + TrimEnd(u));
  }

  /** The characters with the Unicode property White_Space: in ASCII the space, the tab and the line ends. */
  lemma WhiteIff(c: char)
    ensures White(c)
       <==> || c == ' ' || c == '\t' || c == '\n' || c == '\r' || c as int == 11 || c as int == 12
            || c as int in {133, 160, 5760, 8232, 8233, 8239, 8287, 12288}
            || c as int - 8192 in {0, 1, 2, 3, 4, 5, 6, 7, 8, 9, 10}
  {
  }

  /** Two characters are the same ignoring case exactly if they are the same or an ASCII letter's two cases. */
  lemma SameIgnoringCaseIff(a: char, b: char)
    ensures LowerChar(a) == LowerChar(b)
       <==> || a == b
            || ('A' <= a <= 'Z' && b as int == a as int + 32)
            || ('A' <= b <= 'Z' && a as int == b as int + 32)
  {
  }

  // ----- searching and splitting -----

  function Find(s: string, c: char): (r: Option<nat>)
    ensures r.Some? ==> r.value < |s| && s[r.value] == c
  {
    if s == "" then None
    else if s[0] == c then Some(0)
    else
      var i :- Find(s[1..], c);
      Some(i + 1)
  }

  lemma {:induction false} FindIs(s: string, c: char, i: nat)
    requires i < |s| && s[i] == c && forall j | 0 <= j < i :: s[j] != c
    ensures Find(s, c) == Some(i)
  {
    if i > 0 {
      FindIs(s[1..], c, i - 1);
    }
  }

  lemma {:induction false} FindNone(s: string, c: char)
    requires c !in s
    ensures Find(s, c) == None
  {
    if s != "" {
      assert forall x | x in s[1..] :: x in s;
      FindNone(s[1..], c);
    }
  }

  /** The part before the first occurrence of a character, or everything. */
  function Before(s: string, c: char): string {
    if s == "" || s[0] == c then "" else [s[0]] + Before(s[1..], c)
  }

  lemma {:induction false} BeforeIs(s: string, c: char, tail: string)
    requires c !in s && (tail == "" || tail[0] == c)
    ensures Before(s + tail, c) == s
  {
    if s == "" {
      assert s + tail == tail;
    } else {
      assert (s + tail)[1..] == s[1..] + tail;
      assert forall x | x in s[1..] :: x in s;
      BeforeIs(s[1..], c, tail);
      assert [s[0]] + s[1..] == s;
    }
  }

  predicate Contains(s: string, sub: string) {
    sub <= s || (s != "" && Contains(s[1..], sub))
  }

  predicate TextAt(s: string, sub: string, i: int) {
    0 <= i <= |s| - |sub| && s[i..i + |sub|] == sub
  }

  lemma {:induction false} ContainsIff(s: string, sub: string)
    ensures Contains(s, sub) <==> exists i :: TextAt(s, sub, i)
  {
    assert sub <= s <==> TextAt(s, sub, 0);
    if !(sub <= s) && s != "" {
      ContainsIff(s[1..], sub);
      forall i | 0 < i
        ensures TextAt(s, sub, i) <==> TextAt(s[1..], sub, i - 1)
      {
        if i <= |s| - |sub| {
          assert s[1..][i - 1..i - 1 + |sub|] == s[i..i + |sub|];
        }
      }
      if i :| TextAt(s[1..], sub, i) {
        assert TextAt(s, sub, i + 1);
      }
    }
  }

  function StripSuffix(s: string, suffix: string): Option<string> {
    if |suffix| <= |s| && s[|s| - |suffix|..] == suffix then Some(s[..|s| - |suffix|]) else None
  }

  const CRLF := "\r\n"

  predicate CrlfAt(s: string, i: int) {
    0 <= i < |s| - 1 && s[i] == '\r' && s[i + 1] == '\n'
  }

  ghost predicate HasCrlf(s: string) {
    exists i :: CrlfAt(s, i)
  }

  /** The pieces between line ends; there is always at least one. */
  function Lines(s: string): (lines: seq<string>)
    ensures |lines| >= 1
  {
    if s == "" then [""]
    else if CrlfAt(s, 0) then [""] + Lines(s[2..])
    else
      var rest := Lines(s[1..]);
      [[s[0]] + rest[0]] + rest[1..]
  }

  lemma {:induction false} FirstLine(line: string, rest: string)
    requires !HasCrlf(line)
    ensures Lines(line + CRLF + rest) == [line] + Lines(rest)
  {
    var s := line + CRLF + rest;
    if line == "" {
      assert CrlfAt(s, 0) && s[2..] == rest;
    } else {
      assert s[1..] == line[1..] + CRLF + rest;
      assert !CrlfAt(s, 0) by {
        assert CrlfAt(s, 0) ==> CrlfAt(line, 0);
      }
      forall i
        ensures !CrlfAt(line[1..], i)
      {
        assert CrlfAt(line[1..], i) ==> CrlfAt(line, i + 1);
      }
      FirstLine(line[1..], rest);
      assert [line[0]] + line[1..] == line;
      assert ([line[1..]] + Lines(rest))[1..] == Lines(rest);
    }
  }

  lemma {:induction false} OnlyLine(line: string)
    requires !HasCrlf(line)
    ensures Lines(line) == [line]
  {
    if line != "" {
      assert !CrlfAt(line, 0);
      forall i
        ensures !CrlfAt(line[1..], i)
      {
        assert CrlfAt(line[1..], i) ==> CrlfAt(line, i + 1);
      }
      OnlyLine(line[1..]);
      assert [line[0]] + line[1..] == line;
    }
  }

  // ----- numbers -----

  predicate Digit(c: char) {
    '0' <= c <= '9'
  }

  /** The value of a non-empty text of decimal digits. */
  function Digits(s: string): Option<nat> {
    if s == "" || !Digit(s[|s| - 1]) then None
    else
      var d := s[|s| - 1] as int - '0' as int;
      if |s| == 1 then Some(d)
      else
        var front :- Digits(s[..|s| - 1]);
        Some(10 * front + d)
  }

  /** Rust's `parse` into an unsigned type: a leading plus sign is allowed, overflow is an error. */
  function ParseUnsigned(s: string, limit: nat): Option<nat> {
    var v :- Digits(if s != "" && s[0] == '+' then s[1..] else s);
    if v < limit then Some(v) else None
  }

  function Decimal(n: nat): string {
    var d := ['0' + (n % 10) as char];
    if n < 10 then d else Decimal(n / 10) + d
  }

  lemma {:induction false} DecimalDigits(n: nat)
    ensures Digits(Decimal(n)) == Some(n)
    ensures |Decimal(n)| >= 1
  {
    var s := Decimal(n);
    var c := '0' + (n % 10) as char;
    assert Digit(c) && c as int - '0' as int == n % 10;
    if n >= 10 {
      DecimalDigits(n / 10);
      assert s[..|s| - 1] == Decimal(n / 10);
    }
  }

  lemma DecimalInjective(a: nat, b: nat)
    requires Decimal(a) == Decimal(b)
    ensures a == b
  {
    DecimalDigits(a);
    DecimalDigits(b);
  }

  /** A text of digits without a leading zero is the decimal form of its value. */
  lemma {:induction false} DigitsCanonical(s: string)
    requires Digits(s).Some? && (|s| == 1 || s[0] != '0')
    ensures Decimal(Digits(s).value) == s
  {
    var n, c := |s| - 1, s[|s| - 1];
    var d := c as int - '0' as int;
    assert '0' + (d % 10) as char == c;
    if n > 0 {
      var front := s[..n];
      assert front[0] == s[0];
      assert Digits(front).Some?;
      DigitsCanonical(front);
      var v := Digits(front).value;
      assert v != 0 by {
        assert Decimal(0) == "0";
      }
      assert (10 * v + d) / 10 == v && (10 * v + d) % 10 == d;
      assert front + [c] == s;
    }
  }

  lemma {:induction false} DecimalChars(n: nat)
    ensures forall i | 0 <= i < |Decimal(n)| :: Digit(Decimal(n)[i])
  {
    if n >= 10 {
      DecimalChars(n / 10);
    }
  }

  // ----- the order of texts -----

  /** The first difference decides. */
  ghost predicate Precedes(a: string, b: string) {
    exists k :: SmallerAt(a, b, k)
  }

  predicate SmallerAt(a: string, b: string, k: int) {
    0 <= k < |a| && k < |b| && a[..k] == b[..k] && a[k] < b[k]
  }

  lemma PrecedesOneWay(a: string, b: string)
    requires Precedes(a, b)
    ensures !Precedes(b, a) && a != b
  {
    var k :| SmallerAt(a, b, k);
    forall j
      ensures !SmallerAt(b, a, j)
    {
      if 0 <= j < |a| && j < |b| {
        if j < k {
          assert a[..k][j] == b[..k][j];
        } else if j > k {
          assert a[..j][k] != b[..j][k];
        }
      }
    }
    assert a[k] != b[k];
  }

  lemma {:induction false} FirstDifference(a: string, b: string) returns (k: nat)
    requires |a| == |b| && a != b
    ensures k < |a| && a[..k] == b[..k] && a[k] != b[k]
  {
    if a[0] != b[0] {
      k := 0;
    } else {
      assert a == [a[0]] + a[1..] && b == [b[0]] + b[1..];
      k := FirstDifference(a[1..], b[1..]);
      k := k + 1;
      assert a[..k] == [a[0]] + a[1..][..k - 1] && b[..k] == [b[0]] + b[1..][..k - 1];
    }
  }

  lemma {:induction false} DigitsSmaller(a: string, b: string, k: nat)
    requires |a| == |b| && Digits(a).Some? && Digits(b).Some? && SmallerAt(a, b, k)
    ensures Digits(a).value < Digits(b).value
  {
    var n := |a| - 1;
    if k < n {
      assert a[..n][..k] == a[..k] && b[..n][..k] == b[..k];
      DigitsSmaller(a[..n], b[..n], k);
    } else {
      assert a[..n] == a[..k] && b[..n] == b[..k];
    }
  }

  /** Numbers written with equally many digits sort as texts. */
  lemma DigitsSort(a: string, b: string)
    requires |a| == |b| && Digits(a).Some? && Digits(b).Some?
    ensures Digits(a).value < Digits(b).value <==> Precedes(a, b)
    ensures Digits(a).value == Digits(b).value <==> a == b
  {
    if a != b {
      var k := FirstDifference(a, b);
      if a[k] < b[k] {
        assert SmallerAt(a, b, k);
        DigitsSmaller(a, b, k);
        PrecedesOneWay(a, b);
      } else {
        assert SmallerAt(b, a, k);
        DigitsSmaller(b, a, k);
        PrecedesOneWay(b, a);
      }
    }
  }

  lemma PrecedesInside(p: string, a: string, b: string, s: string, t: string)
    requires Precedes(a, b)
    ensures Precedes(p + a + s, p + b + t)
  {
    var k :| SmallerAt(a, b, k);
    assert (p + a + s)[..|p| + k] == p + a[..k] && (p + b + t)[..|p| + k] == p + b[..k];
    assert SmallerAt(p + a + s, p + b + t, |p| + k);
  }

  // ----- lines -----

  /** The text of some lines, each with its end. */
  function Joined(lines: seq<string>): string {
    if lines == [] then "" else lines[0] + "\n" + Joined(lines[1..])
  }

  lemma {:induction false} JoinedAppend(lines: seq<string>, line: string)
    ensures Joined(lines + [line]) == Joined(lines) + line + "\n"
  {
    if lines == [] {
      assert [line][1..] == [] && line + "\n" + "" == line + "\n" == "" + line + "\n";
    } else {
      assert (lines + [line])[1..] == lines[1..] + [line];
      JoinedAppend(lines[1..], line);
    }
  }
}
