/** The audit log and its rotation at midnight UTC.

    The writer appends events to a base file and, when the date has changed since that file was opened,
    first renames it to a name that carries the old date. The names of different days are different.
 */
module AuditLog {
  import opened Wrappers
  import opened Calendar
  import opened Text

  type Files = map<string, string>

  /** One call of the writer: the serialized event, the clock, and how the file system answers. */
  datatype Write = Write(line: string, secs: nat, renameOk: bool, openOk: bool)

  /** The files on disk and the date the base file was opened, if it is open. */
  datatype Log = Log(files: Files, open: Option<Date>)

  // ----- names -----

  function Zeros(n: int): string {
    if n <= 0 then "" else "0" + Zeros(n - 1)
  }

  /** Rust's zero-padded format of an integer. */
  function Padded(n: int, width: nat): string {
    if n >= 0 then Zeros(width - |Decimal(n)|) + Decimal(n)
    else "-" + Zeros(width - 1 - |Decimal(-n)|) + Decimal(-n)
  }

  function RotatedPath(base: string, date: Date): string {
    base + "." + Padded(date.year, 4) + "-" + Padded(date.month, 2) + "-" + Padded(date.day, 2)
  }

  // ----- the writer -----

  function Rotated(base: string, s: Log, date: Date, renameOk: bool): Log {
    var files :=
      if renameOk && base in s.files then (s.files - {base})[RotatedPath(base, date) := s.files[base]]
      else s.files;
    Log(files, None)
  }

  /** The log after the check for midnight. */
  function AtMidnight(base: string, s: Log, today: Date, renameOk: bool): Log {
    if s.open.Some? && s.open != Some(today) then Rotated(base, s, s.open.value, renameOk) else s
  }

  /** The log after a call, and whether the event was written. */
  function Step(base: string, s: Log, w: Write): (Log, bool) {
    var today := EpochToYmd(w.secs);
    var s1 := AtMidnight(base, s, today, w.renameOk);
    if s1.open.None? && !w.openOk then (s1, false)
    else
      var content := if base in s1.files then s1.files[base] else "";
      (Log(s1.files[base := content + w.line + "\n"], Some(if s1.open.None? then today else s1.open.value)), true)
  }

  class Disk {
    var files: Files

    constructor (files: Files)
      ensures this.files == files
    {
      this.files := files;
    }

    /** Open for appending, which creates a missing file. */
    method Open(path: string)
      modifies this
      ensures path in files
      ensures files == if path in old(files) then old(files) else old(files)[path := ""]
    {
      if path !in files {
        files := files[path := ""];
      }
    }

    method Append(path: string, text: string)
      requires path in files
      modifies this
      ensures files == old(files)[path := old(files)[path] + text]
    {
      files := files[path := files[path] + text];
    }
  }

  class WriterState {
    const basePath: string
    const disk: Disk
    var file: bool
    var openDate: Option<Date>

    /** The handle is open exactly when its date is known, and an open base file exists. */
    ghost predicate Valid()
      reads this, disk
    {
      file == openDate.Some? && (file ==> basePath in disk.files)
    }

    ghost function Abs(): Log
      reads this, disk
    {
      Log(disk.files, openDate)
    }

    constructor (basePath: string, disk: Disk)
      ensures Valid() && this.basePath == basePath && this.disk == disk
      ensures Abs() == Log(disk.files, None)
    {
      this.basePath := basePath;
      this.disk := disk;
      file := false;
      openDate := None;
    }

    method Rotate(oldDate: Date, renameOk: bool)
      requires Valid()
      modifies this, disk
      ensures Valid()
      ensures Abs() == Rotated(basePath, old(Abs()), oldDate, renameOk)
    {
      file := false;
      openDate := None;
      var rotated := RotatedPath(basePath, oldDate);
      if renameOk && basePath in disk.files {
        var content := disk.files[basePath];
        disk.files := disk.files - {basePath};
        disk.files := disk.files[rotated := content];
      }
    }

    method WriteEvent(line: string, secs: nat, renameOk: bool, openOk: bool) returns (ok: bool)
      requires Valid()
      modifies this, disk
      ensures Valid()
      ensures (Abs(), ok) == Step(basePath, old(Abs()), Write(line, secs, renameOk, openOk))
    {
      hide EpochToYmd, Rotated;
      var today := EpochToYmd(secs);
      if openDate.Some? && openDate != Some(today) {
        Rotate(openDate.value, renameOk);
      }
      ghost var s1 := Abs();
      assert s1 == AtMidnight(basePath, old(Abs()), today, renameOk);
      if !file {
        if !openOk {
          return false;
        }
        disk.Open(basePath);
        file := true;
        openDate := Some(today);
      }
      ghost var content := disk.files[basePath];
      disk.Append(basePath, line);
      disk.Append(basePath, "\n");
      assert disk.files[basePath] == content + line + "\n";
      assert disk.files == s1.files[basePath := content + line + "\n"];
      return true;
    }
  }

  // ----- different days have different names -----

  lemma DecimalLength(n: nat)
    ensures n < 10 ==> |Decimal(n)| == 1
    ensures 10 <= n < 100 ==> |Decimal(n)| == 2
    ensures n >= 1000 ==> |Decimal(n)| >= 4
  {
    DecimalDigits(n);
    if n >= 10 {
      DecimalDigits(n / 10);
      if n >= 1000 {
        DecimalDigits(n / 100);
        DecimalDigits(n / 1000);
        assert n / 10 / 10 == n / 100 && n / 100 / 10 == n / 1000;
      }
    }
  }

  lemma PaddedTwo(n: nat)
    requires n < 100
    ensures |Padded(n, 2)| == 2
    ensures Digits(Padded(n, 2)) == Some(n)
  {
    DecimalLength(n);
    DecimalDigits(n);
    if n < 10 {
      assert Zeros(1) == "0" + Zeros(0);
      var s := Padded(n, 2);
      assert s == "0" + Decimal(n);
      assert s[..1] == "0";
      assert Digits("0") == Some(0);
    } else {
      assert Padded(n, 2) == Decimal(n);
    }
  }

  lemma PaddedYear(y: int)
    requires y >= 1000
    ensures Digits(Padded(y, 4)) == Some(y)
  {
    DecimalLength(y);
    DecimalDigits(y);
    assert Padded(y, 4) == Decimal(y);
  }

  lemma {:induction false} ZerosBefore(k: int, s: string)
    requires Digits(s).Some?
    ensures Digits(Zeros(k) + s) == Digits(s)
    ensures |Zeros(k) + s| >= k + |s|
  {
    if k > 0 {
      var t := Zeros(k - 1) + s;
      assert Zeros(k) + s == "0" + t;
      ZerosBefore(k - 1, s);
      ZeroBefore(t);
    } else {
      assert Zeros(k) + s == s;
    }
  }

  lemma {:induction false} ZeroBefore(s: string)
    requires Digits(s).Some?
    ensures Digits("0" + s) == Digits(s)
  {
    var t, n := "0" + s, |s| - 1;
    assert t[..|t| - 1] == "0" + s[..n];
    if n > 0 {
      ZeroBefore(s[..n]);
    } else {
      assert t[..|t| - 1] == "0" && Digits("0") == Some(0);
    }
  }

  /** The year of a date after the narrowing to 32 bits may be negative. */
  lemma PaddedIs(n: int, width: nat)
    ensures var s := Padded(n, width);
            && |s| >= width
            && (n >= 0 ==> Digits(s) == Some(n))
            && (n < 0 ==> |s| >= 1 && s[0] == '-' && Digits(s[1..]) == Some(-n))
  {
    hide Digits, Decimal, Zeros;
    if n >= 0 {
      DecimalDigits(n);
      ZerosBefore(width - |Decimal(n)|, Decimal(n));
    } else {
      DecimalDigits(-n);
      ZerosBefore(width - 1 - |Decimal(-n)|, Decimal(-n));
      var zeros := Zeros(width - 1 - |Decimal(-n)|);
      assert "-" + zeros + Decimal(-n) == "-" + (zeros + Decimal(-n));
      assert Padded(n, width)[1..] == zeros + Decimal(-n);
    }
  }

  lemma RotatedPathInjective(base: string, a: Date, b: Date)
    requires ValidDate(a) && a.year >= 1000 && ValidDate(b) && b.year >= 1000
    requires RotatedPath(base, a) == RotatedPath(base, b)
    ensures a == b
  {
    hide Padded, Digits;
    var pa, pb := RotatedPath(base, a), RotatedPath(base, b);
    PaddedYear(a.year);
    PaddedYear(b.year);
    PaddedTwo(a.month);
    PaddedTwo(b.month);
    PaddedTwo(a.day);
    PaddedTwo(b.day);
    var n := |pa|;
    assert Padded(a.day, 2) == pa[n - 2..] == pb[n - 2..] == Padded(b.day, 2);
    assert Padded(a.month, 2) == pa[n - 5..n - 3] == pb[n - 5..n - 3] == Padded(b.month, 2);
    assert Padded(a.year, 4) == pa[|base| + 1..n - 6] == pb[|base| + 1..n - 6] == Padded(b.year, 4);
  }

  // ----- what the names say -----

  lemma PaddedYearLength(y: nat)
    requires 1000 <= y < 10000
    ensures |Padded(y, 4)| == 4
  {
    DecimalLength(y);
    assert Padded(y, 4) == Decimal(y);
    assert Decimal(y) == Decimal(y / 10) + ['0' + (y % 10) as char];
    assert Decimal(y / 10) == Decimal(y / 100) + ['0' + (y / 10 % 10) as char] by {
      assert y / 10 / 10 == y / 100;
    }
    assert Decimal(y / 100) == Decimal(y / 1000) + ['0' + (y / 100 % 10) as char] by {
      assert y / 100 / 10 == y / 1000;
    }
    assert |Decimal(y / 1000)| == 1;
  }

  /** A dated name is the base name, a dot and the date as YYYY-MM-DD. */
  lemma DatedNameIs(base: string, date: Date)
    requires ValidDate(date) && 1000 <= date.year < 10000
    ensures var path := RotatedPath(base, date);
            && |path| == |base| + 11 && path[..|base|] == base && path[|base|] == '.'
            && var t := path[|base| + 1..];
            && Digits(t[..4]) == Some(date.year) && t[4] == '-'
            && Digits(t[5..7]) == Some(date.month) && t[7] == '-'
            && Digits(t[8..]) == Some(date.day)
  {
    hide Padded, Digits;
    PaddedYear(date.year);
    PaddedYearLength(date.year);
    PaddedTwo(date.month);
    PaddedTwo(date.day);
    var y, m, d := Padded(date.year, 4), Padded(date.month, 2), Padded(date.day, 2);
    var t := RotatedPath(base, date)[|base| + 1..];
    assert t == y + "-" + m + "-" + d;
    assert t[..4] == y && t[5..7] == m && t[8..] == d;
  }

  lemma EarlierNamePrecedes(base: string, a: Date, b: Date)
    requires ValidDate(a) && 1000 <= a.year < 10000 && ValidDate(b) && 1000 <= b.year < 10000
    requires Calendar.Before(a, b)
    ensures Precedes(RotatedPath(base, a), RotatedPath(base, b))
  {
    hide Digits, Precedes, RotatedPath;
    DatedNameIs(base, a);
    DatedNameIs(base, b);
    var p, q := RotatedPath(base, a), RotatedPath(base, b);
    var s, t, n := p[|base| + 1..], q[|base| + 1..], |base| + 1;
    assert p[..n] == q[..n] by {
      assert p[..n] == p[..|base|] + [p[|base|]] && q[..n] == q[..|base|] + [q[|base|]];
    }
    DigitsSort(s[..4], t[..4]);
    DigitsSort(s[5..7], t[5..7]);
    DigitsSort(s[8..], t[8..]);
    if a.year < b.year {
      PrecedesInside(p[..n], s[..4], t[..4], s[4..], t[4..]);
      assert p == p[..n] + s[..4] + s[4..] && q == p[..n] + t[..4] + t[4..];
    } else if a.month < b.month {
      PrecedesInside(p[..n] + s[..5], s[5..7], t[5..7], s[7..], t[7..]);
      assert s[..5] == s[..4] + [s[4]] == t[..4] + [t[4]] == t[..5];
      assert p == p[..n] + s[..5] + s[5..7] + s[7..] && q == p[..n] + s[..5] + t[5..7] + t[7..];
    } else {
      PrecedesInside(p[..n] + s[..8], s[8..], t[8..], "", "");
      assert s[..8] == s[..4] + [s[4]] + s[5..7] + [s[7]];
      assert t[..8] == t[..4] + [t[4]] + t[5..7] + [t[7]];
      assert p == p[..n] + s[..8] + s[8..] + "" && q == p[..n] + s[..8] + t[8..] + "";
    }
  }

  /** Names sort as dates. */
  lemma NamesSortAsDates(base: string, a: Date, b: Date)
    requires ValidDate(a) && 1000 <= a.year < 10000 && ValidDate(b) && 1000 <= b.year < 10000
    ensures Calendar.Before(a, b) <==> Precedes(RotatedPath(base, a), RotatedPath(base, b))
  {
    hide Precedes, RotatedPath;
    if Calendar.Before(a, b) {
      EarlierNamePrecedes(base, a, b);
    } else if Calendar.Before(b, a) {
      EarlierNamePrecedes(base, b, a);
      PrecedesOneWay(RotatedPath(base, b), RotatedPath(base, a));
    } else {
      assert a == b;
      if Precedes(RotatedPath(base, a), RotatedPath(base, a)) {
        PrecedesOneWay(RotatedPath(base, a), RotatedPath(base, a));
      }
    }
  }

  // ----- from contents back to events -----

  ghost predicate SingleLines(lines: seq<string>) {
    forall i | 0 <= i < |lines| :: '\n' !in lines[i]
  }

  /** Serialized events hold no line break, so the contents of a file determine the events in it. */
  lemma {:induction false} JoinedInjective(a: seq<string>, b: seq<string>)
    requires SingleLines(a) && SingleLines(b) && Joined(a) == Joined(b)
    ensures a == b
  {
    if a != [] && b != [] {
      BeforeIs(a[0], '\n', "\n" + Joined(a[1..]));
      BeforeIs(b[0], '\n', "\n" + Joined(b[1..]));
      assert a[0] + "\n" + Joined(a[1..]) == a[0] + ("\n" + Joined(a[1..]));
      assert b[0] + "\n" + Joined(b[1..]) == b[0] + ("\n" + Joined(b[1..]));
      assert Joined(a[1..]) == Joined(a)[|a[0]| + 1..];
      assert Joined(b[1..]) == Joined(b)[|b[0]| + 1..];
      JoinedInjective(a[1..], b[1..]);
      assert [a[0]] + a[1..] == a && [b[0]] + b[1..] == b;
    }
  }
}
