/** Runs of the audit log's writer.

    Whether events survive depends on dates and names being different for different days. The theorems follow
    every line through whole runs: from any disk, with any clock, through restarts of the process, and with
    renames and opens that may fail.
 */
module AuditRuns {
  import opened Wrappers
  import opened Calendar
  import opened AuditLog
  import opened Text

  // ----- runs -----

  /** What happened so far, oldest first: calls of the writer, and restarts of the process, which lose the
      handle and its date but no file. */
  datatype Run = Start | Then(before: Run, w: Write) | Restarted(before: Run)

  function After(base: string, files0: Files, run: Run): Log {
    match run
    case Start => Log(files0, None)
    case Then(before, w) => Step(base, After(base, files0, before), w).0
    case Restarted(before) => Log(After(base, files0, before).files, None)
  }

  function Day(w: Write): nat {
    w.secs / SECS_PER_DAY
  }

  function LineOf(w: Write): string {
    w.line + "\n"
  }

  /** The clock stays before the year 2^31. */
  ghost predicate InRange(run: Run) {
    match run
    case Start => true
    case Then(before, w) => w.secs < SECS_PER_DAY * YEAR_OVERFLOW_DAY && InRange(before)
    case Restarted(before) => InRange(before)
  }

  /** The last reading of the clock, which read `start` when the run began. */
  function Latest(run: Run, start: nat): nat {
    match run
    case Start => start
    case Then(_, w) => w.secs
    case Restarted(before) => Latest(before, start)
  }

  function LastDay(run: Run, start: nat): nat {
    Latest(run, start) / SECS_PER_DAY
  }

  ghost predicate Nondecreasing(run: Run, start: nat) {
    match run
    case Start => true
    case Then(before, w) => Latest(before, start) <= w.secs && Nondecreasing(before, start)
    case Restarted(before) => Nondecreasing(before, start)
  }

  /** The lines that calls reported as written, in order. */
  function Accepted(base: string, files0: Files, run: Run): string {
    match run
    case Start => ""
    case Then(before, w) =>
      if Step(base, After(base, files0, before), w).1 then Accepted(base, files0, before) + LineOf(w)
      else Accepted(base, files0, before)
    case Restarted(before) => Accepted(base, files0, before)
  }

  /** The events that calls reported as written. */
  function Reported(base: string, files0: Files, run: Run): seq<string> {
    match run
    case Start => []
    case Then(before, w) =>
      if Step(base, After(base, files0, before), w).1 then Reported(base, files0, before) + [w.line]
      else Reported(base, files0, before)
    case Restarted(before) => Reported(base, files0, before)
  }

  /** The written text is the reported events, each on a line of its own. */
  lemma {:induction false} AcceptedIsJoined(base: string, files0: Files, run: Run)
    ensures Accepted(base, files0, run) == Joined(Reported(base, files0, run))
  {
    hide Step, Joined;
    match run
    case Start =>
      assert Joined([]) == "" by {
        JoinedNothing();
      }
    case Then(before, w) =>
      AcceptedIsJoined(base, files0, before);
      JoinedAppend(Reported(base, files0, before), w.line);
      var text := Joined(Reported(base, files0, before));
      assert text + w.line + "\n" == text + LineOf(w);
    case Restarted(before) =>
      AcceptedIsJoined(base, files0, before);
  }

  lemma JoinedNothing()
    ensures Joined([]) == ""
  {
  }

  // ----- the writer on day numbers -----

  /** The writer without names: file contents by day, the base file, and the day it was opened. */
  datatype Ledger = Ledger(archive: map<nat, string>, base: Option<string>, open: Option<nat>)

  function Close(l: Ledger, w: Write): Ledger {
    if l.open.None? || l.open == Some(Day(w)) then l
    else if w.renameOk && l.base.Some? then Ledger(l.archive[l.open.value := l.base.value], None, None)
    else l.(open := None)
  }

  function Book(l: Ledger, w: Write): (Ledger, bool) {
    var l1 := Close(l, w);
    if l1.open.None? && !w.openOk then (l1, false)
    else
      var content := if l1.base.Some? then l1.base.value else "";
      var day := if l1.open.None? then Day(w) else l1.open.value;
      (Ledger(l1.archive, Some(content + w.line + "\n"), Some(day)), true)
  }

  function BookAll(l0: Ledger, run: Run): Ledger {
    match run
    case Start => l0
    case Then(before, w) => Book(BookAll(l0, before), w).0
    case Restarted(before) => BookAll(l0, before).(open := None)
  }

  function Path(base: string, day: nat): string {
    RotatedPath(base, CivilFromDays(day))
  }

  lemma PathInjective(base: string, a: nat, b: nat)
    ensures Path(base, a) == Path(base, b) ==> a == b
    ensures Path(base, a) != base
  {
    hide CivilFromDays, DaysSinceEpoch, RotatedPath;
    CivilCountsDays(a);
    CivilCountsDays(b);
    if Path(base, a) == Path(base, b) {
      RotatedPathInjective(base, CivilFromDays(a), CivilFromDays(b));
      CivilRespectsOrder(a, b);
    }
    PathIsLonger(base, CivilFromDays(a));
  }

  lemma PathIsLonger(base: string, date: Date)
    ensures RotatedPath(base, date) != base
  {
    assert |RotatedPath(base, date)| > |base|;
  }

  predicate SameAt(a: Files, b: Files, p: string) {
    (p in a <==> p in b) && (p in a ==> a[p] == b[p])
  }

  /** A path that is neither the base file nor the file of an archived day. */
  ghost predicate Unrelated(base: string, l: Ledger, p: string) {
    p != base && forall day: nat | day in l.archive :: p != Path(base, day)
  }

  /** A log that holds what a ledger says; all other files are as they were. */
  ghost predicate Holds(base: string, files0: Files, s: Log, l: Ledger) {
    && s.open == (if l.open.Some? then Some(CivilFromDays(l.open.value)) else None)
    && (base in s.files <==> l.base.Some?)
    && (l.base.Some? ==> s.files[base] == l.base.value)
    && (forall day: nat | day in l.archive :: Path(base, day) in s.files && s.files[Path(base, day)] == l.archive[day])
    && (forall p | Unrelated(base, l, p) :: SameAt(s.files, files0, p))
  }

  lemma TodayIsDay(w: Write)
    requires w.secs < SECS_PER_DAY * YEAR_OVERFLOW_DAY
    ensures EpochToYmd(w.secs) == CivilFromDays(Day(w))
  {
    hide CivilFromDays, DaysSinceEpoch, EpochToYmd;
    EpochToYmdExact(w.secs);
    CivilCountsDays(Day(w));
  }

  lemma CloseHolds(base: string, files0: Files, s: Log, l: Ledger, renameOk: bool, w: Write)
    requires Holds(base, files0, s, l)
    requires l.open.Some? && l.open != Some(Day(w)) && w.renameOk == renameOk
    ensures Holds(base, files0, Rotated(base, s, CivilFromDays(l.open.value), renameOk), Close(l, w))
  {
    hide CivilFromDays, RotatedPath, Day;
    var day := l.open.value;
    var t, m := Rotated(base, s, CivilFromDays(day), renameOk), Close(l, w);
    forall other: nat
      ensures Path(base, other) == Path(base, day) ==> other == day
      ensures Path(base, other) != base
    {
      PathInjective(base, other, day);
    }
    if renameOk && l.base.Some? {
      assert t.files == (s.files - {base})[Path(base, day) := s.files[base]];
      forall p | Unrelated(base, m, p)
        ensures SameAt(t.files, files0, p)
      {
        assert day in m.archive;
        assert Unrelated(base, l, p);
      }
    }
  }

  lemma AppendHolds(base: string, files0: Files, s: Log, l: Ledger, content: string, day: nat)
    requires Holds(base, files0, s, l)
    ensures Holds(base, files0, Log(s.files[base := content], Some(CivilFromDays(day))),
                  Ledger(l.archive, Some(content), Some(day)))
  {
    hide CivilFromDays, RotatedPath;
    var m := Ledger(l.archive, Some(content), Some(day));
    forall other: nat
      ensures Path(base, other) != base
    {
      PathInjective(base, other, other);
    }
    assert forall p :: Unrelated(base, m, p) ==> Unrelated(base, l, p);
  }

  lemma RestartHolds(base: string, files0: Files, s: Log, l: Ledger)
    requires Holds(base, files0, s, l)
    ensures Holds(base, files0, Log(s.files, None), l.(open := None))
  {
    assert forall p :: Unrelated(base, l.(open := None), p) ==> Unrelated(base, l, p);
  }

  lemma SameDate(a: nat, b: nat)
    ensures CivilFromDays(a) == CivilFromDays(b) <==> a == b
  {
    CivilRespectsOrder(a, b);
  }

  /** Comparing dates and naming files by date is comparing days and filing by day, from any disk on. */
  lemma {:induction false} LogHoldsLedger(base: string, files0: Files, l0: Ledger, run: Run)
    requires Holds(base, files0, Log(files0, None), l0) && InRange(run)
    ensures Holds(base, files0, After(base, files0, run), BookAll(l0, run))
    ensures run.Then? ==> Step(base, After(base, files0, run.before), run.w).1 == Book(BookAll(l0, run.before), run.w).1
  {
    hide CivilFromDays, RotatedPath, EpochToYmd, Holds, Path;
    match run
    case Start =>
    case Then(before, w) =>
      LogHoldsLedger(base, files0, l0, before);
      StepHolds(base, files0, After(base, files0, before), BookAll(l0, before), w);
    case Restarted(before) =>
      LogHoldsLedger(base, files0, l0, before);
      RestartHolds(base, files0, After(base, files0, before), BookAll(l0, before));
  }

  function BaseFile(base: string, files: Files): Option<string> {
    if base in files then Some(files[base]) else None
  }

  /** The dated files of the days before n. */
  function Dated(base: string, files: Files, n: nat): map<nat, string> {
    map day: nat | day < n && Path(base, day) in files :: files[Path(base, day)]
  }

  /** A ledger may start with any part of the dated files on the disk. */
  function StartWith(base: string, files: Files, n: nat): Ledger {
    Ledger(Dated(base, files, n), BaseFile(base, files), None)
  }

  lemma StartHolds(base: string, files0: Files, n: nat)
    ensures Holds(base, files0, Log(files0, None), StartWith(base, files0, n))
  {
    hide Path;
  }

  lemma HoldsParts(base: string, files0: Files, s: Log, l: Ledger)
    requires Holds(base, files0, s, l)
    ensures s.open == (if l.open.Some? then Some(CivilFromDays(l.open.value)) else None)
    ensures base in s.files <==> l.base.Some?
    ensures l.base.Some? ==> s.files[base] == l.base.value
  {
  }

  lemma StepHolds(base: string, files0: Files, s: Log, l: Ledger, w: Write)
    requires Holds(base, files0, s, l)
    requires w.secs < SECS_PER_DAY * YEAR_OVERFLOW_DAY
    ensures Holds(base, files0, Step(base, s, w).0, Book(l, w).0)
    ensures Step(base, s, w).1 == Book(l, w).1
  {
    hide CivilFromDays, RotatedPath, EpochToYmd, Holds, Path;
    TodayIsDay(w);
    HoldsParts(base, files0, s, l);
    var s1, l1 := s, l;
    if l.open.Some? {
      SameDate(l.open.value, Day(w));
      if l.open != Some(Day(w)) {
        s1, l1 := Rotated(base, s, CivilFromDays(l.open.value), w.renameOk), Close(l, w);
        CloseHolds(base, files0, s, l, w.renameOk, w);
      }
    }
    HoldsParts(base, files0, s1, l1);
    var content := (if l1.base.Some? then l1.base.value else "") + w.line + "\n";
    AppendHolds(base, files0, s1, l1, content, if l1.open.None? then Day(w) else l1.open.value);
  }

  // ----- files that were there before -----

  lemma HoldsArchive(base: string, files0: Files, s: Log, l: Ledger)
    requires Holds(base, files0, s, l)
    ensures forall day: nat | day in l.archive ::
              Path(base, day) in s.files && s.files[Path(base, day)] == l.archive[day]
    ensures forall p | Unrelated(base, l, p) :: SameAt(s.files, files0, p)
  {
  }

  lemma UnrelatedDay(base: string, l: Ledger, day: nat)
    ensures Unrelated(base, l, Path(base, day)) <==> day !in l.archive
  {
    hide Path;
    forall other: nat
      ensures Path(base, other) == Path(base, day) ==> other == day
      ensures Path(base, day) != base
    {
      PathInjective(base, other, day);
      PathInjective(base, day, day);
    }
  }

  /** What the disk holds under the date of a day: what the run archived, or else what was there before. */
  lemma ArchiveOnDisk(base: string, files0: Files, run: Run, day: nat)
    requires InRange(run)
    ensures var files, l := After(base, files0, run).files, BookAll(StartWith(base, files0, 0), run);
            if day in l.archive then Path(base, day) in files && files[Path(base, day)] == l.archive[day]
            else SameAt(files, files0, Path(base, day))
  {
    hide Path, Holds, Unrelated, SameAt;
    var l0 := StartWith(base, files0, 0);
    StartHolds(base, files0, 0);
    LogHoldsLedger(base, files0, l0, run);
    HoldsArchive(base, files0, After(base, files0, run), BookAll(l0, run));
    UnrelatedDay(base, BookAll(l0, run), day);
  }

  // ----- nothing is lost or reordered when the clock does not go back, whatever fails -----

  /** The archived contents of the days before n, in the order of the days. */
  function Assembled(archive: map<nat, string>, n: nat): string {
    if n == 0 then ""
    else if n - 1 in archive then Assembled(archive, n - 1) + archive[n - 1]
    else Assembled(archive, n - 1)
  }

  lemma {:induction false} AssembledGap(archive: map<nat, string>, m: nat, n: nat)
    requires m <= n && forall d: nat | m <= d < n :: d !in archive
    ensures Assembled(archive, n) == Assembled(archive, m)
  {
    if m < n {
      AssembledGap(archive, m, n - 1);
    }
  }

  lemma {:induction false} AssembledSame(a: map<nat, string>, b: map<nat, string>, n: nat)
    requires forall d: nat | d < n :: (d in a <==> d in b) && (d in a ==> a[d] == b[d])
    ensures Assembled(a, n) == Assembled(b, n)
  {
    if n > 0 {
      AssembledSame(a, b, n - 1);
    }
  }

  lemma AssembledAdd(archive: map<nat, string>, day: nat, content: string, n: nat)
    requires day < n && forall d | d in archive :: d < day
    ensures Assembled(archive[day := content], n) == Assembled(archive, n) + content
  {
    var b := archive[day := content];
    AssembledGap(archive, day, n);
    AssembledGap(b, day + 1, n);
    AssembledSame(archive, b, day);
  }

  /** All archived days are earlier than a day. */
  ghost predicate Before(l: Ledger, day: nat) {
    forall d | d in l.archive :: d < day
  }

  /** Days are archived in order: each is later than all before it, and none is archived twice. */
  ghost predicate InOrder(l: Ledger, last: nat) {
    && (l.open.Some? ==> l.base.Some? && l.open.value <= last)
    && Before(l, if l.open.Some? then l.open.value else last)
  }

  lemma LatestGrows(run: Run, start: nat)
    requires run.Then? && Nondecreasing(run, start)
    ensures LastDay(run.before, start) <= LastDay(run, start) && Nondecreasing(run.before, start)
  {
  }

  lemma {:induction false} ArchivedInOrder(l0: Ledger, run: Run, start: nat)
    requires Nondecreasing(run, start) && InOrder(l0, start / SECS_PER_DAY)
    ensures InOrder(BookAll(l0, run), LastDay(run, start))
  {
    match run
    case Start =>
    case Then(before, w) =>
      ArchivedInOrder(l0, before, start);
      LatestGrows(run, start);
      hide Nondecreasing;
      assert LastDay(run, start) == Day(w);
      hide Day, LastDay;
    case Restarted(before) =>
      ArchivedInOrder(l0, before, start);
  }

  function BaseOf(l: Ledger): string {
    if l.base.Some? then l.base.value else ""
  }

  /** Everything a ledger holds of the days before n and in the base file, in order. */
  function Everything(l: Ledger, n: nat): string {
    Assembled(l.archive, n) + BaseOf(l)
  }

  /** The lines that a ledger takes. */
  function Taken(l0: Ledger, run: Run): string {
    match run
    case Start => ""
    case Then(before, w) => if Book(BookAll(l0, before), w).1 then Taken(l0, before) + LineOf(w) else Taken(l0, before)
    case Restarted(before) => Taken(l0, before)
  }

  lemma {:induction false} TakenIsAccepted(base: string, files0: Files, l0: Ledger, run: Run)
    requires Holds(base, files0, Log(files0, None), l0) && InRange(run)
    ensures Taken(l0, run) == Accepted(base, files0, run)
  {
    hide Holds, Step, Book;
    match run
    case Start =>
    case Then(before, w) =>
      TakenIsAccepted(base, files0, l0, before);
      LogHoldsLedger(base, files0, l0, run);
    case Restarted(before) =>
      TakenIsAccepted(base, files0, l0, before);
  }

  lemma {:induction false} LedgerConserves(l0: Ledger, run: Run, start: nat, n: nat)
    requires Nondecreasing(run, start) && LastDay(run, start) < n && InOrder(l0, start / SECS_PER_DAY)
    ensures Everything(BookAll(l0, run), n) == Everything(l0, n) + Taken(l0, run)
  {
    hide Day, Everything;
    match run
    case Start =>
    case Then(before, w) =>
      LatestGrows(run, start);
      LedgerConserves(l0, before, start, n);
      ArchivedInOrder(l0, before, start);
      CloseConserves(BookAll(l0, before), w, n);
      BookConserves(BookAll(l0, before), w, n, Everything(l0, n), Taken(l0, before));
    case Restarted(before) =>
      LedgerConserves(l0, before, start, n);
      assert Everything(BookAll(l0, run), n) == Everything(BookAll(l0, before), n) by {
        SameEverything(BookAll(l0, before), n);
      }
  }

  lemma SameEverything(l: Ledger, n: nat)
    ensures Everything(l.(open := None), n) == Everything(l, n)
  {
  }

  lemma CloseConserves(l: Ledger, w: Write, n: nat)
    requires l.open.Some? ==> l.base.Some? && l.open.value < n && Before(l, l.open.value)
    ensures Everything(Close(l, w), n) == Everything(l, n)
  {
    hide Assembled, Day;
    if l.open.Some? {
      AssembledAdd(l.archive, l.open.value, l.base.value, n);
    }
  }

  lemma BookConserves(l: Ledger, w: Write, n: nat, lead: string, taken: string)
    requires Everything(Close(l, w), n) == lead + taken
    ensures var r := Book(l, w);
            Everything(r.0, n) == lead + if r.1 then taken + LineOf(w) else taken
  {
    hide Assembled, Close, Day;
    var l1 := Close(l, w);
    var a, c := Assembled(l1.archive, n), BaseOf(l1);
    assert c + w.line + "\n" == c + LineOf(w) by {
      hide BaseOf;
    }
    assert a + (c + LineOf(w)) == (a + c) + LineOf(w) by {
      hide BaseOf, LineOf;
    }
    assert (lead + taken) + LineOf(w) == lead + (taken + LineOf(w)) by {
      hide LineOf;
    }
  }

  // ----- on the disk -----

  /** The contents of the files that carry the dates of the days before n, in the order of the dates. */
  function Chronicle(base: string, files: Files, n: nat): string {
    if n == 0 then ""
    else if Path(base, n - 1) in files then Chronicle(base, files, n - 1) + files[Path(base, n - 1)]
    else Chronicle(base, files, n - 1)
  }

  function Contents(files: Files, path: string): string {
    if path in files then files[path] else ""
  }

  lemma {:induction false} ChronicleIsAssembled(base: string, files: Files, archive: map<nat, string>, n: nat)
    requires forall day: nat | day < n :: Path(base, day) in files <==> day in archive
    requires forall day: nat | day < n && day in archive :: files[Path(base, day)] == archive[day]
    ensures Chronicle(base, files, n) == Assembled(archive, n)
  {
    hide Path;
    if n > 0 {
      ChronicleIsAssembled(base, files, archive, n - 1);
    }
  }

  /** Up to the year 9999, the order of the days is the order of the file names. */
  lemma NamesSortAsDays(base: string, m: nat, n: nat)
    requires CivilFromDays(m).year < 10000 && CivilFromDays(n).year < 10000
    ensures m < n <==> Precedes(Path(base, m), Path(base, n))
  {
    hide CivilFromDays, RotatedPath, Precedes, DaysSinceEpoch;
    CivilCountsDays(m);
    CivilCountsDays(n);
    CivilRespectsOrder(m, n);
    NamesSortAsDates(base, CivilFromDays(m), CivilFromDays(n));
  }

  /** Everything the writer keeps on the disk, in order: the dated files, then the base file. */
  function OnDisk(base: string, files: Files, n: nat): string {
    Chronicle(base, files, n) + Contents(files, base)
  }

  /** No dated file is from a day of the run. A clock that never went back leaves only earlier ones. */
  ghost predicate NoneDated(base: string, files: Files, run: Run, start: nat) {
    forall day: nat | start / SECS_PER_DAY <= day <= LastDay(run, start) :: Path(base, day) !in files
  }

  lemma DiskIsEverything(base: string, files0: Files, s: Log, l: Ledger, n: nat)
    requires Holds(base, files0, s, l)
    requires forall day: nat | day < n && Path(base, day) in files0 :: day in l.archive
    ensures OnDisk(base, s.files, n) == Everything(l, n)
  {
    hide Path, Assembled, Chronicle, Holds, Unrelated;
    HoldsParts(base, files0, s, l);
    HoldsArchive(base, files0, s, l);
    forall day: nat | day < n
      ensures Path(base, day) in s.files <==> day in l.archive
    {
      UnrelatedDay(base, l, day);
    }
    ChronicleIsAssembled(base, s.files, l.archive, n);
  }

  lemma {:induction false} ArchiveGrows(l0: Ledger, run: Run)
    ensures l0.archive.Keys <= BookAll(l0, run).archive.Keys
  {
    if run.Then? {
      ArchiveGrows(l0, run.before);
      hide Day;
    } else if run.Restarted? {
      ArchiveGrows(l0, run.before);
    }
  }

  /** From any disk without a file dated in the days of the run, through any restarts, and whatever renames
      and opens fail: while the clock does not go back, the dated files in the order of their dates and then
      the base file hold what they held before and then exactly the lines reported as written, in order. */
  lemma RotationConserves(base: string, files0: Files, run: Run, start: nat)
    requires InRange(run) && Nondecreasing(run, start) && NoneDated(base, files0, run, start)
    ensures var n := LastDay(run, start) + 1;
            OnDisk(base, After(base, files0, run).files, n) == OnDisk(base, files0, n) + Accepted(base, files0, run)
  {
    hide Path, Everything, Holds, OnDisk, LastDay, After, BookAll;
    var n := LastDay(run, start) + 1;
    assert Before(StartWith(base, files0, n), start / SECS_PER_DAY);
    var l0 := StartWith(base, files0, n);
    StartHolds(base, files0, n);
    LogHoldsLedger(base, files0, l0, run);
    ArchiveGrows(l0, run);
    DiskIsEverything(base, files0, Log(files0, None), l0, n);
    DiskIsEverything(base, files0, After(base, files0, run), BookAll(l0, run), n);
    LedgerConserves(l0, run, start, n);
    TakenIsAccepted(base, files0, l0, run);
  }
}
