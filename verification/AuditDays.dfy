/** What the audit log's files hold of each day.

    A call renames the base file if its handle was opened on another day and the rename succeeds; otherwise
    the call's line goes behind what the base file holds. From any disk, with any clock, any restarts and any
    failures, the theorems say which dated files a run replaces, when a file holds all of its day, and when
    each day has a file of its own.
 */
module AuditDays {
  import opened Wrappers
  import opened Calendar
  import opened AuditLog
  import opened AuditRuns

  // ----- the base file and the renames of a run -----

  /** The day of the open handle. */
  function OpenDay(run: Run): Option<nat> {
    match run
    case Start => None
    case Then(before, w) =>
      if OpenDay(before) == Some(Day(w)) then OpenDay(before)
      else if w.openOk then Some(Day(w))
      else None
    case Restarted(_) => None
  }

  /** The last call found the handle open and wrote its line, or opened it and wrote its line. */
  predicate Wrote(run: Run) {
    run.Then? && OpenDay(run).Some?
  }

  /** The last call renamed the base file to the day of the handle it found. */
  predicate Renames(run: Run) {
    && run.Then? && run.w.renameOk
    && OpenDay(run.before).Some? && OpenDay(run.before).value != Day(run.w)
  }

  function RenamedDay(run: Run): nat
    requires Renames(run)
  {
    OpenDay(run.before).value
  }

  /** What the base file holds; it held `lead` at the start. */
  function Current(run: Run, lead: string): string {
    match run
    case Start => lead
    case Then(before, w) =>
      var held := if Renames(run) then "" else Current(before, lead);
      if Wrote(run) then held + LineOf(w) else held
    case Restarted(before) => Current(before, lead)
  }

  /** The days the base file was renamed to, and those it was renamed to more than once. */
  function Renamed(run: Run): set<nat> {
    match run
    case Start => {}
    case Then(before, _) => if Renames(run) then Renamed(before) + {RenamedDay(run)} else Renamed(before)
    case Restarted(before) => Renamed(before)
  }

  function RenamedAgain(run: Run): set<nat> {
    match run
    case Start => {}
    case Then(before, _) =>
      if Renames(run) && RenamedDay(run) in Renamed(before) then RenamedAgain(before) + {RenamedDay(run)}
      else RenamedAgain(before)
    case Restarted(before) => RenamedAgain(before)
  }

  /** Everything the base file held when it was renamed to a day. */
  function RenamedLines(run: Run, lead: string, day: nat): string {
    match run
    case Start => ""
    case Then(before, _) =>
      if Renames(run) && RenamedDay(run) == day then RenamedLines(before, lead, day) + Current(before, lead)
      else RenamedLines(before, lead, day)
    case Restarted(before) => RenamedLines(before, lead, day)
  }

  lemma {:induction false} OpenMeansHeld(run: Run, lead: string)
    requires OpenDay(run).Some?
    ensures Current(run, lead) != ""
  {
    assert |LineOf(run.w)| >= 1;
  }

  lemma {:induction false} RenamedLinesIff(run: Run, lead: string, day: nat)
    ensures RenamedLines(run, lead, day) != "" <==> day in Renamed(run)
  {
    hide Day, Current;
    match run
    case Start =>
    case Then(before, _) =>
      RenamedLinesIff(before, lead, day);
      if Renames(run) {
        OpenMeansHeld(before, lead);
      }
    case Restarted(before) =>
      RenamedLinesIff(before, lead, day);
  }

  /** What an archive says of a day: all that was renamed to it exactly when that happened once. */
  ghost predicate Keeps(run: Run, lead: string, archive: map<nat, string>, day: nat) {
    && day in archive && |archive[day]| <= |RenamedLines(run, lead, day)|
    && (day !in RenamedAgain(run) ==> archive[day] == RenamedLines(run, lead, day))
    && (day in RenamedAgain(run) ==> |archive[day]| < |RenamedLines(run, lead, day)|)
  }

  lemma StayingKeeps(run: Run, lead: string, a: map<nat, string>, b: map<nat, string>, day: nat)
    requires run.Then? && day in b && Keeps(run.before, lead, a, day) && a[day] == b[day]
    requires !(Renames(run) && day == RenamedDay(run))
    ensures Keeps(run, lead, b, day)
  {
    hide Day, OpenDay;
  }

  lemma RenamingKeeps(run: Run, lead: string, archive: map<nat, string>)
    requires Renames(run) && RenamedAgain(run.before) <= Renamed(run.before)
    requires RenamedDay(run) in archive && archive[RenamedDay(run)] == Current(run.before, lead)
    ensures Keeps(run, lead, archive, RenamedDay(run))
  {
    hide Day, OpenDay, Current;
    RenamedLinesIff(run.before, lead, RenamedDay(run));
  }

  /** The ledger of a run in these terms. */
  ghost predicate Agrees(run: Run, lead: string, l: Ledger) {
    && BaseOf(l) == Current(run, lead) && l.open == OpenDay(run) && (l.open.Some? ==> l.base.Some?)
    && l.archive.Keys == Renamed(run) && RenamedAgain(run) <= Renamed(run)
    && forall d | d in Renamed(run) :: Keeps(run, lead, l.archive, d)
  }

  lemma StepAgrees(run: Run, lead: string, l: Ledger)
    requires run.Then? && Agrees(run.before, lead, l)
    ensures Agrees(run, lead, Book(l, run.w).0)
  {
    hide Day, Keeps, LineOf;
    var t := Book(l, run.w).0;
    var held := if Renames(run) then "" else Current(run.before, lead);
    assert held + run.w.line + "\n" == held + LineOf(run.w) by {
      LineConcat(held, run.w);
    }
    if Renames(run) {
      RenamingKeeps(run, lead, t.archive);
    }
    forall d | d in Renamed(run)
      ensures Keeps(run, lead, t.archive, d)
    {
      if !Renames(run) || d != RenamedDay(run) {
        KeptDay(run.before, lead, l.archive, d);
        StayingKeeps(run, lead, l.archive, t.archive, d);
      }
    }
  }

  lemma KeptDay(run: Run, lead: string, archive: map<nat, string>, day: nat)
    requires Keeps(run, lead, archive, day)
    ensures day in archive
  {
  }

  lemma LineConcat(held: string, w: Write)
    ensures held + w.line + "\n" == held + LineOf(w)
  {
  }

  lemma {:induction false} LedgerAgrees(l0: Ledger, run: Run)
    requires l0.archive == map[] && l0.open == None
    ensures Agrees(run, BaseOf(l0), BookAll(l0, run))
  {
    match run
    case Start =>
    case Then(before, w) =>
      LedgerAgrees(l0, before);
      hide Agrees;
      StepAgrees(run, BaseOf(l0), BookAll(l0, before));
    case Restarted(before) =>
      LedgerAgrees(l0, before);
      RestartAgrees(before, BaseOf(l0), BookAll(l0, before));
  }

  lemma RestartAgrees(run: Run, lead: string, l: Ledger)
    requires Agrees(run, lead, l)
    ensures Agrees(Restarted(run), lead, l.(open := None))
  {
    forall d | d in Renamed(run)
      ensures Keeps(Restarted(run), lead, l.archive, d)
    {
      assert Keeps(run, lead, l.archive, d);
    }
  }

  /** The lines counted as written are those of the calls that reported success. */
  lemma WroteIffReported(base: string, files0: Files, run: Run)
    requires run.Then? && InRange(run)
    ensures Wrote(run) <==> Step(base, After(base, files0, run.before), run.w).1
  {
    hide Path, InRange, Holds, Current, Renamed, RenamedAgain, Step, Day;
    var l0 := StartWith(base, files0, 0);
    StartHolds(base, files0, 0);
    LogHoldsLedger(base, files0, l0, run);
    LedgerAgrees(l0, run.before);
  }

  // ----- which files a run replaces, and when a file is complete -----

  /** Under the date of a day the disk holds what the base file held when it was renamed to that day last,
      or else what was there before. */
  lemma DatedFileIs(base: string, files0: Files, run: Run, day: nat)
    requires InRange(run)
    ensures var files, lead := After(base, files0, run).files, Contents(files0, base);
            if day in Renamed(run) then
              && Path(base, day) in files
              && (files[Path(base, day)] == RenamedLines(run, lead, day) <==> day !in RenamedAgain(run))
            else SameAt(files, files0, Path(base, day))
  {
    hide Path, BookAll, Renamed, RenamedAgain, RenamedLines, Current, OpenDay, SameAt;
    LedgerAgrees(StartWith(base, files0, 0), run);
    ArchiveOnDisk(base, files0, run, day);
  }

  /** With any disk, any clock, any restarts and any failures: the file of a day the base file was renamed to
      holds all it held at those times exactly when it was renamed to that day once. */
  lemma CompleteIffRenamedOnce(base: string, files0: Files, run: Run, day: nat)
    requires InRange(run) && day in Renamed(run)
    ensures var files := After(base, files0, run).files;
            && Path(base, day) in files
            && (files[Path(base, day)] == RenamedLines(run, Contents(files0, base), day) <==> day !in RenamedAgain(run))
  {
    hide Path, Renamed, RenamedAgain, RenamedLines;
    DatedFileIs(base, files0, run, day);
  }

  /** A dated file with some content that was there before is there after the run. */
  predicate Kept(base: string, files0: Files, run: Run, day: nat, content: string) {
    var files := After(base, files0[Path(base, day) := content], run).files;
    Path(base, day) in files && files[Path(base, day)] == content
  }

  lemma KeptIff(base: string, files0: Files, run: Run, day: nat, content: string)
    requires InRange(run)
    ensures var l := BookAll(StartWith(base, files0, 0), run);
            Kept(base, files0, run, day, content) <==> (day in l.archive ==> content == l.archive[day])
  {
    hide Path, After, BookAll;
    var files1 := files0[Path(base, day) := content];
    PathInjective(base, day, day);
    assert StartWith(base, files1, 0) == StartWith(base, files0, 0) by {
      assert Dated(base, files1, 0) == map[] == Dated(base, files0, 0);
    }
    ArchiveOnDisk(base, files1, run, day);
  }

  /** A dated file that was there before is kept, whatever is in it, exactly when the run does not rename the
      base file to its day. */
  lemma KeptIffNotRenamed(base: string, files0: Files, run: Run, day: nat)
    requires InRange(run)
    ensures (forall c :: Kept(base, files0, run, day, c)) <==> day !in Renamed(run)
  {
    hide Kept, BookAll, Renamed, OpenDay, Current, RenamedAgain, RenamedLines;
    LedgerAgrees(StartWith(base, files0, 0), run);
    var l := BookAll(StartWith(base, files0, 0), run);
    forall c
      ensures Kept(base, files0, run, day, c) <==> (day in l.archive ==> c == l.archive[day])
    {
      KeptIff(base, files0, run, day, c);
    }
    if day in l.archive {
      var c := l.archive[day] + "x";
      assert |c| > |l.archive[day]|;
      assert !Kept(base, files0, run, day, c);
    }
  }

  lemma BaseIsCurrent(base: string, files0: Files, run: Run)
    requires InRange(run)
    ensures Contents(After(base, files0, run).files, base) == Current(run, Contents(files0, base))
  {
    hide Path, Current, InRange, After, BookAll, Holds, Renamed, OpenDay, RenamedAgain;
    var l0 := StartWith(base, files0, 0);
    StartHolds(base, files0, 0);
    LogHoldsLedger(base, files0, l0, run);
    HoldsParts(base, files0, After(base, files0, run), BookAll(l0, run));
    LedgerAgrees(l0, run);
  }

  /** A clock that reads day 0, day 1, day 0 and day 1: the base file is renamed to day 0 twice, and the file
      of that day is not complete. */
  lemma LostOnReturn(base: string)
    ensures var a, b := Write("a", 0, true, true), Write("b", SECS_PER_DAY, true, true);
            var run := Then(Then(Then(Then(Start, a), b), a), b);
            var files := After(base, map[], run).files;
            0 in RenamedAgain(run) && Path(base, 0) in files && files[Path(base, 0)] != RenamedLines(run, "", 0)
  {
    hide Path, After, RenamedLines;
    var a, b := Write("a", 0, true, true), Write("b", SECS_PER_DAY, true, true);
    var r2 := Then(Then(Start, a), b);
    var r3 := Then(r2, a);
    assert Day(a) == 0 && Day(b) == 1;
    hide Day;
    assert OpenDay(Then(Start, a)) == Some(0) && OpenDay(r2) == Some(1) && OpenDay(r3) == Some(0);
    assert Renamed(r2) == {0};
    assert 0 in Renamed(r3) && Renames(Then(r3, b));
    CompleteIffRenamedOnce(base, map[], Then(r3, b), 0);
  }

  // ----- one file for each day -----

  /** The written lines of a day. */
  function LinesOf(run: Run, day: nat): string {
    match run
    case Start => ""
    case Then(before, w) =>
      if Wrote(run) && Day(w) == day then LinesOf(before, day) + LineOf(w) else LinesOf(before, day)
    case Restarted(before) => LinesOf(before, day)
  }

  /** The day of the first written line. */
  function FirstDay(run: Run): Option<nat> {
    match run
    case Start => None
    case Then(before, w) => if FirstDay(before).Some? || !Wrote(run) then FirstDay(before) else Some(Day(w))
    case Restarted(before) => FirstDay(before)
  }

  /** The day of the last line in the base file that the run has written. */
  function BaseDay(run: Run): Option<nat> {
    match run
    case Start => None
    case Then(before, w) =>
      if Wrote(run) then Some(Day(w)) else if Renames(run) then None else BaseDay(before)
    case Restarted(before) => BaseDay(before)
  }

  /** The last call wrote its line behind lines of another day. */
  predicate Mixes(run: Run) {
    && Wrote(run) && !Renames(run)
    && BaseDay(run.before).Some? && BaseDay(run.before).value != Day(run.w)
  }

  /** The days whose lines are followed by those of another day in the same file. */
  function Mixed(run: Run): set<nat> {
    match run
    case Start => {}
    case Then(before, _) => if Mixes(run) then Mixed(before) + {BaseDay(before).value} else Mixed(before)
    case Restarted(before) => Mixed(before)
  }

  /** What was left over in the base file stays in front of the first written line. */
  function LinesWith(run: Run, lead: string, day: nat): string {
    if FirstDay(run) == Some(day) then lead + LinesOf(run, day) else LinesOf(run, day)
  }

  /** An open handle has written its day's lines to the base file; if the run has written lines and none is
      in the base file, the base file is empty or gone. */
  lemma {:induction false} BaseDayIs(run: Run, lead: string)
    ensures OpenDay(run).Some? ==> BaseDay(run) == OpenDay(run)
    ensures BaseDay(run).Some? ==> FirstDay(run).Some? && LinesOf(run, BaseDay(run).value) != ""
    ensures FirstDay(run).Some? && BaseDay(run).None? ==> Current(run, lead) == ""
    ensures FirstDay(run).None? ==> Current(run, lead) == lead
  {
    match run
    case Start =>
    case Then(before, w) =>
      BaseDayIs(before, lead);
      assert |LineOf(w)| >= 1;
      hide Day, LineOf;
    case Restarted(before) =>
      BaseDayIs(before, lead);
  }

  lemma {:induction false} NothingWritten(run: Run, lead: string, day: nat)
    requires FirstDay(run).None?
    ensures LinesOf(run, day) == "" && RenamedLines(run, lead, day) == ""
    ensures OpenDay(run).None? && BaseDay(run).None?
  {
    hide Day;
    match run
    case Start =>
    case Then(before, _) =>
      NothingWritten(before, lead, day);
    case Restarted(before) =>
      NothingWritten(before, lead, day);
  }

  lemma LinesStep(run: Run, lead: string, day: nat)
    requires run.Then? && FirstDay(run.before).Some?
    ensures LinesWith(run, lead, day)
         == if Wrote(run) && Day(run.w) == day then LinesWith(run.before, lead, day) + LineOf(run.w)
            else LinesWith(run.before, lead, day)
  {
    hide Day, LineOf, OpenDay;
    assert (lead + LinesOf(run.before, day)) + LineOf(run.w) == lead + (LinesOf(run.before, day) + LineOf(run.w));
  }

  /** The lines of a day that were renamed to it and those that are in the base file. */
  function Whereabouts(run: Run, lead: string, day: nat): string {
    var renamed := RenamedLines(run, lead, day);
    if BaseDay(run) == Some(day) then renamed + Current(run, lead) else renamed
  }

  lemma FirstWrite(run: Run, lead: string, day: nat)
    requires run.Then? && FirstDay(run.before).None?
    ensures LinesWith(run, lead, day) == Whereabouts(run, lead, day)
  {
    hide LineOf, Day;
    NothingWritten(run.before, lead, day);
    BaseDayIs(run.before, lead);
    assert "" + LineOf(run.w) == LineOf(run.w) && "" + Current(run, lead) == Current(run, lead);
  }

  lemma StepParts(run: Run, lead: string, day: nat)
    requires run.Then?
    ensures RenamedLines(run, lead, day)
         == if Renames(run) && RenamedDay(run) == day then
              RenamedLines(run.before, lead, day) + Current(run.before, lead)
            else RenamedLines(run.before, lead, day)
    ensures Current(run, lead)
         == if Renames(run) then (if Wrote(run) then LineOf(run.w) else "")
            else if Wrote(run) then Current(run.before, lead) + LineOf(run.w) else Current(run.before, lead)
    ensures BaseDay(run)
         == if Wrote(run) then Some(Day(run.w)) else if Renames(run) then None else BaseDay(run.before)
    ensures Renames(run) ==> BaseDay(run.before) == Some(RenamedDay(run)) && RenamedDay(run) != Day(run.w)
  {
    BaseDayIs(run.before, lead);
    hide Day, LineOf;
    assert "" + LineOf(run.w) == LineOf(run.w);
  }

  lemma NextWrite(run: Run, lead: string, day: nat)
    requires run.Then? && FirstDay(run.before).Some? && !Mixes(run)
    requires LinesWith(run.before, lead, day) == Whereabouts(run.before, lead, day)
    ensures LinesWith(run, lead, day) == Whereabouts(run, lead, day)
  {
    hide LineOf, Day, LinesWith, OpenDay, FirstDay, RenamedLines, Current, BaseDay, Wrote, Renames;
    var before := run.before;
    LinesStep(run, lead, day);
    BaseDayIs(before, lead);
    StepParts(run, lead, day);
    var renamed, current, line := RenamedLines(before, lead, day), Current(before, lead), LineOf(run.w);
    assert (renamed + current) + line == renamed + (current + line);
    assert "" + line == line && renamed + "" == renamed;
  }

  /** If no line follows lines of another day, a day's lines are those renamed to it and those in the base file. */
  lemma {:induction false} LinesAreThere(run: Run, lead: string, day: nat)
    requires Mixed(run) == {}
    ensures LinesWith(run, lead, day) == Whereabouts(run, lead, day)
  {
    hide Day, LineOf, LinesWith, Whereabouts, OpenDay;
    match run
    case Start =>
      assert LinesWith(run, lead, day) == "" == Whereabouts(run, lead, day) by {
        StartLines(lead, day);
      }
    case Then(before, _) =>
      LinesAreThere(before, lead, day);
      if FirstDay(before).Some? {
        NextWrite(run, lead, day);
      } else {
        FirstWrite(run, lead, day);
      }
    case Restarted(before) =>
      LinesAreThere(before, lead, day);
      RestartLines(before, lead, day);
  }

  lemma StartLines(lead: string, day: nat)
    ensures LinesWith(Start, lead, day) == "" == Whereabouts(Start, lead, day)
  {
  }

  lemma RestartLines(run: Run, lead: string, day: nat)
    ensures LinesWith(Restarted(run), lead, day) == LinesWith(run, lead, day)
    ensures Whereabouts(Restarted(run), lead, day) == Whereabouts(run, lead, day)
  {
  }

  /** A clock that does not go back: the base file is renamed to each day at most once, in order, and always
      holds later days. */
  lemma {:induction false} ForwardClock(run: Run, start: nat)
    requires Nondecreasing(run, start)
    ensures RenamedAgain(run) == {} && start <= Latest(run, start)
    ensures forall d | d in Renamed(run) :: start / SECS_PER_DAY <= d < LastDay(run, start)
    ensures BaseDay(run).Some? ==>
              && start / SECS_PER_DAY <= BaseDay(run).value <= LastDay(run, start)
              && forall d | d in Renamed(run) :: d < BaseDay(run).value
  {
    match run
    case Start =>
    case Then(before, w) =>
      ForwardClock(before, start);
      LatestGrows(run, start);
      BaseDayIs(before, "");
      assert LastDay(run, start) == Day(w);
      assert start / SECS_PER_DAY <= LastDay(before, start);
      hide Day, LastDay, Nondecreasing, LinesOf, LineOf;
    case Restarted(before) =>
      ForwardClock(before, start);
  }

  lemma {:induction false} NoOtherLines(run: Run, start: nat, day: nat)
    requires Nondecreasing(run, start)
    ensures day > LastDay(run, start) || day < start / SECS_PER_DAY ==> LinesOf(run, day) == ""
  {
    match run
    case Start =>
    case Then(before, w) =>
      ForwardClock(run, start);
      NoOtherLines(before, start, day);
      LatestGrows(run, start);
      assert LastDay(run, start) == Day(w) >= start / SECS_PER_DAY;
      hide Day, LastDay, Nondecreasing;
    case Restarted(before) =>
      NoOtherLines(before, start, day);
  }

  /** Then a day that is mixed with a later one has lines and never gets a file. */
  lemma {:induction false} MixedNeverRenamed(run: Run, start: nat, day: nat)
    requires Nondecreasing(run, start) && day in Mixed(run)
    ensures start / SECS_PER_DAY <= day < LastDay(run, start) && day !in Renamed(run) && LinesOf(run, day) != ""
    ensures BaseDay(run).Some? ==> BaseDay(run).value > day
  {
    match run
    case Then(before, w) =>
      ForwardClock(before, start);
      LatestGrows(run, start);
      BaseDayIs(before, "");
      assert LastDay(run, start) == Day(w);
      if day in Mixed(before) {
        MixedNeverRenamed(before, start, day);
      }
      hide Day, LastDay, Nondecreasing, LineOf;
    case Restarted(before) =>
      MixedNeverRenamed(before, start, day);
  }

  lemma {:induction false} RenamedHasLines(run: Run, day: nat)
    requires day in Renamed(run)
    ensures LinesOf(run, day) != ""
  {
    hide Day;
    match run
    case Then(before, _) =>
      if day in Renamed(before) {
        RenamedHasLines(before, day);
      } else {
        BaseDayIs(before, "");
      }
    case Restarted(before) =>
      RenamedHasLines(before, day);
  }

  /** The file in which a day's lines should be: the base file if the last of them are there. */
  function FileOf(base: string, run: Run, day: nat): string {
    if BaseDay(run) == Some(day) then base else Path(base, day)
  }

  /** Each day's lines are alone in the file of that day; the first ones follow what was left over. */
  ghost predicate FiledByDay(base: string, files0: Files, files: Files, run: Run) {
    forall d: nat | LinesOf(run, d) != "" ::
      && FileOf(base, run, d) in files
      && files[FileOf(base, run, d)] == LinesWith(run, Contents(files0, base), d)
  }

  lemma OldFilesStay(base: string, files0: Files, run: Run, start: nat)
    requires InRange(run) && Nondecreasing(run, start) && NoneDated(base, files0, run, start)
    ensures var files, last := After(base, files0, run).files, LastDay(run, start);
            && (forall p | p in files0 && p != base :: p in files && files[p] == files0[p])
            && (forall p | p in files && p !in files0 && p != base ::
                  exists d: nat :: p == Path(base, d) && d < last && LinesOf(run, d) != "")
  {
    hide Path, LastDay, LinesOf, Renamed, Nondecreasing, InRange, After, BookAll, Holds, OpenDay, BaseDay, Current,
         RenamedAgain;
    var l0 := StartWith(base, files0, 0);
    var s, l := After(base, files0, run), BookAll(l0, run);
    StartHolds(base, files0, 0);
    LogHoldsLedger(base, files0, l0, run);
    HoldsArchive(base, files0, s, l);
    LedgerAgrees(l0, run);
    ForwardClock(run, start);
    forall d: nat | d in l.archive
      ensures LinesOf(run, d) != "" && Path(base, d) !in files0
    {
      RenamedHasLines(run, d);
    }
    forall p | p in files0 && p != base
      ensures Unrelated(base, l, p)
    {
    }
    forall p | p in s.files && p !in files0 && p != base
      ensures exists d: nat :: p == Path(base, d) && d < LastDay(run, start) && LinesOf(run, d) != ""
    {
      assert !Unrelated(base, l, p);
    }
  }

  lemma DayIsFiled(base: string, files0: Files, run: Run, start: nat, day: nat)
    requires InRange(run) && Nondecreasing(run, start) && Mixed(run) == {} && LinesOf(run, day) != ""
    ensures var files, file := After(base, files0, run).files, FileOf(base, run, day);
            file in files && files[file] == LinesWith(run, Contents(files0, base), day)
  {
    hide Path, LastDay, Current, RenamedLines, LinesOf, Renamed, RenamedAgain, Mixed, Nondecreasing, InRange, After,
         FirstDay, BaseDay;
    var lead := Contents(files0, base);
    ForwardClock(run, start);
    LinesAreThere(run, lead, day);
    RenamedLinesIff(run, lead, day);
    assert LinesWith(run, lead, day) != "";
    if BaseDay(run) == Some(day) {
      BaseIsCurrent(base, files0, run);
      assert RenamedLines(run, lead, day) == "";
      assert LinesWith(run, lead, day) == Current(run, lead);
    } else {
      CompleteIffRenamedOnce(base, files0, run, day);
    }
  }

  /** While the clock does not go back, from any disk without a file dated in the days of the run, through any
      restarts and failures: all other files stay as they were, each new file carries the date of an earlier day
      with lines, and the disk grows by every written line in order. Each day's lines are alone in the file
      of their day exactly when no line was written behind lines of another day. */
  lemma OneFilePerDay(base: string, files0: Files, run: Run, start: nat)
    requires InRange(run) && Nondecreasing(run, start) && NoneDated(base, files0, run, start)
    ensures var files, last := After(base, files0, run).files, LastDay(run, start);
            && (forall p | p in files0 && p != base :: p in files && files[p] == files0[p])
            && (forall p | p in files && p !in files0 && p != base ::
                  exists d: nat :: p == Path(base, d) && d < last && LinesOf(run, d) != "")
            && OnDisk(base, files, last + 1) == OnDisk(base, files0, last + 1) + Accepted(base, files0, run)
            && (FiledByDay(base, files0, files, run) <==> Mixed(run) == {})
  {
    hide Path, OnDisk, LastDay, LinesOf, LinesWith, Renamed, RenamedAgain, RenamedLines, Mixed, Nondecreasing, InRange,
         Accepted, After, BaseDay;
    RotationConserves(base, files0, run, start);
    OldFilesStay(base, files0, run, start);
    if Mixed(run) == {} {
      forall d: nat | LinesOf(run, d) != ""
        ensures FileOf(base, run, d) in After(base, files0, run).files
        ensures After(base, files0, run).files[FileOf(base, run, d)] == LinesWith(run, Contents(files0, base), d)
      {
        DayIsFiled(base, files0, run, start, d);
      }
    } else {
      var d :| d in Mixed(run);
      MixedNeverRenamed(run, start, d);
      DatedFileIs(base, files0, run, d);
      assert FileOf(base, run, d) == Path(base, d);
    }
  }

  // ----- what mixes days -----

  /** No process restart, and no failing rename. */
  predicate Undisturbed(run: Run) {
    match run
    case Start => true
    case Then(before, w) => w.renameOk && Undisturbed(before)
    case Restarted(_) => false
  }

  /** Without a restart and a failing rename, no days are mixed, whatever the clock and the opens do. */
  lemma {:induction false} UndisturbedDaysStayApart(run: Run)
    requires Undisturbed(run)
    ensures Mixed(run) == {}
    ensures BaseDay(run).Some? ==> OpenDay(run) == BaseDay(run)
  {
    if run.Then? {
      UndisturbedDaysStayApart(run.before);
      hide Day;
    }
  }

  /** A restart, or a failing rename, between a write on day 0 and one on day 1 puts both into one file. */
  lemma RestartMixesDays(base: string)
    ensures var a, b := Write("a", 0, true, true), Write("b", SECS_PER_DAY, true, true);
            var run := Then(Restarted(Then(Start, a)), b);
            Mixed(run) == {0} && !FiledByDay(base, map[], After(base, map[], run).files, run)
  {
    hide Path, After, FiledByDay;
    var a, b := Write("a", 0, true, true), Write("b", SECS_PER_DAY, true, true);
    var before := Restarted(Then(Start, a));
    assert Day(a) == 0 && Day(b) == 1;
    assert BaseDay(before) == Some(0);
    assert Latest(before, 0) == 0;
    OneFilePerDay(base, map[], Then(before, b), 0);
  }

  lemma FailedRenameMixesDays(base: string)
    ensures var a, b := Write("a", 0, true, true), Write("b", SECS_PER_DAY, false, true);
            var run := Then(Then(Start, a), b);
            Mixed(run) == {0} && !FiledByDay(base, map[], After(base, map[], run).files, run)
  {
    hide Path, After, FiledByDay;
    var a, b := Write("a", 0, true, true), Write("b", SECS_PER_DAY, false, true);
    var before := Then(Start, a);
    assert Day(a) == 0 && Day(b) == 1;
    assert BaseDay(before) == Some(0);
    OneFilePerDay(base, map[], Then(before, b), 0);
  }
}
