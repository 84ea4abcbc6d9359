/** Health checks of backends.

    Every added backend starts a prober of its own, and every prober probes all backends of the tunnel and
    counts the failures in a row that it has seen itself. All of them write the same flag.
 */
module Health {

  const THRESHOLD := 3

  type Id = nat

  // ----- one prober -----

  class Prober {
    var failCounts: map<string, nat>

    constructor ()
      ensures failCounts == map[]
    {
      failCounts := map[];
    }

    /** What a probe does to the flag of a backend. */
    method Record(backend: string, ok: bool, healthy: bool) returns (r: bool)
      modifies this
      ensures failCounts == Counted(old(failCounts), backend, ok)
      ensures r == Flag(healthy, ok, Failures(old(failCounts), backend))
    {
      if ok {
        r := true;
        failCounts := failCounts - {backend};
      } else {
        if backend !in failCounts {
          failCounts := failCounts[backend := 0];
        }
        failCounts := failCounts[backend := failCounts[backend] + 1];
        r := if failCounts[backend] >= THRESHOLD then false else healthy;
      }
    }
  }

  function Failures(counts: map<string, nat>, backend: string): nat {
    if backend in counts then counts[backend] else 0
  }

  function Counted(counts: map<string, nat>, backend: string, ok: bool): map<string, nat> {
    if ok then counts - {backend} else counts[backend := Failures(counts, backend) + 1]
  }

  /** The flag after a probe by a prober that has seen `fails` failures in a row. */
  predicate Flag(healthy: bool, ok: bool, fails: nat) {
    if ok then true else if fails + 1 >= THRESHOLD then false else healthy
  }

  // ----- probes of one backend, one after the other -----

  /** The probes so far, oldest first: who probed and whether it succeeded. */
  datatype Run = Start | Then(before: Run, prober: Id, ok: bool)

  /** The failures in a row that a prober has seen at the end of a run. */
  function Trailing(run: Run, p: Id): nat {
    match run
    case Start => 0
    case Then(before, q, ok) =>
      if q != p then Trailing(before, p) else if ok then 0 else Trailing(before, p) + 1
  }

  /** The flag after a run. It starts as healthy. */
  predicate Healthy(run: Run) {
    match run
    case Start => true
    case Then(before, p, ok) => Flag(Healthy(before), ok, Trailing(before, p))
  }

  /** Whether a prober has failed since anyone's last success. */
  predicate FailedSinceSuccess(run: Run, p: Id) {
    match run
    case Start => false
    case Then(before, q, ok) => !ok && (q == p || FailedSinceSuccess(before, p))
  }

  /** Three failures in a row, the last of them after the last success anyone has seen. */
  predicate Condemns(run: Run, p: Id) {
    Trailing(run, p) >= THRESHOLD && FailedSinceSuccess(run, p)
  }

  /** A backend is unhealthy exactly when some prober has seen three failures in a row, the last of them
      after the last success anyone has seen. */
  lemma {:induction false} UnhealthyIff(run: Run)
    ensures !Healthy(run) <==> exists p :: Condemns(run, p)
  {
    match run
    case Start =>
    case Then(before, q, ok) =>
      UnhealthyIff(before);
      if p :| Condemns(run, p) {
        assert p == q || Condemns(before, p);
      }
      if !ok && !Healthy(before) {
        var p :| Condemns(before, p);
        assert Condemns(run, p);
      } else if !ok && Trailing(before, q) + 1 >= THRESHOLD {
        assert Condemns(run, q);
      }
  }

  predicate OneProber(run: Run, p: Id) {
    run.Then? ==> run.prober == p && OneProber(run.before, p)
  }

  /** With one prober, unhealthy means that the last three probes failed. */
  lemma {:induction false} OneProberIff(run: Run, p: Id)
    requires OneProber(run, p)
    ensures !Healthy(run) <==> Trailing(run, p) >= THRESHOLD
  {
    if run.Then? {
      OneProberIff(run.before, p);
    }
  }

  /** With two, a backend can be marked although no two probes in a row have failed. */
  lemma MarkedWithoutTwoInARow()
    ensures var run := Then(Then(Then(Then(Then(Start, 0, false), 1, true), 0, false), 1, true), 0, false);
            !Healthy(run)
  {
    var r1 := Then(Then(Start, 0, false), 1, true);
    var r2 := Then(Then(r1, 0, false), 1, true);
    assert Trailing(r1, 0) == 1;
    assert Trailing(r2, 0) == 2;
  }

  predicate ProbersBelow(run: Run, k: nat) {
    run.Then? ==> run.prober < k && ProbersBelow(run.before, k)
  }

  /** The last three probes, whoever made them, have failed. */
  predicate LastThreeFailed(run: Run) {
    && run.Then? && !run.ok
    && run.before.Then? && !run.before.ok
    && run.before.before.Then? && !run.before.before.ok
  }

  lemma {:induction false} BelowOne(run: Run)
    requires ProbersBelow(run, 1)
    ensures OneProber(run, 0)
  {
    if run.Then? {
      BelowOne(run.before);
    }
  }

  lemma OneProberThree(run: Run)
    requires ProbersBelow(run, 1)
    ensures !Healthy(run) <==> LastThreeFailed(run)
  {
    BelowOne(run);
    OneProberIff(run, 0);
    TrailingFailures(run, 2);
    if run.Then? {
      TrailingFailures(run.before, 1);
      if run.before.Then? {
        TrailingFailures(run.before.before, 0);
      }
    }
  }

  lemma TrailingFailures(run: Run, n: nat)
    requires OneProber(run, 0)
    ensures Trailing(run, 0) > n <==> run.Then? && !run.ok && Trailing(run.before, 0) >= n
    ensures run.Then? ==> OneProber(run.before, 0)
  {
  }

  /** That a mark means three failures in a row, and that three failures in a row mean a mark, each holds in
      all runs of k probers exactly if there is at most one. */
  lemma ThreeInARowIff(k: nat)
    ensures (forall run | ProbersBelow(run, k) :: !Healthy(run) ==> LastThreeFailed(run)) <==> k <= 1
    ensures (forall run | ProbersBelow(run, k) :: LastThreeFailed(run) ==> !Healthy(run)) <==> k <= 1
  {
    if k <= 1 {
      forall run | ProbersBelow(run, k)
        ensures !Healthy(run) <==> LastThreeFailed(run)
      {
        MoreProbers(run, k, 1);
        OneProberThree(run);
      }
    } else {
      var marked := Then(Then(Then(Then(Then(Start, 0, false), 1, true), 0, false), 1, true), 0, false);
      MarkedWithoutTwoInARow();
      assert ProbersBelow(marked, 2);
      MoreProbers(marked, 2, k);
      var unmarked := Then(Then(Then(Start, 0, false), 1, false), 0, false);
      assert ProbersBelow(unmarked, 2) && LastThreeFailed(unmarked) && Healthy(unmarked);
      MoreProbers(unmarked, 2, k);
    }
  }

  lemma {:induction false} MoreProbers(run: Run, j: nat, k: nat)
    requires ProbersBelow(run, j) && j <= k
    ensures ProbersBelow(run, k)
  {
    if run.Then? {
      MoreProbers(run.before, j, k);
    }
  }

  // ----- probes of many backends -----

  /** The probes of all backends, oldest first. */
  datatype History = Nothing | Probed(before: History, prober: Id, backend: string, ok: bool)

  /** The counts that a prober holds after its recorded probes. */
  function CountsOf(history: History, p: Id): map<string, nat> {
    match history
    case Nothing => map[]
    case Probed(before, q, backend, ok) =>
      if q == p then Counted(CountsOf(before, p), backend, ok) else CountsOf(before, p)
  }

  /** The flag of a backend after recorded probes. */
  predicate FlagOf(history: History, b: string) {
    match history
    case Nothing => true
    case Probed(before, p, backend, ok) =>
      if backend == b then Flag(FlagOf(before, b), ok, Failures(CountsOf(before, p), b)) else FlagOf(before, b)
  }

  function OfBackend(history: History, b: string): Run {
    match history
    case Nothing => Start
    case Probed(before, p, backend, ok) =>
      if backend == b then Then(OfBackend(before, b), p, ok) else OfBackend(before, b)
  }

  /** Recorded probe by probe, the counts are the failures in a row of each backend, and its flag is that of
      its own probes: other backends do not matter. */
  lemma {:induction false} RecordsCount(history: History, p: Id, b: string)
    ensures Failures(CountsOf(history, p), b) == Trailing(OfBackend(history, b), p)
    ensures FlagOf(history, b) == Healthy(OfBackend(history, b))
  {
    if history.Probed? {
      RecordsCount(history.before, p, b);
      RecordsCount(history.before, history.prober, b);
    }
  }

  // ----- probes that overlap -----

  /** A probe has an effect on the shared flag and one on the prober's own count. A success stores the flag
      first; a failure counts first. Other probers' effects may come between the two. */
  datatype Step = Succeed(p: Id) | Clear(p: Id) | Fail(p: Id) | Mark(p: Id)

  datatype Phase = Idle | Clearing | Marking

  datatype Progress = Progress(fails: nat, phase: Phase)

  datatype State = State(healthy: bool, probers: map<Id, Progress>)

  function Get(s: State, p: Id): Progress {
    if p in s.probers then s.probers[p] else Progress(0, Idle)
  }

  function Put(s: State, p: Id, fails: nat, phase: Phase, healthy: bool): State {
    State(healthy, s.probers[p := Progress(fails, phase)])
  }

  predicate Enabled(s: State, step: Step) {
    match step
    case Succeed(p) => Get(s, p).phase.Idle?
    case Clear(p) => Get(s, p).phase.Clearing?
    case Fail(p) => Get(s, p).phase.Idle?
    case Mark(p) => Get(s, p).phase.Marking?
  }

  function Apply(s: State, step: Step): State {
    match step
    case Succeed(p) => Put(s, p, Get(s, p).fails, Clearing, true)
    case Clear(p) => Put(s, p, 0, Idle, s.healthy)
    case Fail(p) =>
      var fails := Get(s, p).fails + 1;
      Put(s, p, fails, if fails >= THRESHOLD then Marking else Idle, s.healthy)
    case Mark(p) => Put(s, p, Get(s, p).fails, Idle, false)
  }

  ghost predicate Reached(s: State, steps: seq<Step>, t: State)
    decreases |steps|
  {
    if steps == [] then s == t
    else Enabled(s, steps[0]) && Reached(Apply(s, steps[0]), steps[1..], t)
  }

  /** A prober that has seen enough failures and has not just succeeded. */
  predicate Blames(s: State, p: Id) {
    Get(s, p).fails >= THRESHOLD && !Get(s, p).phase.Clearing?
  }

  ghost predicate Justified(s: State) {
    && (!s.healthy ==> exists p :: Blames(s, p))
    && forall p :: Get(s, p).phase.Marking? ==> Get(s, p).fails >= THRESHOLD
  }

  lemma JustifiedStep(s: State, step: Step)
    requires Justified(s) && Enabled(s, step)
    ensures Justified(Apply(s, step))
  {
    var t := Apply(s, step);
    forall q | q != step.p
      ensures Get(t, q) == Get(s, q)
    {
    }
    if !t.healthy && !step.Mark? {
      var p :| Blames(s, p);
      assert Blames(t, p);
    } else if step.Mark? {
      assert Blames(t, step.p);
    }
  }

  /** However the effects of overlapping probes interleave, an unhealthy backend always has a prober whose
      last three probes failed. */
  lemma {:induction false} AlwaysJustified(s: State, steps: seq<Step>, t: State)
    requires Justified(s) && Reached(s, steps, t)
    ensures Justified(t)
    decreases |steps|
  {
    if steps != [] {
      JustifiedStep(s, steps[0]);
      AlwaysJustified(Apply(s, steps[0]), steps[1..], t);
    }
  }

  lemma UnhealthyIsJustified(steps: seq<Step>, t: State)
    requires Reached(State(true, map[]), steps, t) && !t.healthy
    ensures exists p :: Blames(t, p)
  {
    AlwaysJustified(State(true, map[]), steps, t);
  }

  /** The effects of one probe in a row. */
  function Effects(s: State, p: Id, ok: bool): seq<Step> {
    if ok then [Succeed(p), Clear(p)]
    else if Enabled(Apply(s, Fail(p)), Mark(p)) then [Fail(p), Mark(p)]
    else [Fail(p)]
  }

  lemma {:induction false} ReachedAppend(s: State, a: seq<Step>, t: State, b: seq<Step>, u: State)
    requires Reached(s, a, t) && Reached(t, b, u)
    ensures Reached(s, a + b, u)
    decreases |a|
  {
    if a == [] {
      assert a + b == b;
    } else {
      assert (a + b)[1..] == a[1..] + b;
      ReachedAppend(Apply(s, a[0]), a[1..], t, b, u);
    }
  }

  /** A probe whose effects nothing separates changes flag and count as a recorded probe does. */
  lemma ProbeReaches(s: State, p: Id, ok: bool) returns (t: State)
    requires Get(s, p).phase.Idle?
    ensures Reached(s, Effects(s, p, ok), t)
    ensures t.healthy == Flag(s.healthy, ok, Get(s, p).fails)
    ensures Get(t, p) == Progress(if ok then 0 else Get(s, p).fails + 1, Idle)
    ensures forall q | q != p :: Get(t, q) == Get(s, q)
  {
    var steps := Effects(s, p, ok);
    var t1 := Apply(s, steps[0]);
    t := if |steps| == 1 then t1 else Apply(t1, steps[1]);
    assert steps[1..] == if |steps| == 1 then [] else [steps[1]];
    assert Reached(t, [], t);
    assert |steps| == 2 ==> Reached(t1, [steps[1]], t);
  }

  /** If no two probes overlap, the interleaved system ends as the recorded run says: the flag of the run, and
      the failures in a row that each prober has seen. */
  lemma {:induction false} RunAlone(run: Run) returns (steps: seq<Step>, t: State)
    ensures Reached(State(true, map[]), steps, t)
    ensures t.healthy == Healthy(run) && forall p :: Get(t, p) == Progress(Trailing(run, p), Idle)
  {
    match run
    case Start => steps, t := [], State(true, map[]);
    case Then(before, q, ok) =>
      hide Reached, Apply;
      var earlier, s := RunAlone(before);
      t := ProbeReaches(s, q, ok);
      steps := earlier + Effects(s, q, ok);
      ReachedAppend(State(true, map[]), earlier, s, Effects(s, q, ok), t);
  }
}
