/** The latency histogram, observed by many requests at once.

    An observation is a row of separate atomic additions: the count, the sum, then each bucket whose bound
    is not below the value, in order. Additions of different observations interleave freely.
 */
module Histogram {
  import opened Wrappers

  /** The integer microseconds of a value in seconds; the cast saturates at zero. */
  function Micros(secs: real): nat {
    if secs <= 0.0 then 0 else (secs * 1000000.0).Floor
  }

  class Histogram {
    const bounds: seq<real>
    const buckets: array<nat>
    var count: nat
    var sumUs: nat

    ghost predicate Valid() {
      buckets.Length == |bounds|
    }

    constructor (bounds: seq<real>)
      ensures Valid() && fresh(buckets) && this.bounds == bounds
      ensures count == 0 && sumUs == 0 && forall i | 0 <= i < |bounds| :: buckets[i] == 0
    {
      this.bounds := bounds;
      buckets := new nat[|bounds|](_ => 0);
      count, sumUs := 0, 0;
    }

    /** One observation, undisturbed. */
    method Observe(secs: real)
      requires Valid()
      modifies this`count, this`sumUs, buckets
      ensures State(count, sumUs, buckets[..], [])
           == Alone(bounds, State(old(count), old(sumUs), old(buckets[..]), []), secs)
    {
      count := count + 1;
      sumUs := sumUs + Micros(secs);
      for i := 0 to |bounds|
        invariant count == old(count) + 1 && sumUs == old(sumUs) + Micros(secs)
        invariant forall j | 0 <= j < i :: buckets[j] == old(buckets[j]) + if secs <= bounds[j] then 1 else 0
        invariant forall j | i <= j < |bounds| :: buckets[j] == old(buckets[j])
      {
        if secs <= bounds[i] {
          buckets[i] := buckets[i] + 1;
        }
      }
      assert buckets[..] == Alone(bounds, State(old(count), old(sumUs), old(buckets[..]), []), secs).buckets;
    }
  }

  // ----- interleaved observations -----

  /** An observation that has started: its value and how many of its additions are done, the count aside. */
  datatype Flight = Flight(secs: real, done: nat)

  /** Observations stay in the list when they are finished. */
  datatype State = State(count: nat, sumUs: nat, buckets: seq<nat>, flights: seq<Flight>)

  datatype Step = Begin(secs: real) | Advance(k: nat)

  function Init(bounds: seq<real>): State {
    State(0, 0, seq(|bounds|, _ => 0), [])
  }

  function Apply(bounds: seq<real>, s: State, step: Step): Option<State>
    requires |s.buckets| == |bounds|
  {
    match step
    case Begin(secs) => Some(s.(count := s.count + 1, flights := s.flights + [Flight(secs, 0)]))
    case Advance(k) =>
      if k >= |s.flights| || s.flights[k].done > |bounds| then None
      else
        var f := s.flights[k];
        var s1 := s.(flights := s.flights[k := f.(done := f.done + 1)]);
        if f.done == 0 then Some(s1.(sumUs := s.sumUs + Micros(f.secs)))
        else
          var i := f.done - 1;
          if f.secs <= bounds[i] then Some(s1.(buckets := s.buckets[i := s.buckets[i] + 1])) else Some(s1)
  }

  /** The effect of an observation that nothing interrupts. */
  function Alone(bounds: seq<real>, s: State, secs: real): State
    requires |s.buckets| == |bounds|
  {
    s.(count := s.count + 1,
       sumUs := s.sumUs + Micros(secs),
       buckets := seq(|bounds|, i requires 0 <= i < |bounds| => s.buckets[i] + if secs <= bounds[i] then 1 else 0))
  }

  datatype Run = Start | Then(before: Run, step: Step)

  function Exec(bounds: seq<real>, run: Run): (r: Option<State>)
    ensures r.Some? ==> |r.value.buckets| == |bounds|
  {
    match run
    case Start => Some(Init(bounds))
    case Then(before, step) =>
      var s :- Exec(bounds, before);
      Apply(bounds, s, step)
  }

  // ----- counting flights -----

  function CountIf(flights: seq<Flight>, p: Flight -> bool): nat {
    if flights == [] then 0
    else
      var n := |flights| - 1;
      CountIf(flights[..n], p) + if p(flights[n]) then 1 else 0
  }

  lemma {:induction false} CountIfAppend(flights: seq<Flight>, f: Flight, p: Flight -> bool)
    ensures CountIf(flights + [f], p) == CountIf(flights, p) + if p(f) then 1 else 0
  {
    assert (flights + [f])[..|flights|] == flights;
  }

  lemma {:induction false} CountIfUpdate(flights: seq<Flight>, k: nat, f: Flight, p: Flight -> bool)
    requires k < |flights|
    ensures CountIf(flights[k := f], p) + (if p(flights[k]) then 1 else 0)
         == CountIf(flights, p) + if p(f) then 1 else 0
  {
    var n := |flights| - 1;
    if k == n {
      assert flights[k := f][..n] == flights[..n];
    } else {
      assert flights[k := f][..n] == flights[..n][k := f];
      CountIfUpdate(flights[..n], k, f, p);
    }
  }

  lemma {:induction false} CountIfMono(flights: seq<Flight>, p: Flight -> bool, q: Flight -> bool)
    requires forall k | 0 <= k < |flights| :: p(flights[k]) ==> q(flights[k])
    ensures CountIf(flights, p) <= CountIf(flights, q)
  {
    if flights != [] {
      var n := |flights| - 1;
      CountIfMono(flights[..n], p, q);
    }
  }

  lemma {:induction false} CountIfParts(flights: seq<Flight>, p: Flight -> bool, q: Flight -> bool, r: Flight -> bool)
    requires forall k | 0 <= k < |flights| ::
               (p(flights[k]) ==> r(flights[k]) && !q(flights[k])) && (q(flights[k]) ==> r(flights[k]))
    ensures CountIf(flights, p) + CountIf(flights, q) <= CountIf(flights, r)
  {
    if flights != [] {
      CountIfParts(flights[..|flights| - 1], p, q, r);
    }
  }

  lemma {:induction false} CountIfSize(flights: seq<Flight>, p: Flight -> bool)
    ensures CountIf(flights, p) <= |flights|
  {
    if flights != [] {
      CountIfSize(flights[..|flights| - 1], p);
    }
  }

  /** Started observations not above a bound, and those among them that still owe its bucket. */
  function Below(bound: real): Flight -> bool {
    (f: Flight) => f.secs <= bound
  }

  function Owing(bound: real, i: nat): Flight -> bool {
    (f: Flight) => f.secs <= bound && f.done <= i + 1
  }

  function Unfinished(n: nat): Flight -> bool {
    (f: Flight) => f.done <= n
  }

  function Finished(bound: real, n: nat): Flight -> bool {
    (f: Flight) => f.secs <= bound && f.done > n
  }

  function SumOf(flights: seq<Flight>): nat {
    if flights == [] then 0
    else
      var n := |flights| - 1;
      SumOf(flights[..n]) + if flights[n].done > 0 then Micros(flights[n].secs) else 0
  }

  lemma {:induction false} SumOfUpdate(flights: seq<Flight>, k: nat)
    requires k < |flights|
    ensures var f := flights[k];
            SumOf(flights[k := f.(done := f.done + 1)]) == SumOf(flights) + if f.done == 0 then Micros(f.secs) else 0
  {
    var n, g := |flights| - 1, flights[k].(done := flights[k].done + 1);
    if k == n {
      assert flights[k := g][..n] == flights[..n];
    } else {
      assert flights[k := g][..n] == flights[..n][k := g];
      SumOfUpdate(flights[..n], k);
    }
  }

  // ----- every reachable state -----

  ghost predicate Accounted(bounds: seq<real>, s: State) {
    && |s.buckets| == |bounds|
    && s.count == |s.flights|
    && s.sumUs == SumOf(s.flights)
    && (forall k | 0 <= k < |s.flights| :: s.flights[k].done <= |bounds| + 1)
    && forall i | 0 <= i < |bounds| ::
         s.buckets[i] + CountIf(s.flights, Owing(bounds[i], i)) == CountIf(s.flights, Below(bounds[i]))
  }

  lemma AccountedBegin(bounds: seq<real>, s: State, secs: real)
    requires Accounted(bounds, s)
    ensures Accounted(bounds, Apply(bounds, s, Begin(secs)).value)
  {
    var f := Flight(secs, 0);
    assert (s.flights + [f])[..|s.flights|] == s.flights;
    forall i | 0 <= i < |bounds|
      ensures CountIf(s.flights + [f], Owing(bounds[i], i)) - CountIf(s.flights, Owing(bounds[i], i))
           == CountIf(s.flights + [f], Below(bounds[i])) - CountIf(s.flights, Below(bounds[i]))
    {
      CountIfAppend(s.flights, f, Owing(bounds[i], i));
      CountIfAppend(s.flights, f, Below(bounds[i]));
    }
  }

  lemma AccountedAdvance(bounds: seq<real>, s: State, k: nat)
    requires Accounted(bounds, s) && Apply(bounds, s, Advance(k)).Some?
    ensures Accounted(bounds, Apply(bounds, s, Advance(k)).value)
  {
    var t := Apply(bounds, s, Advance(k)).value;
    var f, g := s.flights[k], t.flights[k];
    SumOfUpdate(s.flights, k);
    hide CountIf, SumOf, Micros;
    forall i | 0 <= i < |bounds|
      ensures t.buckets[i] + CountIf(t.flights, Owing(bounds[i], i)) == CountIf(t.flights, Below(bounds[i]))
    {
      CountIfUpdate(s.flights, k, g, Owing(bounds[i], i));
      CountIfUpdate(s.flights, k, g, Below(bounds[i]));
    }
  }

  /** Whatever the interleaving, a bucket and what is still owed to it make up the started observations
      that are not above its bound; the count is the number of started observations. */
  lemma {:induction false} AlwaysAccounted(bounds: seq<real>, run: Run)
    requires Exec(bounds, run).Some?
    ensures Accounted(bounds, Exec(bounds, run).value)
  {
    match run
    case Start =>
    case Then(before, step) =>
      AlwaysAccounted(bounds, before);
      var s := Exec(bounds, before).value;
      match step {
        case Begin(secs) => AccountedBegin(bounds, s, secs);
        case Advance(k) => AccountedAdvance(bounds, s, k);
      }
  }

  ghost predicate Ascending(bounds: seq<real>) {
    forall i, j | 0 <= i <= j < |bounds| :: bounds[i] <= bounds[j]
  }

  /** No bucket exceeds the count, and a lower bucket exceeds a higher one by no more than the number
      of observations under way; when none is, the buckets are exact and cumulative. */
  lemma BucketsInOrder(bounds: seq<real>, run: Run, i: nat, j: nat)
    requires Exec(bounds, run).Some? && Ascending(bounds) && i <= j < |bounds|
    ensures var s := Exec(bounds, run).value;
            && s.buckets[j] <= s.count
            && s.buckets[i] <= s.buckets[j] + CountIf(s.flights, Unfinished(|bounds|))
            && (CountIf(s.flights, Unfinished(|bounds|)) == 0 ==> s.buckets[i] == CountIf(s.flights, Below(bounds[i])))
  {
    AlwaysAccounted(bounds, run);
    var flights := Exec(bounds, run).value.flights;
    CountIfMono(flights, Below(bounds[i]), Below(bounds[j]));
    CountIfMono(flights, Owing(bounds[j], j), Unfinished(|bounds|));
    CountIfMono(flights, Owing(bounds[i], i), Unfinished(|bounds|));
    CountIfSize(flights, Below(bounds[j]));
  }

  // ----- one observation alone -----

  function Advances(run: Run, k: nat, n: nat): Run {
    if n == 0 then run else Then(Advances(run, k, n - 1), Advance(k))
  }

  lemma ExecThen(bounds: seq<real>, run: Run, step: Step, s: State, t: State)
    requires Exec(bounds, run) == Some(s) && Apply(bounds, s, step) == Some(t)
    ensures Exec(bounds, Then(run, step)) == Some(t)
  {
  }

  /** The state when an observation that nothing interrupts has done its sum and n buckets. */
  function Partly(bounds: seq<real>, s: State, secs: real, n: nat): State
    requires |s.buckets| == |bounds|
  {
    State(s.count + 1,
          s.sumUs + Micros(secs),
          seq(|bounds|, i requires 0 <= i < |bounds| => s.buckets[i] + if i < n && secs <= bounds[i] then 1 else 0),
          s.flights + [Flight(secs, n + 1)])
  }

  lemma AdvancePartly(bounds: seq<real>, s: State, secs: real, n: nat)
    requires |s.buckets| == |bounds| && n < |bounds|
    ensures Apply(bounds, Partly(bounds, s, secs, n), Advance(|s.flights|)) == Some(Partly(bounds, s, secs, n + 1))
  {
    var p, q := Partly(bounds, s, secs, n), Partly(bounds, s, secs, n + 1);
    assert p.flights[|s.flights| := Flight(secs, n + 2)] == q.flights;
    assert q.buckets == if secs <= bounds[n] then p.buckets[n := p.buckets[n] + 1] else p.buckets;
  }

  lemma {:induction false} AdvancesAlone(bounds: seq<real>, run: Run, s: State, secs: real, n: nat)
    requires Exec(bounds, run) == Some(s) && n <= |bounds|
    ensures Exec(bounds, Advances(Then(run, Begin(secs)), |s.flights|, n + 1)) == Some(Partly(bounds, s, secs, n))
  {
    hide Exec;
    var k := |s.flights|;
    if n == 0 {
      var s1 := Apply(bounds, s, Begin(secs)).value;
      ExecThen(bounds, run, Begin(secs), s, s1);
      var p := Partly(bounds, s, secs, 0);
      assert p.buckets == s.buckets && p.flights == s1.flights[k := Flight(secs, 1)];
      ExecThen(bounds, Then(run, Begin(secs)), Advance(k), s1, p);
      assert Advances(Then(run, Begin(secs)), k, 1) == Then(Advances(Then(run, Begin(secs)), k, 0), Advance(k));
    } else {
      AdvancesAlone(bounds, run, s, secs, n - 1);
      AdvancePartly(bounds, s, secs, n - 1);
      ExecThen(bounds, Advances(Then(run, Begin(secs)), k, n), Advance(k),
               Partly(bounds, s, secs, n - 1), Partly(bounds, s, secs, n));
    }
  }

  /** An observation that is not interrupted takes |bounds| + 2 steps and has the effect of the method. */
  lemma ObservationAlone(bounds: seq<real>, run: Run, s: State, secs: real)
    requires Exec(bounds, run) == Some(s)
    ensures Exec(bounds, Advances(Then(run, Begin(secs)), |s.flights|, |bounds| + 1))
         == Some(Alone(bounds, s, secs).(flights := s.flights + [Flight(secs, |bounds| + 1)]))
  {
    hide Exec, Apply;
    AdvancesAlone(bounds, run, s, secs, |bounds|);
    assert Partly(bounds, s, secs, |bounds|).buckets == Alone(bounds, s, secs).buckets;
  }

  // ----- a scrape while observations go on -----

  /** A run that continues another. */
  predicate Later(earlier: Run, later: Run) {
    later == earlier || (later.Then? && Later(earlier, later.before))
  }

  function StartedBetween(earlier: Run, later: Run): nat
    requires Later(earlier, later)
  {
    if later == earlier then 0
    else StartedBetween(earlier, later.before) + if later.step.Begin? then 1 else 0
  }

  /** A scrape loads the count, the sum and then the buckets in order, each at a moment of its own. */
  ghost predicate Scrape(bounds: seq<real>, moments: seq<Run>) {
    && |moments| == |bounds| + 2
    && (forall i | 0 <= i < |moments| :: Exec(bounds, moments[i]).Some?)
    && forall i, j | 0 <= i <= j < |moments| :: Later(moments[i], moments[j])
  }

  function ScrapedCount(bounds: seq<real>, moments: seq<Run>): nat
    requires Scrape(bounds, moments)
  {
    Exec(bounds, moments[0]).value.count
  }

  function ScrapedBucket(bounds: seq<real>, moments: seq<Run>, i: nat): nat
    requires Scrape(bounds, moments) && i < |bounds|
  {
    Exec(bounds, moments[i + 2]).value.buckets[i]
  }

  /** The observations under way when a bucket is loaded, or at any other moment. */
  function UnderWay(bounds: seq<real>, run: Run): nat
    requires Exec(bounds, run).Some?
  {
    CountIf(Exec(bounds, run).value.flights, Unfinished(|bounds|))
  }

  lemma {:induction false} Grows(bounds: seq<real>, earlier: Run, later: Run)
    requires Later(earlier, later) && Exec(bounds, later).Some?
    ensures Exec(bounds, earlier).Some?
    ensures var s, t := Exec(bounds, earlier).value, Exec(bounds, later).value;
            && t.count == s.count + StartedBetween(earlier, later)
            && forall i | 0 <= i < |bounds| :: s.buckets[i] <= t.buckets[i]
  {
    if later != earlier {
      Grows(bounds, earlier, later.before);
    }
  }

  /** What a scrape may show. A bucket exceeds the count by at most the observations started since the count
      was loaded, and a lower bucket a higher one by at most those under way; and each bucket holds the
      observations within its bound that were finished when the count was loaded. */
  lemma ScrapeBound(bounds: seq<real>, moments: seq<Run>, i: nat, j: nat)
    requires Scrape(bounds, moments) && Ascending(bounds) && i <= j < |bounds|
    ensures ScrapedBucket(bounds, moments, i)
         <= ScrapedCount(bounds, moments) + StartedBetween(moments[0], moments[i + 2])
    ensures ScrapedBucket(bounds, moments, i)
         <= ScrapedBucket(bounds, moments, j) + UnderWay(bounds, moments[i + 2])
    ensures CountIf(Exec(bounds, moments[0]).value.flights, Finished(bounds[i], |bounds|))
         <= ScrapedBucket(bounds, moments, i)
  {
    hide Exec, Later;
    BucketsInOrder(bounds, moments[i + 2], i, j);
    BucketsInOrder(bounds, moments[i + 2], i, i);
    Grows(bounds, moments[0], moments[i + 2]);
    Grows(bounds, moments[i + 2], moments[j + 2]);
    AlwaysAccounted(bounds, moments[0]);
    var flights := Exec(bounds, moments[0]).value.flights;
    CountIfParts(flights, Finished(bounds[i], |bounds|), Owing(bounds[i], i), Below(bounds[i]));
  }

  /** One after the other, n observations of a value. */
  lemma Observes(bounds: seq<real>, secs: real, n: nat) returns (run: Run)
    ensures Later(Start, run) && Exec(bounds, run).Some?
    ensures Exec(bounds, run).value.count == n == StartedBetween(Start, run)
    ensures forall i | 0 <= i < |bounds| && secs <= bounds[i] :: Exec(bounds, run).value.buckets[i] == n
  {
    hide Exec;
    if n == 0 {
      run := Start;
      StartIsZero(bounds);
    } else {
      var before := Observes(bounds, secs, n - 1);
      var s := Exec(bounds, before).value;
      ObservationAlone(bounds, before, s, secs);
      run := Advances(Then(before, Begin(secs)), |s.flights|, |bounds| + 1);
      AdvancesLater(Start, Then(before, Begin(secs)), |s.flights|, |bounds| + 1);
    }
  }

  lemma StartIsZero(bounds: seq<real>)
    ensures Exec(bounds, Start) == Some(Init(bounds))
  {
  }

  lemma {:induction false} AdvancesLater(earlier: Run, run: Run, k: nat, n: nat)
    requires Later(earlier, run)
    ensures Later(earlier, Advances(run, k, n))
    ensures StartedBetween(earlier, Advances(run, k, n)) == StartedBetween(earlier, run)
  {
    if n > 0 {
      AdvancesLater(earlier, run, k, n - 1);
      LaterIsLonger(earlier, Advances(run, k, n - 1));
    }
  }

  function Length(run: Run): nat {
    if run.Start? then 0 else Length(run.before) + 1
  }

  lemma {:induction false} LaterIsLonger(earlier: Run, later: Run)
    requires Later(earlier, later)
    ensures Length(earlier) <= Length(later)
  {
    if later != earlier {
      LaterIsLonger(earlier, later.before);
    }
  }

  /** The first bound is attained: a scrape can show a count of zero and n observations in a bucket. */
  lemma ScrapeExceedsCount(bounds: seq<real>, n: nat) returns (moments: seq<Run>)
    requires |bounds| > 0 && Ascending(bounds)
    ensures Scrape(bounds, moments) && ScrapedCount(bounds, moments) == 0
    ensures ScrapedBucket(bounds, moments, 0) == n == StartedBetween(moments[0], moments[2])
    ensures StartedDuring(bounds, moments, n)
  {
    hide Exec;
    var run := Observes(bounds, bounds[0], n);
    StartIsZero(bounds);
    moments := [Start] + seq(|bounds| + 1, _ => run);
  }

  /** At most n observations start while a scrape runs. */
  ghost predicate StartedDuring(bounds: seq<real>, moments: seq<Run>, n: nat) {
    Scrape(bounds, moments) && StartedBetween(moments[0], moments[|bounds| + 1]) <= n
  }

  lemma {:induction false} StartedMore(a: Run, b: Run, c: Run)
    requires Later(a, b) && Later(b, c) && Later(a, c)
    ensures StartedBetween(a, b) <= StartedBetween(a, c)
  {
    if c != b {
      LaterIsLonger(a, b);
      LaterIsLonger(b, c.before);
      LaterTransitive(a, b, c.before);
      StartedMore(a, b, c.before);
    }
  }

  lemma {:induction false} LaterTransitive(a: Run, b: Run, c: Run)
    requires Later(a, b) && Later(b, c)
    ensures Later(a, c)
  {
    if c != b {
      LaterTransitive(a, b, c.before);
    }
  }

  /** No scrape during which at most n observations start shows a bucket above the count, exactly if n is 0. */
  lemma CountCoversIff(bounds: seq<real>, n: nat)
    requires |bounds| > 0 && Ascending(bounds)
    ensures (forall moments, i | StartedDuring(bounds, moments, n) && 0 <= i < |bounds| ::
               ScrapedBucket(bounds, moments, i) <= ScrapedCount(bounds, moments))
       <==> n == 0
  {
    hide Exec, Later;
    if n == 0 {
      forall moments, i | StartedDuring(bounds, moments, n) && 0 <= i < |bounds|
        ensures ScrapedBucket(bounds, moments, i) <= ScrapedCount(bounds, moments)
      {
        ScrapeBound(bounds, moments, i, i);
        StartedMore(moments[0], moments[i + 2], moments[|bounds| + 1]);
      }
    } else {
      var moments := ScrapeExceedsCount(bounds, 1);
      assert StartedDuring(bounds, moments, n);
      assert ScrapedBucket(bounds, moments, 0) > ScrapedCount(bounds, moments);
    }
  }

  // ----- buckets out of order -----

  /** n observations stop between the additions to two buckets. */
  lemma StopsBetween(bounds: seq<real>, i: nat, j: nat, n: nat) returns (run: Run)
    requires i < j < |bounds|
    ensures Exec(bounds, run).Some? && UnderWay(bounds, run) == n
    ensures Exec(bounds, run).value.buckets[i] == n && Exec(bounds, run).value.buckets[j] == 0
  {
    hide Exec;
    if n == 0 {
      run := Start;
      StartIsZero(bounds);
    } else {
      var before := StopsBetween(bounds, i, j, n - 1);
      var s := Exec(bounds, before).value;
      AdvancesAlone(bounds, before, s, bounds[i], i + 1);
      run := Advances(Then(before, Begin(bounds[i])), |s.flights|, i + 2);
      CountIfAppend(s.flights, Flight(bounds[i], i + 2), Unfinished(|bounds|));
    }
  }

  /** The bound by the observations under way is attained, in a state and in a scrape of that state. */
  lemma OrderBoundAttained(bounds: seq<real>, i: nat, j: nat, n: nat) returns (moments: seq<Run>)
    requires i < j < |bounds|
    ensures Scrape(bounds, moments) && moments[i + 2] == moments[j + 2] && UnderWay(bounds, moments[i + 2]) == n
    ensures ScrapedBucket(bounds, moments, i) == ScrapedBucket(bounds, moments, j) + n
  {
    hide Exec;
    var run := StopsBetween(bounds, i, j, n);
    moments := seq(|bounds| + 2, _ => run);
  }

  /** No scrape with at most n observations under way when a bucket is loaded shows that bucket above a
      later one, exactly if n is 0. */
  lemma BucketsInOrderIff(bounds: seq<real>, i: nat, j: nat, n: nat)
    requires Ascending(bounds) && i < j < |bounds|
    ensures (forall moments | Scrape(bounds, moments) && UnderWay(bounds, moments[i + 2]) <= n ::
               ScrapedBucket(bounds, moments, i) <= ScrapedBucket(bounds, moments, j))
       <==> n == 0
  {
    hide Exec, Later, UnderWay;
    if n == 0 {
      forall moments | Scrape(bounds, moments) && UnderWay(bounds, moments[i + 2]) <= n
        ensures ScrapedBucket(bounds, moments, i) <= ScrapedBucket(bounds, moments, j)
      {
        ScrapeBound(bounds, moments, i, j);
      }
    } else {
      var moments := OrderBoundAttained(bounds, i, j, 1);
    }
  }

  // ----- the sum in seconds -----

  /** The microseconds of a value are within one of a million times its seconds; negative values count as zero. */
  lemma MicrosIs(secs: real)
    ensures secs < 0.0 ==> Micros(secs) == 0
    ensures secs >= 0.0 ==> Micros(secs) as real <= secs * 1000000.0 < Micros(secs) as real + 1.0
  {
  }

  /** The seconds of the observations whose sum is done. */
  function SecondsOf(flights: seq<Flight>): real {
    if flights == [] then 0.0
    else
      var n := |flights| - 1;
      SecondsOf(flights[..n]) + if flights[n].done > 0 && flights[n].secs > 0.0 then flights[n].secs else 0.0
  }

  lemma {:induction false} SumOfIsSeconds(flights: seq<Flight>)
    ensures SumOf(flights) as real <= SecondsOf(flights) * 1000000.0 <= (SumOf(flights) + |flights|) as real
  {
    if flights != [] {
      var n := |flights| - 1;
      SumOfIsSeconds(flights[..n]);
      MicrosIs(flights[n].secs);
    }
  }

  /** In every state, the sum is a million times the seconds observed, up to one for each observation. */
  lemma SumIsSeconds(bounds: seq<real>, run: Run)
    requires Exec(bounds, run).Some?
    ensures var s := Exec(bounds, run).value;
            s.sumUs as real <= SecondsOf(s.flights) * 1000000.0 <= (s.sumUs + s.count) as real
  {
    AlwaysAccounted(bounds, run);
    SumOfIsSeconds(Exec(bounds, run).value.flights);
  }
}
