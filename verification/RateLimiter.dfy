/** The sliding-window limiter of new connections per IP address.

    The limiter forgets old timestamps as it goes. The theorems compare it, over whole runs that
    interleave many addresses, with a limiter that never forgets anything and knows one address only.
 */
module RateLimiter {
  import opened Arith

  type Ip = string
  type Queues = map<Ip, seq<int>>

  datatype Call = Call(ip: Ip, now: int)

  /** The limit and the length of the window, in the unit of the clock. */
  datatype Limit = Limit(max: nat, window: nat)

  lemma SmallCast(n: nat)
    requires n < 0x1_0000_0000
    ensures AsU32(n) == n
  {
  }

  /** The time since an earlier reading of the clock, which saturates at zero. */
  function Elapsed(since: int, now: int): nat {
    if now >= since then now - since else 0
  }

  /** The timestamps still inside the window. */
  function Retained(times: seq<int>, now: int, window: nat): seq<int> {
    if times == [] then []
    else
      var front, last := times[..|times| - 1], times[|times| - 1];
      if Elapsed(last, now) < window then Retained(front, now, window) + [last]
      else Retained(front, now, window)
  }

  function QueueOf(q: Queues, ip: Ip): seq<int> {
    if ip in q then q[ip] else []
  }

  predicate Allows(limit: Limit, q: Queues, c: Call) {
    || limit.max == 0
    || AsU32(|Retained(QueueOf(q, c.ip), c.now, limit.window)|) < limit.max
  }

  function Step(limit: Limit, q: Queues, c: Call): Queues {
    var kept := Retained(QueueOf(q, c.ip), c.now, limit.window);
    if limit.max == 0 then q
    else if Allows(limit, q, c) then q[c.ip := kept + [c.now]]
    else q[c.ip := kept]
  }

  class RateLimiter {
    const limit: Limit
    var inner: Queues

    constructor (max: nat, window: nat)
      ensures limit == Limit(max, window) && inner == map[]
    {
      limit := Limit(max, window);
      inner := map[];
    }

    method CheckAndRecord(ip: Ip, now: int) returns (allowed: bool)
      modifies this`inner
      ensures allowed == Allows(limit, old(inner), Call(ip, now))
      ensures inner == Step(limit, old(inner), Call(ip, now))
    {
      if limit.max == 0 {
        return true;
      }
      var queue := if ip in inner then inner[ip] else [];
      queue := Retained(queue, now, limit.window);
      if AsU32(|queue|) >= limit.max {
        inner := inner[ip := queue];
        return false;
      }
      queue := queue + [now];
      inner := inner[ip := queue];
      return true;
    }
  }

  // ----- runs -----

  /** The calls made so far, oldest first. */
  datatype Run = Start | Then(before: Run, call: Call)

  function After(limit: Limit, run: Run): Queues {
    match run
    case Start => map[]
    case Then(before, c) => Step(limit, After(limit, before), c)
  }

  /** What a policy answers to the last call of a run. */
  type Policy = Run -> bool

  /** The limiter of the source, as a policy. */
  function Limiter(limit: Limit): Policy {
    (run: Run) => run.Then? && Allows(limit, After(limit, run.before), run.call)
  }

  /** The times at which a policy let an address pass, none ever forgotten. */
  function PassTimes(policy: Policy, run: Run, ip: Ip): seq<int> {
    match run
    case Start => []
    case Then(before, c) =>
      var times := PassTimes(policy, before, ip);
      if c.ip == ip && policy(run) then times + [c.now] else times
  }

  predicate NotAfter(run: Run, now: int) {
    run.Then? ==> run.call.now <= now
  }

  predicate Nondecreasing(run: Run) {
    run.Then? ==> Nondecreasing(run.before) && NotAfter(run.before, run.call.now)
  }

  // ----- forgetting is harmless -----

  lemma {:induction false} RetainedAppend(times: seq<int>, t: int, now: int, window: nat)
    ensures Retained(times + [t], now, window)
         == var kept := Retained(times, now, window); if Elapsed(t, now) < window then kept + [t] else kept
  {
    assert (times + [t])[..|times|] == times;
  }

  lemma {:induction false} RetainedTwice(times: seq<int>, t1: int, t2: int, window: nat)
    requires t1 <= t2
    ensures Retained(Retained(times, t1, window), t2, window) == Retained(times, t2, window)
  {
    if times != [] {
      var front, last := times[..|times| - 1], times[|times| - 1];
      RetainedTwice(front, t1, t2, window);
      RetainedAppend(Retained(front, t1, window), last, t2, window);
    }
  }

  lemma {:induction false} RetainedShrinks(times: seq<int>, now: int, window: nat)
    ensures |Retained(times, now, window)| <= |times|
  {
    if times != [] {
      RetainedShrinks(times[..|times| - 1], now, window);
    }
  }

  lemma NoQueue(ip: Ip)
    ensures QueueOf(map[], ip) == []
  {
  }

  lemma QueueStep(limit: Limit, q: Queues, c: Call, ip: Ip)
    requires limit.max > 0
    ensures var kept := Retained(QueueOf(q, ip), c.now, limit.window);
            QueueOf(Step(limit, q, c), ip)
            == if c.ip != ip then QueueOf(q, ip) else if Allows(limit, q, c) then kept + [c.now] else kept
  {
  }

  /** A queue holds as much as its whole history, for every present and future reading of the clock. */
  lemma {:induction false} QueueIsHistory(limit: Limit, run: Run, ip: Ip, now: int)
    requires 0 < limit.max < 0x1_0000_0000 && Nondecreasing(run) && NotAfter(run, now)
    ensures |QueueOf(After(limit, run), ip)| <= limit.max
    ensures Retained(QueueOf(After(limit, run), ip), now, limit.window)
         == Retained(PassTimes(Limiter(limit), run, ip), now, limit.window)
  {
    hide AsU32, Step, QueueOf, Retained;
    if run.Start? {
      NoQueue(ip);
    } else {
      var c := run.call;
      QueueIsHistory(limit, run.before, ip, c.now);
      QueueIsHistory(limit, run.before, ip, now);
      QueueStep(limit, After(limit, run.before), c, ip);
      if c.ip == ip {
        var queue := QueueOf(After(limit, run.before), ip);
        RetainedShrinks(queue, c.now, limit.window);
        SmallCast(|Retained(queue, c.now, limit.window)|);
        RetainedTwice(queue, c.now, now, limit.window);
        RetainedAppend(Retained(queue, c.now, limit.window), c.now, now, limit.window);
        RetainedAppend(PassTimes(Limiter(limit), run.before, ip), c.now, now, limit.window);
      }
    }
  }

  /** A call passes exactly when fewer than `max` calls of its address passed within the last window. */
  lemma AcceptedIff(limit: Limit, run: Run, c: Call)
    requires limit.max < 0x1_0000_0000 && Nondecreasing(Then(run, c))
    ensures Limiter(limit)(Then(run, c))
       <==> || limit.max == 0
            || |Retained(PassTimes(Limiter(limit), run, c.ip), c.now, limit.window)| < limit.max
  {
    hide AsU32;
    if limit.max > 0 {
      QueueIsHistory(limit, run, c.ip, c.now);
      var queue := QueueOf(After(limit, run), c.ip);
      RetainedShrinks(queue, c.now, limit.window);
      SmallCast(|Retained(queue, c.now, limit.window)|);
    }
  }

  // ----- no window holds too much -----

  /** The number of times in the half-open interval from `start` of the length of the window. */
  function Inside(times: seq<int>, start: int, window: nat): nat {
    if times == [] then 0
    else
      var front, last := times[..|times| - 1], times[|times| - 1];
      Inside(front, start, window) + if start <= last < start + window then 1 else 0
  }

  lemma {:induction false} InsideAppend(times: seq<int>, t: int, start: int, window: nat)
    ensures Inside(times + [t], start, window)
         == Inside(times, start, window) + if start <= t < start + window then 1 else 0
  {
    assert (times + [t])[..|times|] == times;
  }

  lemma {:induction false} InsideIsRecent(times: seq<int>, start: int, now: int, window: nat)
    requires start <= now < start + window
    ensures Inside(times, start, window) <= |Retained(times, now, window)|
  {
    if times != [] {
      InsideIsRecent(times[..|times| - 1], start, now, window);
    }
  }

  lemma {:induction false} WindowBound(limit: Limit, run: Run, ip: Ip, start: int)
    requires 0 < limit.max < 0x1_0000_0000 && Nondecreasing(run)
    ensures Inside(PassTimes(Limiter(limit), run, ip), start, limit.window) <= limit.max
  {
    if run.Then? {
      var c := run.call;
      WindowBound(limit, run.before, ip, start);
      var times := PassTimes(Limiter(limit), run.before, ip);
      InsideAppend(times, c.now, start, limit.window);
      if c.ip == ip && start <= c.now < start + limit.window {
        AcceptedIff(limit, run.before, c);
        InsideIsRecent(times, start, c.now, limit.window);
      }
    }
  }

  lemma {:induction false} PassTimesNotAfter(policy: Policy, run: Run, ip: Ip, now: int)
    requires Nondecreasing(run) && NotAfter(run, now)
    ensures forall i | 0 <= i < |PassTimes(policy, run, ip)| :: PassTimes(policy, run, ip)[i] <= now
  {
    if run.Then? {
      PassTimesNotAfter(policy, run.before, ip, run.call.now);
    }
  }

  lemma {:induction false} RetainedIsInside(times: seq<int>, now: int, window: nat)
    requires forall i | 0 <= i < |times| :: times[i] <= now
    ensures |Retained(times, now, window)| == Inside(times, now - window + 1, window)
  {
    if times != [] {
      RetainedIsInside(times[..|times| - 1], now, window);
    }
  }

  /** A call passes exactly when fewer than `max` calls of its address passed in the window's last instants,
      the present one included and the one a whole window ago not. */
  lemma AcceptedIffFewInside(limit: Limit, run: Run, c: Call)
    requires limit.max < 0x1_0000_0000 && Nondecreasing(Then(run, c))
    ensures Limiter(limit)(Then(run, c))
       <==> || limit.max == 0
            || Inside(PassTimes(Limiter(limit), run, c.ip), c.now - limit.window + 1, limit.window) < limit.max
  {
    hide Retained, Inside;
    AcceptedIff(limit, run, c);
    PassTimesNotAfter(Limiter(limit), run, c.ip, c.now);
    RetainedIsInside(PassTimes(Limiter(limit), run, c.ip), c.now, limit.window);
  }

  // ----- addresses do not disturb each other -----

  function OnlyIp(run: Run, ip: Ip): Run {
    match run
    case Start => Start
    case Then(before, c) => if c.ip == ip then Then(OnlyIp(before, ip), c) else OnlyIp(before, ip)
  }

  /** What happens to an address is what would happen if all other addresses never called. */
  lemma {:induction false} OtherAddressesAreInvisible(limit: Limit, run: Run, ip: Ip)
    ensures QueueOf(After(limit, run), ip) == QueueOf(After(limit, OnlyIp(run, ip)), ip)
    ensures PassTimes(Limiter(limit), run, ip) == PassTimes(Limiter(limit), OnlyIp(run, ip), ip)
  {
    hide AsU32, Retained;
    if run.Then? {
      OtherAddressesAreInvisible(limit, run.before, ip);
    }
  }

  /** A decision is the same in the run without the calls of all other addresses. */
  lemma DecisionsAreIsolated(limit: Limit, run: Run, c: Call)
    ensures Limiter(limit)(Then(run, c)) == Limiter(limit)(Then(OnlyIp(run, c.ip), c))
  {
    OtherAddressesAreInvisible(limit, run, c.ip);
  }

  // ----- no avoidable refusal -----

  /** The number of passes of an address within the window that ends now. */
  function Recent(policy: Policy, run: Run, ip: Ip, now: int, window: nat): nat {
    |Retained(PassTimes(policy, run, ip), now, window)|
  }

  /** A policy that, after every call, has let an address pass at most `max` times within the window. */
  ghost predicate WithinLimit(limit: Limit, policy: Policy, run: Run, ip: Ip) {
    run.Then? ==>
      && Recent(policy, run, ip, run.call.now, limit.window) <= limit.max
      && WithinLimit(limit, policy, run.before, ip)
  }

  /** The calls before the window that ends now. */
  function BeforeWindow(run: Run, now: int, window: nat): Run {
    if run.Then? && Elapsed(run.call.now, now) < window then BeforeWindow(run.before, now, window) else run
  }

  lemma {:induction false} NothingRecent(policy: Policy, run: Run, ip: Ip, now: int, window: nat)
    requires Nondecreasing(run) && (run.Then? ==> Elapsed(run.call.now, now) >= window)
    ensures Recent(policy, run, ip, now, window) == 0
  {
    if run.Then? {
      NothingRecent(policy, run.before, ip, now, window);
      RetainedAppend(PassTimes(policy, run.before, ip), run.call.now, now, window);
    }
  }

  lemma {:induction false} PassesSplitAtWindow(policy: Policy, run: Run, ip: Ip, now: int, window: nat)
    requires Nondecreasing(run)
    ensures |PassTimes(policy, run, ip)|
         == |PassTimes(policy, BeforeWindow(run, now, window), ip)| + Recent(policy, run, ip, now, window)
  {
    if run.Then? && Elapsed(run.call.now, now) < window {
      PassesSplitAtWindow(policy, run.before, ip, now, window);
      RetainedAppend(PassTimes(policy, run.before, ip), run.call.now, now, window);
    } else {
      NothingRecent(policy, run, ip, now, window);
    }
  }

  function Length(run: Run): nat {
    if run.Start? then 0 else 1 + Length(run.before)
  }

  lemma {:induction false} BeforeWindowFacts(limit: Limit, policy: Policy, run: Run, ip: Ip, now: int)
    requires Nondecreasing(run) && WithinLimit(limit, policy, run, ip)
    ensures var older := BeforeWindow(run, now, limit.window);
            Nondecreasing(older) && WithinLimit(limit, policy, older, ip) && Length(older) <= Length(run)
  {
    if run.Then? && Elapsed(run.call.now, now) < limit.window {
      BeforeWindowFacts(limit, policy, run.before, ip, now);
    }
  }

  /** No policy that keeps to the limit has ever let an address pass more often. */
  lemma {:induction false} LimiterPassesMost(limit: Limit, policy: Policy, run: Run, ip: Ip)
    requires 0 < limit.max < 0x1_0000_0000 && Nondecreasing(run)
    requires WithinLimit(limit, policy, run, ip)
    ensures |PassTimes(policy, run, ip)| <= |PassTimes(Limiter(limit), run, ip)|
    decreases Length(run)
  {
    if run.Then? {
      var c := run.call;
      LimiterPassesMost(limit, policy, run.before, ip);
      if c.ip == ip && policy(run) && !Limiter(limit)(run) {
        AcceptedIff(limit, run.before, c);
        RetainedAppend(PassTimes(policy, run.before, ip), c.now, c.now, limit.window);
        BeforeWindowFacts(limit, policy, run.before, ip, c.now);
        LimiterPassesMost(limit, policy, BeforeWindow(run.before, c.now, limit.window), ip);
        PassesSplitAtWindow(policy, run.before, ip, c.now, limit.window);
        PassesSplitAtWindow(Limiter(limit), run.before, ip, c.now, limit.window);
      }
    }
  }

  /** The limiter keeps to the limit itself. */
  lemma {:induction false} LimiterWithinLimit(limit: Limit, run: Run, ip: Ip)
    requires 0 < limit.max < 0x1_0000_0000 && Nondecreasing(run)
    ensures WithinLimit(limit, Limiter(limit), run, ip)
  {
    if run.Then? {
      var c := run.call;
      var times := PassTimes(Limiter(limit), run.before, ip);
      LimiterWithinLimit(limit, run.before, ip);
      RetainedAppend(times, c.now, c.now, limit.window);
      if c.ip == ip {
        AcceptedIff(limit, run.before, c);
      }
      if run.before.Then? {
        RecentShrinks(times, run.before.call.now, c.now, limit.window);
      }
    }
  }

  lemma {:induction false} RecentShrinks(times: seq<int>, t1: int, t2: int, window: nat)
    requires t1 <= t2
    ensures |Retained(times, t2, window)| <= |Retained(times, t1, window)|
  {
    RetainedTwice(times, t1, t2, window);
    RetainedShrinks(Retained(times, t1, window), t2, window);
  }
}
