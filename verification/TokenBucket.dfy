/** The token bucket that guards one tunnel.

    A check refills the bucket for the time since the previous check, caps it at the burst, and takes
    one token if there is one. The theorems are about whole runs: which requests pass is exactly what an
    arrival envelope allows, and no other way of choosing requests within the envelope passes more.
 */
module TokenBucket {

  /** Tokens and seconds are reals; the clock reading is an argument of every operation. */
  datatype Bucket = Bucket(tokens: real, lastRefill: real, blocked: nat)

  /** One call of the check: the clock and the settings it reads. */
  datatype Request = Request(now: real, enabled: bool, rps: nat, burst: nat)
  {
    predicate Metered() {
      enabled && rps != 0
    }
  }

  function Min(a: real, b: real): real {
    if a <= b then a else b
  }

  /** The time since an earlier reading of the clock, which saturates at zero. */
  function Elapsed(since: real, now: real): real {
    if now >= since then now - since else 0.0
  }

  function Refill(time: real, rps: nat): real {
    time * (rps as real)
  }

  lemma RefillIs(time: real, rps: nat)
    ensures Refill(time, rps) == (rps as real) * time
  {
  }

  lemma RefillNonNegative(time: real, rps: nat)
    requires time >= 0.0
    ensures Refill(time, rps) >= 0.0
  {
  }

  lemma RefillAdds(a: real, b: real, c: real, rps: nat)
    ensures Refill(b - a, rps) + Refill(c - b, rps) == Refill(c - a, rps)
  {
  }

  /** The tokens a metered check finds after its refill. */
  function Level(b: Bucket, r: Request): real {
    Min(b.tokens + Refill(Elapsed(b.lastRefill, r.now), r.rps), r.burst as real)
  }

  predicate Allows(b: Bucket, r: Request) {
    r.Metered() ==> Level(b, r) >= 1.0
  }

  function Step(b: Bucket, r: Request): Bucket {
    if !r.Metered() then b
    else if Allows(b, r) then Bucket(Level(b, r) - 1.0, r.now, b.blocked)
    else Bucket(Level(b, r), r.now, b.blocked + 1)
  }

  class DDoSProtection {
    var enabled: bool
    var rps: nat
    var burst: nat
    var blockedCount: nat
    var challengeMode: bool
    var tokens: real
    var lastRefill: real

    ghost function Abs(): Bucket
      reads this
    {
      Bucket(tokens, lastRefill, blockedCount)
    }

    constructor (rps: nat, burst: nat, now: real)
      ensures Abs() == Bucket(burst as real, now, 0)
      ensures this.rps == rps && this.burst == burst && !enabled && challengeMode
    {
      enabled := false;
      this.rps, this.burst := rps, burst;
      blockedCount := 0;
      challengeMode := true;
      tokens, lastRefill := burst as real, now;
    }

    method SetRps(v: nat)
      modifies this`rps
      ensures rps == v
    {
      rps := v;
    }

    method SetBurst(v: nat)
      modifies this`burst
      ensures burst == v
    {
      burst := v;
    }

    method Check(now: real) returns (allowed: bool)
      modifies this`tokens, this`lastRefill, this`blockedCount
      ensures var r := Request(now, enabled, rps, burst);
              && allowed == Allows(old(Abs()), r)
              && Abs() == Step(old(Abs()), r)
    {
      if !enabled {
        return true;
      }
      if rps == 0 {
        return true;
      }
      var elapsed := if now >= lastRefill then now - lastRefill else 0.0;
      lastRefill := now;
      tokens := tokens + elapsed * (rps as real);
      if tokens > burst as real {
        tokens := burst as real;
      }
      if tokens >= 1.0 {
        tokens := tokens - 1.0;
        return true;
      } else {
        blockedCount := blockedCount + 1;
        return false;
      }
    }
  }

  // ----- runs -----

  function StateAt(b: Bucket, run: seq<Request>, n: nat): Bucket
    requires n <= |run|
  {
    if n == 0 then b else Step(StateAt(b, run, n - 1), run[n - 1])
  }

  predicate Accepted(b: Bucket, run: seq<Request>, n: nat)
    requires n < |run|
  {
    Allows(StateAt(b, run, n), run[n])
  }

  /** The number of accepted requests among i, ..., n-1. */
  function Accepts(b: Bucket, run: seq<Request>, i: nat, n: nat): nat
    requires i <= n <= |run|
  {
    if i == n then 0
    else Accepts(b, run, i, n - 1) + if Accepted(b, run, n - 1) then 1 else 0
  }

  ghost predicate MeteredRun(b: Bucket, run: seq<Request>) {
    && (forall k | 0 <= k < |run| :: run[k].Metered())
    && (forall j, k | 0 <= j < k < |run| :: run[j].now <= run[k].now)
    && (|run| > 0 ==> b.lastRefill <= run[0].now)
  }

  /** The tokens refilled from request i up to request n, each gap at the rate its check reads. */
  function Supply(run: seq<Request>, i: nat, n: nat): real
    requires i <= n < |run|
  {
    if i == n then 0.0
    else Supply(run, i, n - 1) + (run[n].rps as real) * (run[n].now - run[n - 1].now)
  }

  /** What requests i, ..., n may take together: the burst at i and the refill from i to n. */
  function Envelope(run: seq<Request>, i: nat, n: nat): real
    requires i <= n < |run|
  {
    run[i].burst as real + Supply(run, i, n)
  }

  /** The same from before the first request, with the tokens the bucket starts with. */
  function StartEnvelope(b: Bucket, run: seq<Request>, n: nat): real
    requires n < |run|
  {
    b.tokens + (run[0].rps as real) * (run[0].now - b.lastRefill) + Supply(run, 0, n)
  }

  /** The room request i's envelope leaves for request n. */
  function Room(b: Bucket, run: seq<Request>, i: nat, n: nat): real
    requires i <= n < |run|
  {
    Envelope(run, i, n) - Accepts(b, run, i, n) as real
  }

  function StartRoom(b: Bucket, run: seq<Request>, n: nat): real
    requires n < |run|
  {
    StartEnvelope(b, run, n) - Accepts(b, run, 0, n) as real
  }

  /** The change of every room, and of the level before its cap, from request n-1 to request n. */
  function Change(b: Bucket, run: seq<Request>, n: nat): real
    requires 0 < n < |run|
  {
    Refill(run[n].now - run[n - 1].now, run[n].rps) - if Accepted(b, run, n - 1) then 1.0 else 0.0
  }

  function LevelAt(b: Bucket, run: seq<Request>, n: nat): real
    requires n < |run|
  {
    Level(StateAt(b, run, n), run[n])
  }

  lemma SupplyIs(run: seq<Request>, i: nat, n: nat)
    requires i <= n < |run|
    ensures Supply(run, i, n)
         == if i == n then 0.0 else Supply(run, i, n - 1) + Refill(run[n].now - run[n - 1].now, run[n].rps)
  {
    if i < n {
      RefillIs(run[n].now - run[n - 1].now, run[n].rps);
    }
  }

  lemma StartEnvelopeIs(b: Bucket, run: seq<Request>, n: nat)
    requires n < |run|
    ensures StartEnvelope(b, run, n) == b.tokens + Refill(run[0].now - b.lastRefill, run[0].rps) + Supply(run, 0, n)
  {
    RefillIs(run[0].now - b.lastRefill, run[0].rps);
  }

  lemma RoomStep(b: Bucket, run: seq<Request>, i: nat, n: nat)
    requires i < n < |run|
    ensures Room(b, run, i, n) == Room(b, run, i, n - 1) + Change(b, run, n)
  {
    hide Refill, Supply, Accepted;
    SupplyIs(run, i, n);
  }

  lemma StartRoomStep(b: Bucket, run: seq<Request>, n: nat)
    requires 0 < n < |run|
    ensures StartRoom(b, run, n) == StartRoom(b, run, n - 1) + Change(b, run, n)
  {
    hide Refill, Supply, StartEnvelope, Accepted;
    StartEnvelopeIs(b, run, n);
    StartEnvelopeIs(b, run, n - 1);
    SupplyIs(run, 0, n);
  }

  lemma FirstLevel(b: Bucket, run: seq<Request>)
    requires MeteredRun(b, run) && run != []
    ensures LevelAt(b, run, 0) == Min(StartRoom(b, run, 0), run[0].burst as real)
  {
    hide Refill, Supply, StartEnvelope;
    StartEnvelopeIs(b, run, 0);
    SupplyIs(run, 0, 0);
    LevelAfter(b, run[0], b.lastRefill);
  }

  lemma LevelAfter(b: Bucket, r: Request, since: real)
    requires b.lastRefill == since <= r.now
    ensures Level(b, r) == Min(b.tokens + Refill(r.now - since, r.rps), r.burst as real)
  {
  }

  lemma LevelStep(b: Bucket, run: seq<Request>, n: nat)
    requires MeteredRun(b, run) && 0 < n < |run|
    ensures LevelAt(b, run, n) == Min(LevelAt(b, run, n - 1) + Change(b, run, n), run[n].burst as real)
  {
    hide Level, Refill;
    var now := StateAt(b, run, n);
    assert run[n - 1].Metered();
    assert now.tokens == LevelAt(b, run, n - 1) - if Accepted(b, run, n - 1) then 1.0 else 0.0;
    LevelAfter(now, run[n], run[n - 1].now);
  }

  /** The level found by request n is the tightest of the rooms. */
  lemma {:induction false} LevelIsTightest(b: Bucket, run: seq<Request>, n: nat)
    requires MeteredRun(b, run) && n < |run|
    ensures forall i | 0 <= i <= n :: LevelAt(b, run, n) <= Room(b, run, i, n)
    ensures LevelAt(b, run, n) <= StartRoom(b, run, n)
    ensures || (exists i :: 0 <= i <= n && LevelAt(b, run, n) == Room(b, run, i, n))
            || LevelAt(b, run, n) == StartRoom(b, run, n)
  {
    assert Room(b, run, n, n) == run[n].burst as real;
    hide Room, StartRoom, LevelAt, Change, Accepted;
    if n == 0 {
      FirstLevel(b, run);
    } else {
      LevelIsTightest(b, run, n - 1);
      LevelStep(b, run, n);
      StartRoomStep(b, run, n);
      forall i | 0 <= i < n
        ensures Room(b, run, i, n) == Room(b, run, i, n - 1) + Change(b, run, n)
      {
        RoomStep(b, run, i, n);
      }
      if LevelAt(b, run, n) == run[n].burst as real {
        assert LevelAt(b, run, n) == Room(b, run, n, n);
      } else if LevelAt(b, run, n - 1) != StartRoom(b, run, n - 1) {
        var i :| 0 <= i <= n - 1 && LevelAt(b, run, n - 1) == Room(b, run, i, n - 1);
        assert LevelAt(b, run, n) == Room(b, run, i, n);
      }
    }
  }

  /** Whatever the settings at each check: a request passes exactly when every envelope has room for it. */
  lemma AcceptedIffRoom(b: Bucket, run: seq<Request>, n: nat)
    requires MeteredRun(b, run) && n < |run|
    ensures Accepted(b, run, n)
       <==> && (forall i | 0 <= i <= n :: Accepts(b, run, i, n) as real + 1.0 <= Envelope(run, i, n))
            && Accepts(b, run, 0, n) as real + 1.0 <= StartEnvelope(b, run, n)
  {
    LevelIsTightest(b, run, n);
    assert Accepted(b, run, n) <==> LevelAt(b, run, n) >= 1.0 by {
      assert run[n].Metered();
    }
    forall i | 0 <= i <= n
      ensures Room(b, run, i, n) >= 1.0 <==> Accepts(b, run, i, n) as real + 1.0 <= Envelope(run, i, n)
    {
    }
  }

  // ----- fixed settings: the arrival envelope burst + rps * time -----

  /** A run of a fresh bucket whose settings are never changed. */
  ghost predicate FixedRun(b: Bucket, run: seq<Request>, rps: nat, burst: nat) {
    && MeteredRun(b, run)
    && b.tokens == burst as real
    && forall k | 0 <= k < |run| :: run[k].rps == rps && run[k].burst == burst
  }

  lemma {:induction false} SupplyIsRateTimesTime(run: seq<Request>, rps: nat, i: nat, n: nat)
    requires i <= n < |run|
    requires forall k | 0 <= k < |run| :: run[k].rps == rps
    ensures Supply(run, i, n) == Refill(run[n].now - run[i].now, rps)
  {
    hide Refill, Supply;
    SupplyIs(run, i, n);
    assert Refill(0.0, rps) == 0.0 by { RefillAdds(0.0, 0.0, 0.0, rps); }
    if i < n {
      SupplyIsRateTimesTime(run, rps, i, n - 1);
      RefillAdds(run[i].now, run[n - 1].now, run[n].now, rps);
    }
  }

  function FixedEnvelope(run: seq<Request>, rps: nat, burst: nat, i: nat, n: nat): real
    requires i <= n < |run|
  {
    burst as real + Refill(run[n].now - run[i].now, rps)
  }

  lemma FixedEnvelopeGrows(run: seq<Request>, rps: nat, burst: nat, i: nat, n: nat)
    requires i <= n < |run|
    requires forall j, k | 0 <= j < k < |run| :: run[j].now <= run[k].now
    ensures FixedEnvelope(run, rps, burst, i, n) >= burst as real
    ensures i < n ==> FixedEnvelope(run, rps, burst, i, n - 1) <= FixedEnvelope(run, rps, burst, i, n)
  {
    hide Refill;
    RefillNonNegative(run[n].now - run[i].now, rps);
    if i < n {
      RefillAdds(run[i].now, run[n - 1].now, run[n].now, rps);
      RefillNonNegative(run[n].now - run[n - 1].now, rps);
    }
  }

  lemma EnvelopeIsFixed(run: seq<Request>, rps: nat, burst: nat, i: nat, n: nat)
    requires i <= n < |run|
    requires forall k | 0 <= k < |run| :: run[k].rps == rps && run[k].burst == burst
    ensures Envelope(run, i, n) == FixedEnvelope(run, rps, burst, i, n)
  {
    SupplyIsRateTimesTime(run, rps, i, n);
  }

  /** A bucket that starts full is never held back by its start. */
  lemma StartEnvelopeIsLoose(b: Bucket, run: seq<Request>, n: nat)
    requires n < |run| && b.lastRefill <= run[0].now && b.tokens == run[0].burst as real
    ensures StartEnvelope(b, run, n) >= Envelope(run, 0, n)
  {
    hide Refill, StartEnvelope, Supply;
    RefillNonNegative(run[0].now - b.lastRefill, run[0].rps);
    StartEnvelopeIs(b, run, n);
  }

  lemma FixedEnvelopeIs(run: seq<Request>, rps: nat, burst: nat, i: nat, n: nat)
    requires i <= n < |run|
    ensures FixedEnvelope(run, rps, burst, i, n) == burst as real + (rps as real) * (run[n].now - run[i].now)
  {
    RefillIs(run[n].now - run[i].now, rps);
  }

  /** With fixed settings, a request passes exactly when for every earlier request the accepted ones since then,
      and this one, fit the burst and the rate times the time since then. */
  lemma FixedAcceptedIff(b: Bucket, run: seq<Request>, rps: nat, burst: nat, n: nat)
    requires FixedRun(b, run, rps, burst) && n < |run|
    ensures Accepted(b, run, n)
       <==> forall i | 0 <= i <= n ::
              Accepts(b, run, i, n) as real + 1.0 <= burst as real + (rps as real) * (run[n].now - run[i].now)
  {
    hide Envelope, StartEnvelope, FixedEnvelope, Accepted;
    AcceptedIffRoom(b, run, n);
    StartEnvelopeIsLoose(b, run, n);
    forall i | 0 <= i <= n
      ensures Envelope(run, i, n) == burst as real + (rps as real) * (run[n].now - run[i].now)
    {
      EnvelopeIsFixed(run, rps, burst, i, n);
      FixedEnvelopeIs(run, rps, burst, i, n);
    }
  }

  /** No interval of requests passes more than the burst and the rate times its duration. */
  lemma FixedArrivalCurve(b: Bucket, run: seq<Request>, rps: nat, burst: nat, i: nat, j: nat)
    requires FixedRun(b, run, rps, burst) && i <= j < |run|
    ensures Accepts(b, run, i, j + 1) as real <= burst as real + (rps as real) * (run[j].now - run[i].now)
  {
    hide FixedEnvelope, Accepted;
    FixedCurve(b, run, rps, burst, i, j);
    FixedEnvelopeIs(run, rps, burst, i, j);
  }

  lemma {:induction false} FixedCurve(b: Bucket, run: seq<Request>, rps: nat, burst: nat, i: nat, j: nat)
    requires FixedRun(b, run, rps, burst) && i <= j < |run|
    ensures Accepts(b, run, i, j + 1) as real <= FixedEnvelope(run, rps, burst, i, j)
  {
    hide FixedEnvelope, Accepted;
    if Accepted(b, run, j) {
      FixedAcceptedIff(b, run, rps, burst, j);
      FixedEnvelopeIs(run, rps, burst, i, j);
    } else {
      FixedEnvelopeGrows(run, rps, burst, i, j);
      if i < j {
        FixedCurve(b, run, rps, burst, i, j - 1);
      }
    }
  }

  /** A reading of the clock that is not later adds nothing. */
  lemma EarlierClockAddsNothing(b: Bucket, r: Request)
    requires r.Metered() && r.now <= b.lastRefill
    ensures Allows(b, r) <==> b.tokens >= 1.0 && r.burst >= 1
  {
    RefillIs(0.0, r.rps);
  }

  // ----- no avoidable refusal -----

  /** The number of requests among i, ..., n-1 that some other policy lets pass. */
  function Passes(choice: seq<bool>, i: nat, n: nat): nat
    requires i <= n <= |choice|
  {
    if i == n then 0 else Passes(choice, i, n - 1) + if choice[n - 1] then 1 else 0
  }

  ghost predicate WithinEnvelope(b: Bucket, run: seq<Request>, choice: seq<bool>) {
    && |choice| == |run|
    && (forall i, n | 0 <= i <= n < |run| :: Passes(choice, i, n + 1) as real <= Envelope(run, i, n))
    && forall n | 0 <= n < |run| :: Passes(choice, 0, n + 1) as real <= StartEnvelope(b, run, n)
  }

  lemma {:induction false} PassesSplit(choice: seq<bool>, i: nat, n: nat)
    requires i <= n <= |choice|
    ensures Passes(choice, 0, n) == Passes(choice, 0, i) + Passes(choice, i, n)
  {
    if i < n {
      PassesSplit(choice, i, n - 1);
    }
  }

  lemma {:induction false} AcceptsSplit(b: Bucket, run: seq<Request>, i: nat, n: nat)
    requires i <= n <= |run|
    ensures Accepts(b, run, 0, n) == Accepts(b, run, 0, i) + Accepts(b, run, i, n)
  {
    if i < n {
      AcceptsSplit(b, run, i, n - 1);
    }
  }

  lemma EnvelopeGrows(b: Bucket, run: seq<Request>, i: nat, n: nat)
    requires MeteredRun(b, run) && i <= n < |run| && b.tokens >= 0.0
    ensures if i == n then Envelope(run, i, n) >= 0.0 else Envelope(run, i, n - 1) <= Envelope(run, i, n)
    ensures if n == 0 then StartEnvelope(b, run, n) >= 0.0
            else StartEnvelope(b, run, n - 1) <= StartEnvelope(b, run, n)
  {
    hide Refill, Supply, StartEnvelope;
    StartEnvelopeIs(b, run, n);
    SupplyIs(run, i, n);
    SupplyIs(run, 0, n);
    if n == 0 {
      RefillNonNegative(run[0].now - b.lastRefill, run[0].rps);
    } else {
      StartEnvelopeIs(b, run, n - 1);
      RefillNonNegative(run[n].now - run[n - 1].now, run[n].rps);
    }
  }

  lemma {:induction false} AcceptsWithinEnvelope(b: Bucket, run: seq<Request>, i: nat, n: nat)
    requires MeteredRun(b, run) && i <= n < |run| && b.tokens >= 0.0
    ensures Accepts(b, run, i, n + 1) as real <= Envelope(run, i, n)
    ensures Accepts(b, run, 0, n + 1) as real <= StartEnvelope(b, run, n)
  {
    if Accepted(b, run, n) {
      AcceptedIffRoom(b, run, n);
    } else {
      hide Envelope, StartEnvelope, Accepted;
      EnvelopeGrows(b, run, i, n);
      if n > 0 {
        AcceptsWithinEnvelope(b, run, if i < n then i else n - 1, n - 1);
      }
    }
  }

  function BucketChoice(b: Bucket, run: seq<Request>): seq<bool> {
    seq(|run|, n requires 0 <= n < |run| => Accepted(b, run, n))
  }

  lemma {:induction false} BucketChoiceCounts(b: Bucket, run: seq<Request>, i: nat, n: nat)
    requires i <= n <= |run|
    ensures Passes(BucketChoice(b, run), i, n) == Accepts(b, run, i, n)
  {
    if i < n {
      BucketChoiceCounts(b, run, i, n - 1);
    }
  }

  /** The bucket's own choice is one of the choices within the envelope. */
  lemma BucketWithinEnvelope(b: Bucket, run: seq<Request>)
    requires MeteredRun(b, run) && b.tokens >= 0.0
    ensures WithinEnvelope(b, run, BucketChoice(b, run))
  {
    forall i, n | 0 <= i <= n < |run|
      ensures Passes(BucketChoice(b, run), i, n + 1) as real <= Envelope(run, i, n)
    {
      BucketChoiceCounts(b, run, i, n + 1);
      AcceptsWithinEnvelope(b, run, i, n);
    }
    forall n | 0 <= n < |run|
      ensures Passes(BucketChoice(b, run), 0, n + 1) as real <= StartEnvelope(b, run, n)
    {
      BucketChoiceCounts(b, run, 0, n + 1);
      AcceptsWithinEnvelope(b, run, 0, n);
    }
  }

  /** No policy that keeps within the envelope has ever let more requests pass than the bucket. */
  lemma {:induction false} BucketPassesMost(b: Bucket, run: seq<Request>, choice: seq<bool>, n: nat)
    requires MeteredRun(b, run) && WithinEnvelope(b, run, choice) && n <= |run|
    ensures Passes(choice, 0, n) <= Accepts(b, run, 0, n)
  {
    if n > 0 {
      var m := n - 1;
      BucketPassesMost(b, run, choice, m);
      if !Accepted(b, run, m) {
        AcceptedIffRoom(b, run, m);
        if Accepts(b, run, 0, m) as real + 1.0 > StartEnvelope(b, run, m) {
          assert Passes(choice, 0, m + 1) as real <= StartEnvelope(b, run, m);
        } else {
          var i :| 0 <= i <= m && Accepts(b, run, i, m) as real + 1.0 > Envelope(run, i, m);
          BucketPassesMost(b, run, choice, i);
          PassesSplit(choice, i, n);
          AcceptsSplit(b, run, i, n);
          assert Passes(choice, i, m + 1) as real <= Envelope(run, i, m);
        }
      }
    }
  }

  // ----- the counter, and requests that bypass the bucket -----

  lemma {:induction false} BlockedCountsRefusals(b: Bucket, run: seq<Request>, n: nat)
    requires n <= |run|
    ensures StateAt(b, run, n).blocked + Accepts(b, run, 0, n) == b.blocked + n
  {
    if n > 0 {
      BlockedCountsRefusals(b, run, n - 1);
    }
  }

  /** A check passes whatever the bucket holds, and leaves it alone, if and only if protection is off or the rate
      is zero. */
  lemma BypassIff(r: Request)
    ensures (forall b: Bucket :: Allows(b, r) && Step(b, r) == b) <==> !r.enabled || r.rps == 0
  {
    if r.enabled && r.rps != 0 {
      var empty := Bucket(0.0, r.now, 0);
      assert Refill(Elapsed(r.now, r.now), r.rps) == 0.0;
      assert !Allows(empty, r);
    }
  }

  function MeteredOnly(run: seq<Request>): seq<Request> {
    if run == [] then []
    else MeteredOnly(run[..|run| - 1]) + if run[|run| - 1].Metered() then [run[|run| - 1]] else []
  }

  lemma {:induction false} StatePrefix(b: Bucket, run: seq<Request>, tail: seq<Request>, n: nat)
    requires n <= |run|
    ensures StateAt(b, run + tail, n) == StateAt(b, run, n)
  {
    if n > 0 {
      StatePrefix(b, run, tail, n - 1);
    }
  }

  /** Disabled checks and checks at rate zero pass and leave no trace: the run without them ends alike. */
  lemma {:induction false} BypassLeavesNoTrace(b: Bucket, run: seq<Request>)
    ensures StateAt(b, MeteredOnly(run), |MeteredOnly(run)|) == StateAt(b, run, |run|)
  {
    if run != [] {
      var front, last := run[..|run| - 1], run[|run| - 1];
      assert run == front + [last];
      BypassLeavesNoTrace(b, front);
      StatePrefix(b, front, [last], |front|);
      if last.Metered() {
        assert MeteredOnly(run) == MeteredOnly(front) + [last];
        StatePrefix(b, MeteredOnly(front), [last], |MeteredOnly(front)|);
      } else {
        assert MeteredOnly(run) == MeteredOnly(front);
      }
    }
  }
}
