/** The caps on tunnels, globally and per client address, when registrations race.

    A cap is checked under one lock and the entry inserted under another. A bound holds in every run; it is
    attained; and the cap itself holds exactly if no two registrations overlap.
 */
module Caps {
  import opened Arith
  import opened Wrappers
  import opened Text
  import opened Registry

  /** The tunnels and handlers a cap is about: all of them, or those of one address. The third scope is that of
      the handlers of one address that have passed the global check. */
  datatype Scope = All | OneIp(ip: string) | IpUnderAll(ip: string)

  predicate InScope(scope: Scope, ip: string) {
    scope.All? || scope.ip == ip
  }

  function Cap(cfg: Config, scope: Scope): nat {
    if scope.OneIp? then cfg.maxPerIp else cfg.maxTunnels
  }

  function Held(s: State, scope: Scope): set<string> {
    set k | k in s.tunnels && InScope(scope, s.tunnels[k].ip)
  }

  predicate BetweenCheckAndInsert(scope: Scope, pc: Pc) {
    pc.Admitted? || pc.TcpBound? || pc.TcpReplied? || (scope.OneIp? && pc.CheckTotal?)
  }

  /** The handlers that have passed the cap's check and not inserted yet. */
  function Waiting(s: State, scope: Scope): set<Id> {
    set h | h in s.handlers && InScope(scope, s.handlers[h].ip) && BetweenCheckAndInsert(scope, s.handlers[h].pc)
  }

  /** At no time are more than k handlers between the check and the insertion. */
  ghost predicate Overlap(cfg: Config, run: Run, scope: Scope, k: nat) {
    && Exec(cfg, run).Some?
    && |Waiting(Exec(cfg, run).value, scope)| <= k
    && (run.Then? ==> Overlap(cfg, run.before, scope, k))
  }

  /** At no time does the number of tunnels leave 32 bits. */
  ghost predicate FewTunnels(cfg: Config, run: Run) {
    && Exec(cfg, run).Some?
    && |Exec(cfg, run).value.tunnels| < 0x1_0000_0000
    && (run.Then? ==> FewTunnels(cfg, run.before))
  }

  lemma SubsetSize<T>(a: set<T>, b: set<T>)
    requires a <= b
    ensures |a| <= |b|
  {
    assert b == a + (b - a);
  }

  /** A step admits a handler while there is room, moves one from waiting to holding, or adds to neither. */
  ghost predicate CapMove(cfg: Config, s: State, t: State, scope: Scope) {
    || (Held(t, scope) <= Held(s, scope) && Waiting(t, scope) <= Waiting(s, scope))
    || (Held(t, scope) <= Held(s, scope) && AsU32(|Held(s, scope)|) < Cap(cfg, scope))
    || exists h, k | h in Waiting(s, scope) ::
         Waiting(t, scope) <= Waiting(s, scope) - {h} && Held(t, scope) <= Held(s, scope) + {k}
  }

  lemma CapStep(cfg: Config, s: State, step: Step, scope: Scope)
    requires Cap(cfg, scope) > 0 && Apply(cfg, s, step).Some?
    requires scope.IpUnderAll? ==> |s.tunnels| < 0x1_0000_0000
    ensures CapMove(cfg, s, Apply(cfg, s, step).value, scope)
  {
    match step
    case PassIp(h) =>
      CapCheckIp(cfg, s, h, scope);
    case PassTotal(h) =>
      CapCheckTotal(cfg, s, h, scope);
    case Insert(h, key) =>
      CapInsert(cfg, s, h, key, scope);
    case InsertTcp(h) =>
      hide Held, Waiting;
      EntryCap(s, Apply(cfg, s, step).value, scope, h, TcpKey(s.handlers[h].pc.port));
    case _ =>
      hide Held, Waiting, Apply;
      CapShrinks(cfg, s, step, scope);
  }

  lemma CapShrinks(cfg: Config, s: State, step: Step, scope: Scope)
    requires Apply(cfg, s, step).Some?
    requires !step.PassIp? && !step.PassTotal? && !step.Insert? && !step.InsertTcp?
    ensures var t := Apply(cfg, s, step).value;
            Held(t, scope) <= Held(s, scope) && Waiting(t, scope) <= Waiting(s, scope)
  {
  }

  lemma CapCheckIp(cfg: Config, s: State, h: Id, scope: Scope)
    requires Cap(cfg, scope) > 0 && Apply(cfg, s, PassIp(h)).Some?
    ensures CapMove(cfg, s, Apply(cfg, s, PassIp(h)).value, scope)
  {
    assert scope.OneIp? ==> OfIp(s.tunnels, scope.ip) == Held(s, scope);
  }

  lemma CapCheckTotal(cfg: Config, s: State, h: Id, scope: Scope)
    requires Cap(cfg, scope) > 0 && Apply(cfg, s, PassTotal(h)).Some?
    requires scope.IpUnderAll? ==> |s.tunnels| < 0x1_0000_0000
    ensures CapMove(cfg, s, Apply(cfg, s, PassTotal(h)).value, scope)
  {
    assert scope.All? ==> s.tunnels.Keys == Held(s, scope);
    SubsetSize(Held(s, scope), s.tunnels.Keys);
  }

  lemma CapInsert(cfg: Config, s: State, h: Id, key: string, scope: Scope)
    requires Apply(cfg, s, Insert(h, key)).Some?
    ensures CapMove(cfg, s, Apply(cfg, s, Insert(h, key)).value, scope)
  {
    hide Held, Waiting;
    EntryCap(s, Apply(cfg, s, Insert(h, key)).value, scope, h, key);
  }

  lemma EntryCap(s: State, t: State, scope: Scope, h: Id, key: string)
    requires h in s.handlers && BetweenCheckAndInsert(scope, s.handlers[h].pc)
    requires t.handlers.Keys == s.handlers.Keys
    requires forall g | g in s.handlers && g != h :: t.handlers[g] == s.handlers[g]
    requires t.handlers[h].ip == s.handlers[h].ip && !BetweenCheckAndInsert(scope, t.handlers[h].pc)
    requires t.tunnels == s.tunnels || (exists now :: t.tunnels == s.tunnels[key := Entry(h, s.handlers[h].ip, now)])
    ensures || (Held(t, scope) <= Held(s, scope) && Waiting(t, scope) <= Waiting(s, scope))
            || (h in Waiting(s, scope) && Waiting(t, scope) <= Waiting(s, scope) - {h}
                && Held(t, scope) <= Held(s, scope) + {key})
  {
  }

  /** Tunnels and waiting handlers together exceed the cap by less than the number that may wait at once. */
  lemma {:induction false} CapUnderRaces(cfg: Config, run: Run, scope: Scope, k: nat)
    requires Cap(cfg, scope) > 0 && Cap(cfg, scope) - 1 + k < 0x1_0000_0000
    requires Overlap(cfg, run, scope, k) && (scope.IpUnderAll? ==> FewTunnels(cfg, run))
    ensures var s := Exec(cfg, run).value;
            |Held(s, scope)| + |Waiting(s, scope)| <= Cap(cfg, scope) - 1 + k
  {
    hide Apply, Held, Waiting;
    match run
    case Start =>
      NothingHeld(scope);
    case Then(before, step) =>
      CapUnderRaces(cfg, before, scope, k);
      var s, t := Exec(cfg, before).value, Exec(cfg, run).value;
      CapStep(cfg, s, step, scope);
      CapBound(cfg, s, t, scope, k);
  }

  lemma NothingHeld(scope: Scope)
    ensures Held(INIT, scope) == {} && Waiting(INIT, scope) == {}
  {
  }

  lemma CapBound(cfg: Config, s: State, t: State, scope: Scope, k: nat)
    requires Cap(cfg, scope) > 0 && Cap(cfg, scope) - 1 + k < 0x1_0000_0000
    requires CapMove(cfg, s, t, scope) && |Waiting(t, scope)| <= k
    requires |Held(s, scope)| + |Waiting(s, scope)| <= Cap(cfg, scope) - 1 + k
    ensures |Held(t, scope)| + |Waiting(t, scope)| <= Cap(cfg, scope) - 1 + k
  {
    hide Held, Waiting;
    var hs, ws, ht, wt := Held(s, scope), Waiting(s, scope), Held(t, scope), Waiting(t, scope);
    if ht <= hs {
      SubsetSize(ht, hs);
      if wt <= ws {
        SubsetSize(wt, ws);
      }
    } else {
      var h, x :| h in ws && wt <= ws - {h} && ht <= hs + {x};
      SubsetSize(wt, ws - {h});
      SubsetSize(ht, hs + {x});
    }
  }

  // ----- the bound is attained -----

  /** The cap that is met first. For an address, that is the global cap if it is lower. */
  function Effective(cfg: Config, scope: Scope): nat {
    if scope.OneIp? && 0 < cfg.maxTunnels < cfg.maxPerIp then cfg.maxTunnels else Cap(cfg, scope)
  }

  /** In the global scope every handler comes from an address of its own. */
  function Address(scope: Scope, h: Id): string {
    match scope
    case All => Decimal(h)
    case OneIp(ip) => ip
    case IpUnderAll(ip) => ip
  }

  /** Handlers below m serve the keys that are their numbers. */
  ghost predicate Serving(tunnels: map<string, Entry>, scope: Scope, m: nat) {
    && |tunnels| == m
    && forall k | k in tunnels ::
         var g := tunnels[k].owner; g < m && k == Decimal(g) && tunnels[k].ip == Address(scope, g)
  }

  /** No handlers from n on, and those from m on are admitted. */
  ghost predicate Queued(handlers: map<Id, Handler>, scope: Scope, m: nat, n: nat) {
    && (forall h | h in handlers :: h < n)
    && forall h: Id | m <= h < n :: h in handlers && handlers[h] == Handler(Address(scope, h), "", Admitted)
  }

  /** Handlers 0 to m-1 serve the keys that are their numbers, and j more wait. */
  ghost predicate Stage(s: State, scope: Scope, m: nat, j: nat) {
    Serving(s.tunnels, scope, m) && Queued(s.handlers, scope, m, m + j) && |Waiting(s, scope)| == j
  }

  lemma NewName(s: State, scope: Scope, m: nat, j: nat, h: Id)
    requires Stage(s, scope, m, j) && m <= h
    ensures Decimal(h) !in s.tunnels && RandomSubdomain(Decimal(h))
    ensures scope.All? ==> OfIp(s.tunnels, Decimal(h)) == {}
  {
    hide Decimal, Waiting;
    DecimalChars(h);
    forall k | k in s.tunnels
      ensures k != Decimal(h)
    {
      if k == Decimal(h) {
        DecimalInjective(s.tunnels[k].owner, h);
      }
    }
  }

  lemma StageHasRoom(cfg: Config, s: State, scope: Scope, m: nat, j: nat)
    requires Stage(s, scope, m, j) && !scope.IpUnderAll? && m < Effective(cfg, scope) < 0x1_0000_0000
    ensures HasRoom(cfg, s, Address(scope, m + j))
  {
    hide Decimal, Waiting;
    NewName(s, scope, m, j, m + j);
    SubsetSize(OfIp(s.tunnels, Address(scope, m + j)), s.tunnels.Keys);
  }

  lemma ExecParts(cfg: Config, run: Run, step: Step)
    requires Exec(cfg, Then(run, step)).Some?
    ensures Exec(cfg, run).Some? && Apply(cfg, Exec(cfg, run).value, step) == Exec(cfg, Then(run, step))
  {
  }

  lemma WaitsMore(cfg: Config, s: State, step: Step, scope: Scope)
    requires Apply(cfg, s, step).Some? && (step.Arrive? || step.PassIp? || step.PassTotal?)
    ensures Waiting(Apply(cfg, s, step).value, scope) <= Waiting(s, scope) + {step.h}
  {
  }

  lemma WaitsNoMore(cfg: Config, s: State, step: Step, scope: Scope)
    requires Apply(cfg, s, step).Some? && (step.Insert? || step.Reply?)
    ensures Waiting(Apply(cfg, s, step).value, scope) <= Waiting(s, scope)
  {
  }

  lemma Overlaps(cfg: Config, run: Run, step: Step, scope: Scope, k: nat)
    requires Overlap(cfg, run, scope, k) && Exec(cfg, Then(run, step)).Some?
    requires |Waiting(Exec(cfg, Then(run, step)).value, scope)| <= k
    ensures Overlap(cfg, Then(run, step), scope, k)
  {
    hide Waiting, Apply;
  }

  /** One more handler passes the checks. */
  lemma AdmitOne(cfg: Config, run: Run, scope: Scope, m: nat, j: nat, k: nat) returns (run': Run)
    requires Overlap(cfg, run, scope, k) && Stage(Exec(cfg, run).value, scope, m, j) && j < k
    requires FewTunnels(cfg, run) && !scope.IpUnderAll? && m < Effective(cfg, scope) < 0x1_0000_0000
    ensures Overlap(cfg, run', scope, k) && Stage(Exec(cfg, run').value, scope, m, j + 1) && FewTunnels(cfg, run')
  {
    hide Exec, Apply, HasRoom, Waiting, Stage, FewTunnels;
    var s, h := Exec(cfg, run).value, m + j;
    var ip := Address(scope, h);
    StageHasRoom(cfg, s, scope, m, j);
    StageParts(s, scope, m, j);
    Admits(cfg, run, s, h, ip);
    run' := Admitting(run, h, ip);
    var t := Exec(cfg, run').value;
    var run1 := Then(run, Arrive(h, ip));
    var run2 := Then(run1, PassIp(h));
    ExecParts(cfg, run2, PassTotal(h));
    ExecParts(cfg, run1, PassIp(h));
    ExecParts(cfg, run, Arrive(h, ip));
    var s1, s2 := Exec(cfg, run1).value, Exec(cfg, run2).value;
    WaitsMore(cfg, s, Arrive(h, ip), scope);
    WaitsMore(cfg, s1, PassIp(h), scope);
    WaitsMore(cfg, s2, PassTotal(h), scope);
    var w := Waiting(s, scope) + {h};
    SubsetSize(Waiting(s1, scope), w);
    SubsetSize(Waiting(s2, scope), w);
    SubsetSize(Waiting(t, scope), w);
    Overlaps(cfg, run, Arrive(h, ip), scope, k);
    Overlaps(cfg, run1, PassIp(h), scope, k);
    Overlaps(cfg, run2, PassTotal(h), scope, k);
    StageAdmits(s, scope, m, j);
    Few(cfg, run, Arrive(h, ip));
    Few(cfg, run1, PassIp(h));
    Few(cfg, run2, PassTotal(h));
  }

  lemma StageParts(s: State, scope: Scope, m: nat, j: nat)
    requires Stage(s, scope, m, j)
    ensures m + j !in s.handlers && |Waiting(s, scope)| == j
    ensures j > 0 ==> At(s, m, Admitted) && s.handlers[m].ip == Address(scope, m)
  {
  }

  lemma StageAdmits(s: State, scope: Scope, m: nat, j: nat)
    requires Stage(s, scope, m, j)
    ensures Stage(s.(handlers := s.handlers[m + j := Handler(Address(scope, m + j), "", Admitted)]), scope, m, j + 1)
  {
    hide Address, Waiting, InScope, Serving;
    AddressInScope(scope, m + j);
    AdmittedWaits(s, scope, m + j, Address(scope, m + j));
  }

  lemma AddressInScope(scope: Scope, h: Id)
    ensures InScope(scope, Address(scope, h))
  {
  }

  lemma AdmittedWaits(s: State, scope: Scope, h: Id, ip: string)
    requires h !in s.handlers && InScope(scope, ip)
    ensures var t := s.(handlers := s.handlers[h := Handler(ip, "", Admitted)]);
            |Waiting(t, scope)| == |Waiting(s, scope)| + 1
  {
    var t := s.(handlers := s.handlers[h := Handler(ip, "", Admitted)]);
    assert Waiting(t, scope) == Waiting(s, scope) + {h};
  }

  /** The first waiting handler inserts its entry and replies. */
  lemma InsertOne(cfg: Config, run: Run, scope: Scope, m: nat, j: nat, k: nat) returns (run': Run)
    requires Overlap(cfg, run, scope, k) && Stage(Exec(cfg, run).value, scope, m, j) && j > 0
    requires FewTunnels(cfg, run) && m + 1 < 0x1_0000_0000
    ensures Overlap(cfg, run', scope, k) && Stage(Exec(cfg, run').value, scope, m + 1, j - 1) && FewTunnels(cfg, run')
  {
    hide Exec, Apply, Waiting, Stage, Decimal, RandomSubdomain, FewTunnels;
    var s, key := Exec(cfg, run).value, Decimal(m);
    NewName(s, scope, m, j, m);
    StageParts(s, scope, m, j);
    Inserts(cfg, run, s, m, key);
    var run1 := Then(run, Insert(m, key));
    run' := Then(run1, Reply(m, true));
    ExecParts(cfg, run1, Reply(m, true));
    ExecParts(cfg, run, Insert(m, key));
    var s1, t := Exec(cfg, run1).value, Exec(cfg, run').value;
    WaitsNoMore(cfg, s, Insert(m, key), scope);
    WaitsNoMore(cfg, s1, Reply(m, true), scope);
    SubsetSize(Waiting(s1, scope), Waiting(s, scope));
    SubsetSize(Waiting(t, scope), Waiting(s, scope));
    OverlapParts(cfg, run, scope, k);
    Overlaps(cfg, run, Insert(m, key), scope, k);
    Overlaps(cfg, run1, Reply(m, true), scope, k);
    StageInserts(s, scope, m, j);
    StageTunnels(s, scope, m, j);
    Few(cfg, run, Insert(m, key));
    Few(cfg, run1, Reply(m, true));
  }

  lemma StageTunnels(s: State, scope: Scope, m: nat, j: nat)
    requires Stage(s, scope, m, j)
    ensures |s.tunnels| == m
  {
  }

  lemma Few(cfg: Config, run: Run, step: Step)
    requires FewTunnels(cfg, run) && Exec(cfg, Then(run, step)).Some?
    requires step.Arrive? || step.PassIp? || step.PassTotal? || step.Reply?
             || (step.Insert? && |Exec(cfg, run).value.tunnels| + 1 < 0x1_0000_0000)
    ensures FewTunnels(cfg, Then(run, step))
  {
  }

  lemma OverlapParts(cfg: Config, run: Run, scope: Scope, k: nat)
    requires Overlap(cfg, run, scope, k)
    ensures |Waiting(Exec(cfg, run).value, scope)| <= k
  {
  }

  function Served(s: State, scope: Scope, h: Id): State {
    s.(tunnels := s.tunnels[Decimal(h) := Entry(h, Address(scope, h), s.now)],
       handlers := s.handlers[h := Handler(Address(scope, h), Decimal(h), HttpServing)],
       armed := s.armed + {h})
  }

  lemma ServingGrows(tunnels: map<string, Entry>, scope: Scope, m: nat, now: int)
    requires Serving(tunnels, scope, m) && Decimal(m) !in tunnels
    ensures Serving(tunnels[Decimal(m) := Entry(m, Address(scope, m), now)], scope, m + 1)
  {
    hide Decimal, Address;
  }

  lemma QueueMoves(handlers: map<Id, Handler>, scope: Scope, m: nat, n: nat, handler: Handler)
    requires Queued(handlers, scope, m, n) && m < n
    ensures Queued(handlers[m := handler], scope, m + 1, n)
  {
    hide Address;
  }

  lemma StageInserts(s: State, scope: Scope, m: nat, j: nat)
    requires Stage(s, scope, m, j) && j > 0 && Decimal(m) !in s.tunnels
    ensures Stage(Served(s, scope, m), scope, m + 1, j - 1)
  {
    hide Decimal, Waiting, Serving, Queued, Address;
    StageParts(s, scope, m, j);
    ServedWaitsNot(s, scope, m);
    ServingGrows(s.tunnels, scope, m, s.now);
    QueueMoves(s.handlers, scope, m, m + j, Handler(Address(scope, m), Decimal(m), HttpServing));
  }

  lemma ServedWaitsNot(s: State, scope: Scope, h: Id)
    requires At(s, h, Admitted) && s.handlers[h].ip == Address(scope, h)
    ensures |Waiting(Served(s, scope, h), scope)| == |Waiting(s, scope)| - 1
  {
    hide Decimal;
    assert Waiting(Served(s, scope, h), scope) == Waiting(s, scope) - {h};
    assert h in Waiting(s, scope);
  }

  lemma StageStart(scope: Scope)
    ensures Stage(INIT, scope, 0, 0)
  {
    NothingHeld(scope);
  }

  /** Up to the bound, any number of handlers can serve while others wait. */
  lemma Reaches(cfg: Config, scope: Scope, k: nat, m: nat, j: nat) returns (run: Run)
    requires 0 < Cap(cfg, scope) && !scope.IpUnderAll? && Effective(cfg, scope) - 1 + k < 0x1_0000_0000
    requires 1 <= k && j <= k && m + j <= Effective(cfg, scope) - 1 + k
    ensures Overlap(cfg, run, scope, k) && FewTunnels(cfg, run) && Stage(Exec(cfg, run).value, scope, m, j)
    decreases 2 * m + j
  {
    hide Exec, Stage;
    if m == 0 && j == 0 {
      run := Start;
      NothingHeld(scope);
      StageStart(scope);
      Begins(cfg);
    } else if m < Effective(cfg, scope) && j > 0 {
      run := Reaches(cfg, scope, k, m, j - 1);
      run := AdmitOne(cfg, run, scope, m, j - 1, k);
    } else {
      run := Reaches(cfg, scope, k, m - 1, j + 1);
      run := InsertOne(cfg, run, scope, m - 1, j + 1, k);
    }
  }

  lemma StageHeld(s: State, scope: Scope, m: nat)
    requires Stage(s, scope, m, 0)
    ensures |Held(s, scope)| == m
  {
    assert Held(s, scope) == s.tunnels.Keys;
  }

  /** For every cap, global or of one address, and every number of handlers that may overlap: a run in which
      the bound of the cap that is met first is reached. */
  lemma CapAttained(cfg: Config, scope: Scope, k: nat) returns (run: Run)
    requires 0 < Cap(cfg, scope) && !scope.IpUnderAll? && Effective(cfg, scope) - 1 + k < 0x1_0000_0000 && k >= 1
    ensures Overlap(cfg, run, scope, k) && FewTunnels(cfg, run)
    ensures |Held(Exec(cfg, run).value, scope)| == Effective(cfg, scope) - 1 + k
  {
    run := Reaches(cfg, scope, k, Effective(cfg, scope) - 1 + k, 0);
    StageHeld(Exec(cfg, run).value, scope, Effective(cfg, scope) - 1 + k);
  }

  /** A cap that is met first holds in every run with at most k handlers between its check and the insertion
      exactly if k <= 1. */
  lemma CapExactIff(cfg: Config, scope: Scope, k: nat)
    requires 0 < Cap(cfg, scope) == Effective(cfg, scope) && !scope.IpUnderAll?
    requires Cap(cfg, scope) + k <= 0x1_0000_0000
    ensures (forall run | Overlap(cfg, run, scope, k) :: |Held(Exec(cfg, run).value, scope)| <= Cap(cfg, scope))
       <==> k <= 1
  {
    hide Held, Exec;
    if k <= 1 {
      forall run | Overlap(cfg, run, scope, k)
        ensures |Held(Exec(cfg, run).value, scope)| <= Cap(cfg, scope)
      {
        CapUnderRaces(cfg, run, scope, k);
      }
    } else {
      var run := CapAttained(cfg, scope, k);
    }
  }

  // ----- the cap of an address above the global cap -----

  lemma {:induction false} OverlapUnderAll(cfg: Config, run: Run, ip: string, k: nat)
    requires Overlap(cfg, run, OneIp(ip), k)
    ensures Overlap(cfg, run, IpUnderAll(ip), k)
  {
    hide Exec, Waiting;
    if run.Then? {
      OverlapUnderAll(cfg, run.before, ip, k);
    }
    var s := Exec(cfg, run).value;
    WaitsUnderAll(s, ip);
    SubsetSize(Waiting(s, IpUnderAll(ip)), Waiting(s, OneIp(ip)));
  }

  lemma WaitsUnderAll(s: State, ip: string)
    ensures Waiting(s, IpUnderAll(ip)) <= Waiting(s, OneIp(ip))
    ensures Held(s, IpUnderAll(ip)) == Held(s, OneIp(ip))
  {
  }

  /** If the global cap is lower, it bounds the tunnels of an address: with at most k of its handlers between
      check and insertion, whatever other addresses do, the cap of the address holds in every run exactly if
      k is small enough. */
  lemma HigherCapExactIff(cfg: Config, ip: string, k: nat)
    requires 0 < cfg.maxTunnels < cfg.maxPerIp && cfg.maxTunnels + k <= 0x1_0000_0000
    ensures (forall run | Overlap(cfg, run, OneIp(ip), k) && FewTunnels(cfg, run) ::
               |Held(Exec(cfg, run).value, OneIp(ip))| <= cfg.maxPerIp)
       <==> cfg.maxTunnels - 1 + k <= cfg.maxPerIp
  {
    hide Held, Exec, FewTunnels;
    if cfg.maxTunnels - 1 + k <= cfg.maxPerIp {
      forall run | Overlap(cfg, run, OneIp(ip), k) && FewTunnels(cfg, run)
        ensures |Held(Exec(cfg, run).value, OneIp(ip))| <= cfg.maxPerIp
      {
        OverlapUnderAll(cfg, run, ip, k);
        CapUnderRaces(cfg, run, IpUnderAll(ip), k);
        WaitsUnderAll(Exec(cfg, run).value, ip);
      }
    } else {
      var run := CapAttained(cfg, OneIp(ip), k);
    }
  }
}
