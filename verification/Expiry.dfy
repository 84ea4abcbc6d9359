/** Whom the expiry task and the termination signal tell to disconnect, and what they take out of the map. */
module Expiry {
  import opened Wrappers
  import opened Registry

  // ----- one step -----

  ghost predicate OwnsOneOf(s: State, h: Id, keys: set<string>) {
    exists k | k in keys && k in s.tunnels :: s.tunnels[k].owner == h
  }

  /** The entries of some keys are gone and nothing else in the map has changed; who owned one of them and could
      be told has been told, and nobody else. */
  ghost predicate Swept(s: State, t: State, keys: set<string>) {
    && (forall k :: k in t.tunnels <==> k in s.tunnels && k !in keys)
    && (forall k | k in t.tunnels :: t.tunnels[k] == s.tunnels[k])
    && (forall h: Id :: h in t.signalled <==> h in s.signalled || (h in s.armed && OwnsOneOf(s, h, keys)))
    && (forall h: Id :: h in t.armed <==> h in s.armed && !OwnsOneOf(s, h, keys))
    && t.handlers == s.handlers && t.bound == s.bound && t.now == s.now
  }

  lemma EvictIs(s: State, keys: set<string>)
    ensures Swept(s, Evict(s, keys), keys)
  {
    forall h: Id
      ensures h in Owners(s.tunnels, keys) <==> OwnsOneOf(s, h, keys)
    {
    }
  }

  /** The expiry task removes exactly the entries that have reached the maximum age, or that are from later than
      the clock shows, and tells exactly their owners, unless they have been told before. */
  lemma ExpireIs(cfg: Config, s: State)
    requires cfg.maxAge > 0
    ensures Apply(cfg, s, Expire).Some?
    ensures Swept(s, Apply(cfg, s, Expire).value,
                  set k | k in s.tunnels && (s.now < s.tunnels[k].connectedAt
                                             || s.now >= s.tunnels[k].connectedAt + cfg.maxAge))
  {
    var aged := set k | k in s.tunnels && (s.now < s.tunnels[k].connectedAt
                                           || s.now >= s.tunnels[k].connectedAt + cfg.maxAge);
    assert Expired(cfg, s) == aged;
    EvictIs(s, aged);
  }

  /** The termination signal empties the map and tells every owner that has not been told before. */
  lemma TerminateIs(cfg: Config, s: State)
    requires cfg.mayTerminate
    ensures Apply(cfg, s, Terminate).Some?
    ensures Apply(cfg, s, Terminate).value.tunnels == map[]
    ensures Swept(s, Apply(cfg, s, Terminate).value, s.tunnels.Keys)
  {
    EvictIs(s, s.tunnels.Keys);
  }

  // ----- what every run keeps -----

  /** Entries are made by handlers that have inserted a key, each makes one, and its owner can be told unless
      it has been. */
  ghost predicate EntriesSound(s: State) {
    && (forall k | k in s.tunnels ::
          var h := s.tunnels[k].owner;
          h in s.handlers && Inserted(s.handlers[h].pc) && (h in s.armed || h in s.signalled))
    && forall j, k | j in s.tunnels && k in s.tunnels && s.tunnels[j].owner == s.tunnels[k].owner :: j == k
  }

  /** An entry after a step is an entry from before, or the one that the stepping handler inserts. */
  lemma EntryBefore(cfg: Config, s: State, step: Step, k: string)
    requires Apply(cfg, s, step).Some? && k in Apply(cfg, s, step).value.tunnels
    ensures var t := Apply(cfg, s, step).value;
            || (k in s.tunnels && t.tunnels[k] == s.tunnels[k])
            || ((step.Insert? || step.InsertTcp?) && t.tunnels[k].owner == step.h
                && step.h in s.handlers && !Inserted(s.handlers[step.h].pc)
                && step.h in t.handlers && Inserted(t.handlers[step.h].pc) && step.h in t.armed
                && forall j | j in t.tunnels && j != k :: j in s.tunnels && t.tunnels[j] == s.tunnels[j])
  {
    hide OfIp, Expired, Owners, ValidSubdomain, RandomSubdomain, TcpKey;
  }

  lemma EntriesStep(cfg: Config, s: State, step: Step)
    requires EntriesSound(s) && Apply(cfg, s, step).Some?
    ensures EntriesSound(Apply(cfg, s, step).value)
  {
    hide Apply;
    var t := Apply(cfg, s, step).value;
    forall k | k in t.tunnels
      ensures var h := t.tunnels[k].owner;
              h in t.handlers && Inserted(t.handlers[h].pc) && (h in t.armed || h in t.signalled)
    {
      EntryBefore(cfg, s, step, k);
      if k in s.tunnels && t.tunnels[k] == s.tunnels[k] {
        InsertedStays(cfg, s, step, t.tunnels[k].owner);
        ToldOrArmed(cfg, s, step, t.tunnels[k].owner);
      }
    }
    forall j, k | j in t.tunnels && k in t.tunnels && t.tunnels[j].owner == t.tunnels[k].owner
      ensures j == k
    {
      EntryBefore(cfg, s, step, j);
      EntryBefore(cfg, s, step, k);
    }
  }

  lemma {:induction false} EntriesHold(cfg: Config, run: Run)
    requires Exec(cfg, run).Some?
    ensures EntriesSound(Exec(cfg, run).value)
  {
    hide EntriesSound, Apply;
    if run.Then? {
      EntriesHold(cfg, run.before);
      EntriesStep(cfg, Exec(cfg, run.before).value, run.step);
    } else {
      NoEntries();
    }
  }

  lemma NoEntries()
    ensures EntriesSound(INIT)
  {
  }

  // ----- when a handler is told -----

  /** The time that passes on the clock in a continuation, which is negative if the clock is set back. */
  function Passed(more: Run): int {
    if more.Start? then 0
    else Passed(more.before) + if more.step.Tick? then more.step.elapsed else 0
  }

  /** A continuation in which nobody but the expiry task tells a handler, while the clock never shows more than
      some seconds before and after the present reading. */
  predicate OnlyExpiry(more: Run, back: nat, within: nat) {
    more.Then? ==>
      && !more.step.Disconnect? && !more.step.Terminate? && 0 <= Passed(more) + back && Passed(more) <= within
      && OnlyExpiry(more.before, back, within)
  }

  lemma TimeStep(cfg: Config, s: State, step: Step)
    requires Apply(cfg, s, step).Some?
    ensures Apply(cfg, s, step).value.now == s.now + if step.Tick? then step.elapsed else 0
  {
    hide OfIp, Expired, Owners, ValidSubdomain, RandomSubdomain, TcpKey;
  }

  lemma ToldByExpiry(cfg: Config, s: State, step: Step, h: Id)
    requires Apply(cfg, s, step).Some? && !step.Disconnect? && !step.Terminate?
    requires h !in s.signalled && h in Apply(cfg, s, step).value.signalled
    ensures step.Expire? && cfg.maxAge > 0
    ensures exists k | k in s.tunnels && s.tunnels[k].owner == h ::
              s.now < s.tunnels[k].connectedAt || s.now >= s.tunnels[k].connectedAt + cfg.maxAge
  {
    hide OfIp, Expired, ValidSubdomain, RandomSubdomain, TcpKey, Evict;
    if step.Expire? {
      ExpireIs(cfg, s);
    }
  }

  /** Along a continuation, the entry of a handler stays what it was or goes. */
  lemma {:induction false} EntryAlong(cfg: Config, s: State, more: Run, h: Id, key: string)
    requires ExecFrom(cfg, s, more).Some? && h in s.handlers && Inserted(s.handlers[h].pc)
    requires forall k | k in s.tunnels && s.tunnels[k].owner == h :: k == key
    ensures var t := ExecFrom(cfg, s, more).value;
            && t.now == s.now + Passed(more) && h in t.handlers && Inserted(t.handlers[h].pc)
            && forall k | k in t.tunnels && t.tunnels[k].owner == h ::
                 k == key && k in s.tunnels && t.tunnels[k] == s.tunnels[k]
  {
    hide Apply;
    if more.Then? {
      EntryAlong(cfg, s, more.before, h, key);
      var u, t := ExecFrom(cfg, s, more.before).value, ExecFrom(cfg, s, more).value;
      TimeStep(cfg, u, more.step);
      InsertedStays(cfg, u, more.step, h);
      forall k | k in t.tunnels && t.tunnels[k].owner == h
        ensures k == key && k in s.tunnels && t.tunnels[k] == s.tunnels[k]
      {
        EntryBefore(cfg, u, more.step, k);
      }
    }
  }

  lemma {:induction false} ToldIsOld(cfg: Config, s: State, more: Run, h: Id, key: string, back: nat, within: nat)
    requires ExecFrom(cfg, s, more).Some? && h in s.handlers && Inserted(s.handlers[h].pc)
    requires key in s.tunnels && forall k | k in s.tunnels && s.tunnels[k].owner == h :: k == key
    requires OnlyExpiry(more, back, within) && h !in s.signalled && h in ExecFrom(cfg, s, more).value.signalled
    ensures cfg.maxAge > 0
    ensures s.now - back < s.tunnels[key].connectedAt || s.now + within >= s.tunnels[key].connectedAt + cfg.maxAge
  {
    hide Apply;
    if more.Then? {
      var u := ExecFrom(cfg, s, more.before).value;
      if h in u.signalled {
        ToldIsOld(cfg, s, more.before, h, key, back, within);
      } else {
        ToldByExpiry(cfg, u, more.step, h);
        EntryAlong(cfg, s, more.before, h, key);
        assert 0 <= Passed(more.before) + back && Passed(more.before) <= within;
      }
    }
  }

  /** The handler can be told by the expiry task while the clock stays in some range. */
  ghost predicate CanBeTold(cfg: Config, s: State, h: Id, back: nat, within: nat) {
    exists more :: OnlyExpiry(more, back, within)
                   && ExecFrom(cfg, s, more).Some? && h in ExecFrom(cfg, s, more).value.signalled
  }

  /** From every reachable state, the expiry task can tell the owner of an entry exactly if the clock can show the
      time at which the entry reaches the maximum age, or be set back to before the entry was made. */
  lemma ToldWithinIff(cfg: Config, run: Run, key: string, back: nat, within: nat)
    requires cfg.maxAge > 0 && Exec(cfg, run).Some? && key in Exec(cfg, run).value.tunnels
    requires Exec(cfg, run).value.tunnels[key].owner !in Exec(cfg, run).value.signalled
    ensures var s := Exec(cfg, run).value;
            (CanBeTold(cfg, s, s.tunnels[key].owner, back, within)
             <==> || s.now + within >= s.tunnels[key].connectedAt + cfg.maxAge
                  || s.now - back < s.tunnels[key].connectedAt)
  {
    hide Exec, Apply;
    var s := Exec(cfg, run).value;
    var h := s.tunnels[key].owner;
    EntriesHold(cfg, run);
    if CanBeTold(cfg, s, h, back, within) {
      var more :| OnlyExpiry(more, back, within)
                  && ExecFrom(cfg, s, more).Some? && h in ExecFrom(cfg, s, more).value.signalled;
      ToldIsOld(cfg, s, more, h, key, back, within);
    }
    if s.now + within >= s.tunnels[key].connectedAt + cfg.maxAge {
      ClockAndExpire(cfg, s, key, within, back, within);
    } else if s.now - back < s.tunnels[key].connectedAt {
      var time: int := back;
      ClockAndExpire(cfg, s, key, -time, back, within);
    }
  }

  lemma OneMore(more: Run, step: Step, back: nat, within: nat)
    ensures Passed(Then(more, step)) == if step.Tick? then Passed(more) + step.elapsed else Passed(more)
    ensures OnlyExpiry(Then(more, step), back, within)
       <==> && !step.Disconnect? && !step.Terminate?
            && 0 <= Passed(Then(more, step)) + back && Passed(Then(more, step)) <= within
            && OnlyExpiry(more, back, within)
    ensures Passed(Start) == 0 && OnlyExpiry(Start, back, within)
  {
  }

  lemma ClockAndExpire(cfg: Config, s: State, key: string, elapsed: int, back: nat, within: nat)
    requires cfg.maxAge > 0 && key in s.tunnels && s.tunnels[key].owner in s.armed
    requires 0 <= elapsed + back && elapsed <= within
    requires || s.now + elapsed < s.tunnels[key].connectedAt
             || s.now + elapsed >= s.tunnels[key].connectedAt + cfg.maxAge
    ensures CanBeTold(cfg, s, s.tunnels[key].owner, back, within)
  {
    var t := s.(now := s.now + elapsed);
    var waited := Then(Start, Tick(elapsed));
    var more := Then(waited, Expire);
    assert ExecFrom(cfg, s, waited) == Some(t);
    ExpireIs(cfg, t);
    assert ExecFrom(cfg, s, more) == Apply(cfg, t, Expire);
    hide Apply, ExecFrom;
    OneMore(Start, Tick(elapsed), back, within);
    OneMore(waited, Expire, back, within);
    hide Passed, OnlyExpiry;
    assert OnlyExpiry(more, back, within);
  }
}
