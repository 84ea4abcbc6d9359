/** Who keeps the key of an HTTP tunnel when entries expire or the relay is told to terminate.

    Expiry and termination take an entry out of the map and tell its handler; the handler removes the key
    again later, when another one may have it. The theorem holds for every configuration and says exactly
    when a handler that has not been told keeps its key.
 */
module HttpOwnership {
  import opened Wrappers
  import opened Registry

  /** The handler that holds a key has its entry in the map. */
  predicate Owns(s: State, h: Id) {
    h in s.handlers && s.handlers[h].key in s.tunnels && s.tunnels[s.handlers[h].key].owner == h
  }

  /** A handler of a key that has yet to remove it. */
  predicate Rival(s: State, g: Id, key: string) {
    && g in s.handlers && s.handlers[g].key == key
    && (s.handlers[g].pc.HttpInserted? || s.handlers[g].pc.HttpServing? || s.handlers[g].pc.HttpLeaving?)
  }

  ghost predicate NoRival(s: State, h: Id)
    requires h in s.handlers
  {
    forall g: Id | Rival(s, g, s.handlers[h].key) :: g == h
  }

  // ----- what every run keeps -----

  /** Held keys have no colon, and a handler that holds a key can still be told unless it has been. */
  ghost predicate Sound(s: State) {
    forall h: Id | Holding(s, h) :: ':' !in s.handlers[h].key && (h in s.armed || h in s.signalled)
  }

  /** A step makes a handler hold a key only by inserting it, and a held key does not change. */
  lemma HoldingBefore(cfg: Config, s: State, step: Step, h: Id)
    requires Apply(cfg, s, step).Some? && Holding(Apply(cfg, s, step).value, h)
    ensures var t := Apply(cfg, s, step).value;
            || (Holding(s, h) && t.handlers[h].key == s.handlers[h].key)
            || (step.Insert? && step.h == h && t.handlers[h].key == step.key && h in t.armed && At(s, h, Admitted)
                && step.key !in s.tunnels && (ValidSubdomain(step.key) || RandomSubdomain(step.key)))
  {
    hide TcpKey, OfIp, Expired, Owners, ValidSubdomain, RandomSubdomain;
  }

  lemma SoundStep(cfg: Config, s: State, step: Step)
    requires Sound(s) && Apply(cfg, s, step).Some?
    ensures Sound(Apply(cfg, s, step).value)
  {
    hide Apply, ValidSubdomain, RandomSubdomain;
    var t := Apply(cfg, s, step).value;
    forall h: Id | Holding(t, h)
      ensures ':' !in t.handlers[h].key && (h in t.armed || h in t.signalled)
    {
      HoldingBefore(cfg, s, step, h);
      if Holding(s, h) {
        ToldOrArmed(cfg, s, step, h);
      }
      if step.Insert? && (ValidSubdomain(step.key) || RandomSubdomain(step.key)) {
        HttpKeysHaveNoColon(step.key);
      }
    }
  }

  lemma {:induction false} SoundHolds(cfg: Config, run: Run)
    requires Exec(cfg, run).Some?
    ensures Sound(Exec(cfg, run).value)
  {
    hide Sound, Apply;
    if run.Then? {
      SoundHolds(cfg, run.before);
      SoundStep(cfg, Exec(cfg, run.before).value, run.step);
    } else {
      NobodyHolds();
    }
  }

  lemma NobodyHolds()
    ensures Sound(INIT)
  {
  }

  // ----- one step -----

  lemma RivalBefore(cfg: Config, s: State, step: Step, g: Id, key: string)
    requires Apply(cfg, s, step).Some? && Rival(Apply(cfg, s, step).value, g, key)
    ensures Rival(s, g, key) || (step == Insert(g, key) && key !in s.tunnels)
  {
    hide Apply, ValidSubdomain, RandomSubdomain;
    HoldingBefore(cfg, s, step, g);
    LeakedStays(cfg, s, step, g);
  }

  lemma LeakedStays(cfg: Config, s: State, step: Step, g: Id)
    requires Apply(cfg, s, step).Some?
    ensures At(s, g, HttpLeaked) ==> At(Apply(cfg, s, step).value, g, HttpLeaked)
  {
    hide TcpKey, OfIp, Expired, Owners, ValidSubdomain, RandomSubdomain;
  }

  /** An entry leaves the map by its key's removal, or its owner is told or has been told before. */
  lemma EntryStays(cfg: Config, s: State, step: Step, key: string)
    requires Apply(cfg, s, step).Some? && key in s.tunnels && ':' !in key
    ensures var t := Apply(cfg, s, step).value;
            || (key in t.tunnels && t.tunnels[key].owner == s.tunnels[key].owner)
            || (step.Remove? && At(s, step.h, HttpLeaving) && s.handlers[step.h].key == key)
            || ((cfg.maxAge > 0 || cfg.mayTerminate)
                && (s.tunnels[key].owner !in s.armed || s.tunnels[key].owner in t.signalled))
  {
    hide TcpKey, OfIp, ValidSubdomain, RandomSubdomain, Expired;
    match step
    case InsertTcp(h) =>
      TcpKeysHaveColon(s.handlers[h].pc.port);
    case Remove(h) =>
      if s.handlers[h].pc.TcpClosed? {
        TcpKeysHaveColon(s.handlers[h].pc.port);
      }
    case Expire =>
      EvictedAreTold(s, Expired(cfg, s), key);
    case Terminate =>
      EvictedAreTold(s, s.tunnels.Keys, key);
    case _ =>
  }

  lemma SafeStep(cfg: Config, s: State, step: Step, h: Id)
    requires Sound(s) && Apply(cfg, s, step).Some? && Holding(s, h) && Spared(cfg, s, h)
    requires Owns(s, h) && NoRival(s, h)
    requires Holding(Apply(cfg, s, step).value, h) && Spared(cfg, Apply(cfg, s, step).value, h)
    ensures Owns(Apply(cfg, s, step).value, h) && NoRival(Apply(cfg, s, step).value, h)
  {
    hide Apply, ValidSubdomain, RandomSubdomain;
    var t, key := Apply(cfg, s, step).value, s.handlers[h].key;
    HoldingBefore(cfg, s, step, h);
    EntryStays(cfg, s, step, key);
    ToldStays(cfg, s, step, h);
    if step.Remove? && At(s, step.h, HttpLeaving) && s.handlers[step.h].key == key {
      assert Rival(s, step.h, key);
      RemoverLeaves(cfg, s, h);
    }
    forall g: Id | Rival(t, g, key)
      ensures g == h
    {
      RivalBefore(cfg, s, step, g, key);
    }
  }

  lemma RemoverLeaves(cfg: Config, s: State, h: Id)
    requires At(s, h, HttpLeaving)
    ensures Apply(cfg, s, Remove(h)).Some? && !Holding(Apply(cfg, s, Remove(h)).value, h)
  {
  }

  // ----- continuations -----

  lemma {:induction false} InsertedAlong(cfg: Config, s: State, more: Run, h: Id)
    requires ExecFrom(cfg, s, more).Some? && h in s.handlers && Inserted(s.handlers[h].pc)
    ensures var t := ExecFrom(cfg, s, more).value; h in t.handlers && Inserted(t.handlers[h].pc)
  {
    hide Apply;
    if more.Then? {
      InsertedAlong(cfg, s, more.before, h);
      InsertedStays(cfg, ExecFrom(cfg, s, more.before).value, more.step, h);
    }
  }

  lemma {:induction false} SafeAlong(cfg: Config, run: Run, more: Run, h: Id)
    requires Exec(cfg, run).Some?
    requires var s := Exec(cfg, run).value;
             && Holding(s, h) && Spared(cfg, s, h) && Owns(s, h) && NoRival(s, h) && ExecFrom(cfg, s, more).Some?
             && Holding(ExecFrom(cfg, s, more).value, h) && Spared(cfg, ExecFrom(cfg, s, more).value, h)
    ensures var t := ExecFrom(cfg, Exec(cfg, run).value, more).value; Owns(t, h) && NoRival(t, h)
  {
    hide Apply, Owns, NoRival, Sound, Exec, ValidSubdomain, RandomSubdomain, Spared;
    if more.Then? {
      var s := Exec(cfg, run).value;
      var t := ExecFrom(cfg, s, more.before).value;
      HoldingBefore(cfg, t, more.step, h);
      InsertedAlong(cfg, s, more.before, h);
      ToldStays(cfg, t, more.step, h);
      SafeAlong(cfg, run, more.before, h);
      ExecAppend(cfg, run, more.before);
      SoundHolds(cfg, Append(run, more.before));
      SafeStep(cfg, t, more.step, h);
    }
  }

  /** In every continuation, a handler has its key for as long as it holds it and is spared. */
  ghost predicate KeepsKey(cfg: Config, s: State, h: Id) {
    forall more, t | ExecFrom(cfg, s, more) == Some(t) && Holding(t, h) && Spared(cfg, t, h) :: Owns(t, h)
  }

  lemma EndSteps(cfg: Config, s: State, g: Id)
    ensures At(s, g, HttpInserted) ==> Apply(cfg, s, Reply(g, true)) == Some(Go(s, g, HttpServing))
    ensures At(s, g, HttpServing) ==> Apply(cfg, s, End(g)) == Some(Go(s, g, HttpLeaving))
    ensures At(s, g, HttpLeaving) ==>
              Apply(cfg, s, Remove(g)) == Some(Go(s, g, Finished).(tunnels := s.tunnels - {s.handlers[g].key}))
  {
  }

  lemma ContinueWith(cfg: Config, s: State, more: Run, step: Step, t: State, u: State)
    requires ExecFrom(cfg, s, more) == Some(t) && Apply(cfg, t, step) == Some(u)
    ensures ExecFrom(cfg, s, Then(more, step)) == Some(u)
  {
  }

  /** The steps by which a rival removes the key. */
  lemma RivalRemoves(cfg: Config, s: State, g: Id, h: Id) returns (more: Run, t: State)
    requires Holding(s, h) && g != h && Rival(s, g, s.handlers[h].key)
    ensures ExecFrom(cfg, s, more) == Some(t) && Holding(t, h) && t.signalled == s.signalled && !Owns(t, h)
  {
    hide Apply;
    more, t := Start, s;
    assert ExecFrom(cfg, s, Start) == Some(s);
    hide ExecFrom;
    if t.handlers[g].pc.HttpInserted? {
      EndSteps(cfg, t, g);
      ContinueWith(cfg, s, more, Reply(g, true), t, Go(t, g, HttpServing));
      more, t := Then(more, Reply(g, true)), Go(t, g, HttpServing);
    }
    if t.handlers[g].pc.HttpServing? {
      EndSteps(cfg, t, g);
      ContinueWith(cfg, s, more, End(g), t, Go(t, g, HttpLeaving));
      more, t := Then(more, End(g)), Go(t, g, HttpLeaving);
    }
    EndSteps(cfg, t, g);
    var u := Go(t, g, Finished).(tunnels := t.tunnels - {t.handlers[g].key});
    ContinueWith(cfg, s, more, Remove(g), t, u);
    more, t := Then(more, Remove(g)), u;
  }

  /** For every configuration and from every reachable state: a handler keeps its key until it is told, and if
      nothing can expire and no signal can come even after that, exactly when it has it and no other handler of
      the same key has yet to remove it. */
  lemma HttpKeepsKeyIff(cfg: Config, run: Run, h: Id)
    requires Exec(cfg, run).Some?
    requires Holding(Exec(cfg, run).value, h) && Spared(cfg, Exec(cfg, run).value, h)
    ensures var s := Exec(cfg, run).value;
            KeepsKey(cfg, s, h) <==> Owns(s, h) && NoRival(s, h)
  {
    hide Exec, Apply, Owns, Rival, Holding;
    var s := Exec(cfg, run).value;
    HoldingExists(s, h);
    if Owns(s, h) && NoRival(s, h) {
      forall more, t | ExecFrom(cfg, s, more) == Some(t) && Holding(t, h) && Spared(cfg, t, h)
        ensures Owns(t, h)
      {
        SafeAlong(cfg, run, more, h);
      }
    } else if !NoRival(s, h) {
      var g :| Rival(s, g, s.handlers[h].key) && g != h;
      var more, t := RivalRemoves(cfg, s, g, h);
    } else {
      assert ExecFrom(cfg, s, Start) == Some(s);
    }
  }

  lemma HoldingExists(s: State, h: Id)
    requires Holding(s, h)
    ensures h in s.handlers
  {
  }

  /** So what decides is the moment of insertion: a handler keeps its key until it is told exactly when no
      handler whose entry was swept away has yet to remove the same key. */
  lemma HttpInsertionIff(cfg: Config, run: Run, h: Id, key: string)
    requires Exec(cfg, run).Some? && At(Exec(cfg, run).value, h, Admitted)
    requires key !in Exec(cfg, run).value.tunnels && (ValidSubdomain(key) || RandomSubdomain(key))
    ensures Apply(cfg, Exec(cfg, run).value, Insert(h, key)).Some?
    ensures var s := Exec(cfg, run).value;
            KeepsKey(cfg, Apply(cfg, s, Insert(h, key)).value, h) <==> forall g: Id :: !Rival(s, g, key)
  {
    hide Exec, KeepsKey, ValidSubdomain, RandomSubdomain;
    var s := Exec(cfg, run).value;
    NotToldBeforeInsertion(cfg, run, h);
    InsertionOwns(cfg, s, h, key);
    var t := Apply(cfg, s, Insert(h, key)).value;
    ExecThen(cfg, run, Insert(h, key), s, t);
    HttpKeepsKeyIff(cfg, Then(run, Insert(h, key)), h);
  }

  lemma InsertionOwns(cfg: Config, s: State, h: Id, key: string)
    requires At(s, h, Admitted) && key !in s.tunnels && (ValidSubdomain(key) || RandomSubdomain(key))
    ensures Apply(cfg, s, Insert(h, key)).Some?
    ensures var t := Apply(cfg, s, Insert(h, key)).value;
            && Holding(t, h) && Owns(t, h) && t.signalled == s.signalled
            && (NoRival(t, h) <==> forall g: Id :: !Rival(s, g, key))
  {
    hide ValidSubdomain, RandomSubdomain;
    var t := Apply(cfg, s, Insert(h, key)).value;
    assert forall g: Id :: g != h ==> (Rival(t, g, key) <==> Rival(s, g, key));
  }
}
