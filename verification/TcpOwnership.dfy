/** Who owns the key of a TCP tunnel.

    A TCP handler inserts its key after it has bound the port, and at the end frees the port before it
    removes the key. Between the two another handler can bind the port and insert the same key. The theorem
    says exactly when a handler keeps its key, the run after it shows the loss.
 */
module TcpOwnership {
  import opened Wrappers
  import opened Text
  import opened Registry
  import HttpOwnership

  // ----- no two handlers hold a port -----

  predicate HoldsPort(s: State, h: Id, port: nat) {
    && h in s.handlers
    && (s.handlers[h].pc == TcpBound(port) || s.handlers[h].pc == TcpReplied(port)
        || s.handlers[h].pc == TcpServing(port) || s.handlers[h].pc == TcpLeaving(port))
  }

  ghost predicate PortsExclusive(s: State) {
    && (forall h: Id, p: nat | HoldsPort(s, h, p) :: p in s.bound)
    && forall g: Id, h: Id, p: nat | HoldsPort(s, g, p) && HoldsPort(s, h, p) :: g == h
  }

  /** A port is freed by the handler that holds it, which holds it no longer. */
  lemma Freed(cfg: Config, s: State, step: Step, port: nat)
    requires Apply(cfg, s, step).Some? && port in s.bound && port !in Apply(cfg, s, step).value.bound
    ensures exists g: Id :: HoldsPort(s, g, port) && !HoldsPort(Apply(cfg, s, step).value, g, port)
  {
    assert HoldsPort(s, step.h, port) && !HoldsPort(Apply(cfg, s, step).value, step.h, port);
  }

  lemma HeldBefore(cfg: Config, s: State, step: Step, h: Id, port: nat)
    requires Apply(cfg, s, step).Some? && HoldsPort(Apply(cfg, s, step).value, h, port)
    ensures HoldsPort(s, h, port) || (step == Bind(h, port) && port !in s.bound)
    ensures step == Bind(h, port) ==> port in Apply(cfg, s, step).value.bound
  {
    hide TcpKey, OfIp, Expired, Owners, ValidSubdomain, RandomSubdomain;
  }

  lemma PortsStep(cfg: Config, s: State, step: Step)
    requires PortsExclusive(s) && Apply(cfg, s, step).Some?
    ensures PortsExclusive(Apply(cfg, s, step).value)
  {
    hide Apply;
    var t := Apply(cfg, s, step).value;
    forall h: Id, p: nat | HoldsPort(t, h, p)
      ensures p in t.bound
      ensures HoldsPort(s, h, p) || (step == Bind(h, p) && p !in s.bound)
    {
      HeldBefore(cfg, s, step, h, p);
      if p in s.bound && p !in t.bound {
        Freed(cfg, s, step, p);
      }
    }
  }

  lemma {:induction false} PortsHold(cfg: Config, run: Run)
    requires Exec(cfg, run).Some?
    ensures PortsExclusive(Exec(cfg, run).value)
  {
    hide PortsExclusive, Apply;
    if run.Then? {
      PortsHold(cfg, run.before);
      PortsStep(cfg, Exec(cfg, run.before).value, run.step);
    } else {
      NoPorts();
    }
  }

  lemma NoPorts()
    ensures PortsExclusive(INIT)
  {
  }

  ghost predicate PortHeld(s: State, port: nat) {
    exists h: Id :: HoldsPort(s, h, port)
  }

  lemma HeldStays(cfg: Config, s: State, step: Step, h: Id, port: nat)
    requires Apply(cfg, s, step).Some? && HoldsPort(s, h, port)
    ensures HoldsPort(Apply(cfg, s, step).value, h, port) || port !in Apply(cfg, s, step).value.bound
  {
    hide TcpKey, OfIp, Expired, Owners, ValidSubdomain, RandomSubdomain;
  }

  lemma NewlyBound(cfg: Config, s: State, step: Step, port: nat)
    requires Apply(cfg, s, step).Some? && port !in s.bound && port in Apply(cfg, s, step).value.bound
    ensures PortHeld(Apply(cfg, s, step).value, port)
  {
    hide TcpKey, OfIp, Expired, Owners, ValidSubdomain, RandomSubdomain;
    assert step.Bind? && HoldsPort(Apply(cfg, s, step).value, step.h, port);
  }

  lemma {:induction false} BoundAreHeld(cfg: Config, run: Run, port: nat)
    requires Exec(cfg, run).Some? && port in Exec(cfg, run).value.bound
    ensures PortHeld(Exec(cfg, run).value, port)
  {
    hide Apply;
    if run.Then? {
      var s := Exec(cfg, run.before).value;
      if port in s.bound {
        BoundAreHeld(cfg, run.before, port);
        var h: Id :| HoldsPort(s, h, port);
        HeldStays(cfg, s, run.step, h, port);
      } else {
        NewlyBound(cfg, s, run.step, port);
      }
    }
  }

  /** In every run, exactly the ports that some handler holds are bound: none is leaked. */
  lemma BoundIffHeld(cfg: Config, run: Run, port: nat)
    requires Exec(cfg, run).Some?
    ensures port in Exec(cfg, run).value.bound <==> PortHeld(Exec(cfg, run).value, port)
  {
    hide Exec;
    PortsHold(cfg, run);
    if port in Exec(cfg, run).value.bound {
      BoundAreHeld(cfg, run, port);
    }
  }

  /** A serving handler can still be told unless it has been. */
  ghost predicate Armed(s: State) {
    forall h: Id | h in s.handlers && s.handlers[h].pc.TcpServing? :: h in s.armed || h in s.signalled
  }

  lemma ArmedStep(cfg: Config, s: State, step: Step)
    requires Armed(s) && Apply(cfg, s, step).Some?
    ensures Armed(Apply(cfg, s, step).value)
  {
    hide Apply;
    var t := Apply(cfg, s, step).value;
    forall h: Id | h in t.handlers && t.handlers[h].pc.TcpServing?
      ensures h in t.armed || h in t.signalled
    {
      ServesBefore(cfg, s, step, h, t.handlers[h].pc.port);
      if At(s, h, TcpServing(t.handlers[h].pc.port)) {
        ToldOrArmed(cfg, s, step, h);
      }
    }
  }

  lemma {:induction false} ArmedHolds(cfg: Config, run: Run)
    requires Exec(cfg, run).Some?
    ensures Armed(Exec(cfg, run).value)
  {
    hide Armed, Apply;
    if run.Then? {
      ArmedHolds(cfg, run.before);
      ArmedStep(cfg, Exec(cfg, run.before).value, run.step);
    } else {
      NobodyServes();
    }
  }

  lemma NobodyServes()
    ensures Armed(INIT)
  {
  }

  // ----- when a key is kept -----

  predicate OwnsPort(s: State, h: Id, port: nat) {
    TcpKey(port) in s.tunnels && s.tunnels[TcpKey(port)].owner == h
  }

  /** No handler has freed the port and not yet removed its key. */
  ghost predicate NoneClosed(s: State, port: nat) {
    forall g: Id :: !At(s, g, TcpClosed(port))
  }

  lemma TcpKeysDiffer(p: nat, q: nat)
    ensures TcpKey(p) == TcpKey(q) ==> p == q
  {
    hide Decimal;
    assert TcpKey(p)[4..] == Decimal(p) && TcpKey(q)[4..] == Decimal(q);
    if Decimal(p) == Decimal(q) {
      DecimalInjective(p, q);
    }
  }

  /** While a handler serves, it alone holds the port: its key stays, and nobody closes the port. */
  lemma SafeStep(cfg: Config, s: State, step: Step, h: Id, port: nat)
    requires PortsExclusive(s) && HttpOwnership.Sound(s) && Armed(s) && Apply(cfg, s, step).Some?
    requires At(s, h, TcpServing(port)) && OwnsPort(s, h, port) && NoneClosed(s, port)
    requires At(Apply(cfg, s, step).value, h, TcpServing(port)) && Spared(cfg, Apply(cfg, s, step).value, h)
    ensures OwnsPort(Apply(cfg, s, step).value, h, port) && NoneClosed(Apply(cfg, s, step).value, port)
  {
    hide TcpKey;
    var t := Apply(cfg, s, step).value;
    TcpKeysHaveColon(port);
    assert HoldsPort(s, h, port);
    ToldStays(cfg, s, step, h);
    forall g: Id
      ensures !At(t, g, TcpClosed(port))
    {
      ClosedByRelease(cfg, s, step, g, port);
    }
    match step
    case Insert(g, key) =>
      HttpKeysHaveNoColon(key);
    case InsertTcp(g) =>
      var q := s.handlers[g].pc.port;
      TcpKeysDiffer(port, q);
      assert HoldsPort(s, g, q);
    case Remove(g) =>
      if s.handlers[g].pc.TcpClosed? {
        TcpKeysDiffer(port, s.handlers[g].pc.port);
        assert At(s, g, TcpClosed(s.handlers[g].pc.port));
      } else {
        assert Holding(s, g);
      }
    case Expire =>
      EvictedAreTold(s, Expired(cfg, s), TcpKey(port));
    case Terminate =>
      EvictedAreTold(s, s.tunnels.Keys, TcpKey(port));
    case _ =>
  }

  lemma ClosedByRelease(cfg: Config, s: State, step: Step, g: Id, port: nat)
    requires Apply(cfg, s, step).Some?
    ensures At(Apply(cfg, s, step).value, g, TcpClosed(port)) ==>
              At(s, g, TcpClosed(port)) || (HoldsPort(s, g, port) && At(s, g, TcpLeaving(port)))
  {
    hide TcpKey, OfIp, Expired, Owners, ValidSubdomain, RandomSubdomain;
    if step == Release(g) {
      assert s.handlers[g].pc.TcpLeaving?;
    } else if step.Release? {
    } else if At(Apply(cfg, s, step).value, g, TcpClosed(port)) {
      assert At(s, g, TcpClosed(port));
    }
  }

  /** A handler that serves has served ever since it began to. */
  lemma ServesBefore(cfg: Config, s: State, step: Step, h: Id, port: nat)
    requires Apply(cfg, s, step).Some? && At(Apply(cfg, s, step).value, h, TcpServing(port))
    ensures At(s, h, TcpServing(port)) || (At(s, h, TcpReplied(port)) && h in Apply(cfg, s, step).value.armed)
  {
    hide TcpKey, OfIp, Expired, Owners, ValidSubdomain, RandomSubdomain;
  }

  /** A handler that serves does not go back to an earlier stage. */
  lemma ServedOnce(cfg: Config, s: State, step: Step, h: Id, port: nat)
    requires Apply(cfg, s, step).Some? && h in s.handlers && Past(s.handlers[h].pc)
    ensures var t := Apply(cfg, s, step).value; h in t.handlers && Past(t.handlers[h].pc)
  {
    hide TcpKey, OfIp, Expired, Owners, ValidSubdomain, RandomSubdomain;
  }

  /** The stages from serving on. */
  predicate Past(pc: Pc) {
    pc.TcpServing? || pc.TcpLeaving? || pc.TcpClosed? || pc.Finished?
  }

  lemma {:induction false} StaysPast(cfg: Config, s: State, more: Run, h: Id, port: nat)
    requires ExecFrom(cfg, s, more).Some? && h in s.handlers && Past(s.handlers[h].pc)
    ensures var t := ExecFrom(cfg, s, more).value; h in t.handlers && Past(t.handlers[h].pc)
  {
    hide Apply;
    if more.Then? {
      StaysPast(cfg, s, more.before, h, port);
      ServedOnce(cfg, ExecFrom(cfg, s, more.before).value, more.step, h, port);
    }
  }

  lemma {:induction false} SafeAlong(cfg: Config, run: Run, more: Run, h: Id, port: nat)
    requires Exec(cfg, run).Some?
    requires var s := Exec(cfg, run).value;
             && At(s, h, TcpServing(port)) && OwnsPort(s, h, port) && NoneClosed(s, port)
             && ExecFrom(cfg, s, more).Some? && At(ExecFrom(cfg, s, more).value, h, TcpServing(port))
             && Spared(cfg, ExecFrom(cfg, s, more).value, h)
    ensures var t := ExecFrom(cfg, Exec(cfg, run).value, more).value; OwnsPort(t, h, port) && NoneClosed(t, port)
  {
    hide Apply, OwnsPort, NoneClosed, PortsExclusive, Armed, HttpOwnership.Sound, Exec, Spared;
    if more.Then? {
      var s := Exec(cfg, run).value;
      var t := ExecFrom(cfg, s, more.before).value;
      ServesBefore(cfg, t, more.step, h, port);
      StaysPast(cfg, s, more.before, h, port);
      ToldStays(cfg, t, more.step, h);
      SafeAlong(cfg, run, more.before, h, port);
      ExecAppend(cfg, run, more.before);
      PortsHold(cfg, Append(run, more.before));
      ArmedHolds(cfg, Append(run, more.before));
      HttpOwnership.SoundHolds(cfg, Append(run, more.before));
      SafeStep(cfg, t, more.step, h, port);
    }
  }

  /** In every continuation, a handler has its key for as long as it serves and is spared. */
  ghost predicate KeepsKey(cfg: Config, s: State, h: Id, port: nat) {
    forall more, t | ExecFrom(cfg, s, more) == Some(t) && At(t, h, TcpServing(port)) && Spared(cfg, t, h) ::
      OwnsPort(t, h, port)
  }

  /** For every configuration and from every reachable state: a serving handler keeps its key until it is told,
      and if nothing can expire and no signal can come even after that, exactly when it has it and no handler
      has freed the port without having removed its key. */
  lemma TcpKeepsKeyIff(cfg: Config, run: Run, h: Id, port: nat)
    requires Exec(cfg, run).Some?
    requires At(Exec(cfg, run).value, h, TcpServing(port)) && Spared(cfg, Exec(cfg, run).value, h)
    ensures var s := Exec(cfg, run).value;
            KeepsKey(cfg, s, h, port) <==> OwnsPort(s, h, port) && NoneClosed(s, port)
  {
    hide Exec, Apply, OwnsPort;
    var s := Exec(cfg, run).value;
    if OwnsPort(s, h, port) && NoneClosed(s, port) {
      forall more, t | ExecFrom(cfg, s, more) == Some(t) && At(t, h, TcpServing(port)) && Spared(cfg, t, h)
        ensures OwnsPort(t, h, port)
      {
        SafeAlong(cfg, run, more, h, port);
      }
    } else if !NoneClosed(s, port) {
      var g :| At(s, g, TcpClosed(port));
      OthersRemove(cfg, s, g, h, port);
      var t := Apply(cfg, s, Remove(g)).value;
      assert ExecFrom(cfg, s, Then(Start, Remove(g))) == Some(t);
    } else {
      assert ExecFrom(cfg, s, Start) == Some(s);
    }
  }

  lemma OthersRemove(cfg: Config, s: State, g: Id, h: Id, port: nat)
    requires At(s, g, TcpClosed(port)) && At(s, h, TcpServing(port))
    ensures Apply(cfg, s, Remove(g)).Some?
    ensures var t := Apply(cfg, s, Remove(g)).value;
            At(t, h, TcpServing(port)) && t.signalled == s.signalled && !OwnsPort(t, h, port)
  {
  }

  /** So what decides is the moment of insertion: the handler keeps its key from then on exactly when no
      handler that had the port before has yet to remove it. */
  lemma TcpInsertionIff(cfg: Config, run: Run, h: Id, port: nat)
    requires Exec(cfg, run).Some?
    requires At(Exec(cfg, run).value, h, TcpReplied(port))
    ensures Apply(cfg, Exec(cfg, run).value, InsertTcp(h)).Some?
    ensures var s := Exec(cfg, run).value;
            KeepsKey(cfg, Apply(cfg, s, InsertTcp(h)).value, h, port) <==> NoneClosed(s, port)
  {
    hide Exec, KeepsKey;
    var s := Exec(cfg, run).value;
    NotToldBeforeInsertion(cfg, run, h);
    InsertionOwns(cfg, s, h, port);
    var t := Apply(cfg, s, InsertTcp(h)).value;
    ExecThen(cfg, run, InsertTcp(h), s, t);
    TcpKeepsKeyIff(cfg, Then(run, InsertTcp(h)), h, port);
  }

  lemma InsertionOwns(cfg: Config, s: State, h: Id, port: nat)
    requires At(s, h, TcpReplied(port))
    ensures Apply(cfg, s, InsertTcp(h)).Some?
    ensures var t := Apply(cfg, s, InsertTcp(h)).value;
            && At(t, h, TcpServing(port)) && OwnsPort(t, h, port) && t.signalled == s.signalled
            && (NoneClosed(t, port) <==> NoneClosed(s, port))
  {
    var t := Apply(cfg, s, InsertTcp(h)).value;
    assert forall g: Id :: At(t, g, TcpClosed(port)) <==> At(s, g, TcpClosed(port));
  }

  // ----- a run in which the key is lost -----

  /** The next handler on a freed port inserts under the same key, and the removal takes that entry away. */
  lemma TcpOwnershipFails() returns (cfg: Config, s: State)
    ensures cfg.maxAge == 0 && !cfg.mayTerminate && Reachable(cfg, s)
    ensures At(s, 1, TcpServing(5)) && 1 !in s.signalled && TcpKey(5) !in s.tunnels
  {
    hide Exec, Apply, HasRoom;
    cfg := Config(0, 0, 0, false);
    Begins(cfg);
    var run1 := ServingTcp(Start, 0, 5);
    ServesTcp(cfg, Start, INIT, 0, 5);
    var s1 := Exec(cfg, run1).value;
    var run2 := Then(Then(run1, End(0)), Release(0));
    ClosesTcp(cfg, run1, s1, 0, 5);
    var s2 := Exec(cfg, run2).value;
    var run3 := ServingTcp(run2, 1, 5);
    ServesTcp(cfg, run2, s2, 1, 5);
    var s3 := Exec(cfg, run3).value;
    RemovesTcp(cfg, run3, s3, 0, 5);
    s := Exec(cfg, Then(run3, Remove(0))).value;
    assert Reachable(cfg, s);
  }

  function ServingTcp(run: Run, h: Id, port: nat): Run {
    Then(Then(Then(Admitting(run, h, ""), Bind(h, port)), Reply(h, true)), InsertTcp(h))
  }

  lemma TcpSteps(cfg: Config, s: State, h: Id, port: nat)
    ensures At(s, h, Admitted) && port !in s.bound ==>
              Apply(cfg, s, Bind(h, port)) == Some(Go(s, h, TcpBound(port)).(bound := s.bound + {port}))
    ensures At(s, h, TcpBound(port)) ==> Apply(cfg, s, Reply(h, true)) == Some(Go(s, h, TcpReplied(port)))
    ensures At(s, h, TcpReplied(port)) ==>
              Apply(cfg, s, InsertTcp(h)) == Some(Enter(s, h, TcpKey(port), TcpServing(port)))
  {
  }

  lemma ServesTcp(cfg: Config, run: Run, s: State, h: Id, port: nat)
    requires Exec(cfg, run) == Some(s) && cfg.maxPerIp == 0 && cfg.maxTunnels == 0
    requires h !in s.handlers && port !in s.bound
    ensures Exec(cfg, ServingTcp(run, h, port))
         == Some(s.(tunnels := s.tunnels[TcpKey(port) := Entry(h, "", s.now)],
                    handlers := s.handlers[h := Handler("", TcpKey(port), TcpServing(port))],
                    bound := s.bound + {port},
                    armed := s.armed + {h}))
  {
    hide Exec, TcpKey, Apply;
    Admits(cfg, run, s, h, "");
    var run0 := Admitting(run, h, "");
    var s0 := Exec(cfg, run0).value;
    var s1 := Go(s0, h, TcpBound(port)).(bound := s.bound + {port});
    var s2 := Go(s1, h, TcpReplied(port));
    var s3 := Enter(s2, h, TcpKey(port), TcpServing(port));
    TcpSteps(cfg, s0, h, port);
    TcpSteps(cfg, s1, h, port);
    TcpSteps(cfg, s2, h, port);
    ExecThen(cfg, run0, Bind(h, port), s0, s1);
    ExecThen(cfg, Then(run0, Bind(h, port)), Reply(h, true), s1, s2);
    ExecThen(cfg, Then(Then(run0, Bind(h, port)), Reply(h, true)), InsertTcp(h), s2, s3);
    assert s3.handlers == s.handlers[h := Handler("", TcpKey(port), TcpServing(port))];
  }

  lemma ClosesTcp(cfg: Config, run: Run, s: State, h: Id, port: nat)
    requires Exec(cfg, run) == Some(s) && At(s, h, TcpServing(port))
    ensures Exec(cfg, Then(Then(run, End(h)), Release(h)))
         == Some(Go(s, h, TcpClosed(port)).(bound := s.bound - {port}))
  {
    hide Exec;
    var s1 := Go(s, h, TcpLeaving(port));
    ExecThen(cfg, run, End(h), s, s1);
    assert Go(s1, h, TcpClosed(port)).handlers == Go(s, h, TcpClosed(port)).handlers;
    ExecThen(cfg, Then(run, End(h)), Release(h), s1, Go(s, h, TcpClosed(port)).(bound := s.bound - {port}));
  }

  lemma RemovesTcp(cfg: Config, run: Run, s: State, h: Id, port: nat)
    requires Exec(cfg, run) == Some(s) && At(s, h, TcpClosed(port))
    ensures Exec(cfg, Then(run, Remove(h))) == Some(Go(s, h, Finished).(tunnels := s.tunnels - {TcpKey(port)}))
  {
    hide Exec;
    ExecThen(cfg, run, Remove(h), s, Go(s, h, Finished).(tunnels := s.tunnels - {TcpKey(port)}));
  }
}
