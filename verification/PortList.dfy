/** The list of TCP ports in use, from which the choice of a random port keeps away.

    A handler enters its port after binding it and takes it out at the end. The handler that ends because its
    reply failed does not.
 */
module PortList {
  import opened Wrappers
  import opened Registry

  /** The ports listed after a run. */
  function Listed(cfg: Config, run: Run): set<nat>
    requires Exec(cfg, run).Some?
  {
    match run
    case Start => {}
    case Then(before, step) =>
      var ports := Listed(cfg, before);
      match step
      case Bind(_, port) => ports + {port}
      case Remove(h) =>
        var pc := Exec(cfg, before).value.handlers[h].pc;
        if pc.TcpClosed? then ports - {pc.port} else ports
      case _ => ports
  }

  /** A handler at a stage from binding a port to taking it off the list. */
  predicate Uses(s: State, h: Id, port: nat) {
    h in s.handlers && s.handlers[h].pc in
      {TcpBound(port), TcpReplied(port), TcpServing(port), TcpLeaving(port), TcpClosed(port)}
  }

  ghost predicate InUse(s: State, port: nat) {
    exists h: Id :: Uses(s, h, port)
  }

  /** A port goes out of use by a failing reply, or by the step that takes it off the list. */
  lemma UseStays(cfg: Config, s: State, step: Step, h: Id, port: nat)
    requires Apply(cfg, s, step).Some? && Uses(s, h, port)
    ensures || Uses(Apply(cfg, s, step).value, h, port)
            || step == Reply(h, false)
            || (step == Remove(h) && s.handlers[h].pc == TcpClosed(port))
  {
    hide TcpKey, OfIp, Expired, Owners, ValidSubdomain, RandomSubdomain;
  }

  lemma UseBefore(cfg: Config, s: State, step: Step, h: Id, port: nat)
    requires Apply(cfg, s, step).Some? && Uses(Apply(cfg, s, step).value, h, port)
    ensures Uses(s, h, port) || step == Bind(h, port)
    ensures step == Bind(h, port) ==> h in Apply(cfg, s, step).value.handlers
  {
    hide TcpKey, OfIp, Expired, Owners, ValidSubdomain, RandomSubdomain;
  }

  lemma BindUses(cfg: Config, s: State, h: Id, port: nat)
    requires Apply(cfg, s, Bind(h, port)).Some?
    ensures Uses(Apply(cfg, s, Bind(h, port)).value, h, port)
  {
  }

  function FailedReplies(run: Run): nat {
    if run.Start? then 0
    else FailedReplies(run.before) + if run.step.Reply? && !run.step.ok then 1 else 0
  }

  lemma {:induction false} ListedAreInUse(cfg: Config, run: Run, port: nat)
    requires Exec(cfg, run).Some? && FailedReplies(run) == 0 && port in Listed(cfg, run)
    ensures InUse(Exec(cfg, run).value, port)
  {
    hide Apply, Uses;
    if run.Then? {
      var s := Exec(cfg, run.before).value;
      if run.step.Bind? && run.step.port == port {
        BindUses(cfg, s, run.step.h, port);
      } else {
        ListedAreInUse(cfg, run.before, port);
        var h: Id :| Uses(s, h, port);
        UseStays(cfg, s, run.step, h, port);
      }
    }
  }

  /** A listed port that no handler uses stays listed until someone asks for it by number. */
  lemma {:induction false} UnusedStaysListed(cfg: Config, run: Run, more: Run, port: nat)
    requires Exec(cfg, run).Some? && port in Listed(cfg, run) && !InUse(Exec(cfg, run).value, port)
    requires Exec(cfg, Append(run, more)).Some? && NeverBinds(more, port)
    ensures port in Listed(cfg, Append(run, more)) && !InUse(Exec(cfg, Append(run, more)).value, port)
  {
    hide Apply, Uses;
    if more.Then? {
      UnusedStaysListed(cfg, run, more.before, port);
      var s, t := Exec(cfg, Append(run, more.before)).value, Exec(cfg, Append(run, more)).value;
      forall h: Id
        ensures !Uses(t, h, port)
      {
        if Uses(t, h, port) {
          UseBefore(cfg, s, more.step, h, port);
        }
      }
      if more.step.Remove? {
        RemovesUsed(cfg, s, more.step.h);
      }
    }
  }

  lemma RemovesUsed(cfg: Config, s: State, h: Id)
    requires Apply(cfg, s, Remove(h)).Some?
    ensures h in s.handlers && (s.handlers[h].pc.TcpClosed? ==> Uses(s, h, s.handlers[h].pc.port))
  {
  }

  predicate NeverBinds(more: Run, port: nat) {
    more.Then? ==> !(more.step.Bind? && more.step.port == port) && NeverBinds(more.before, port)
  }

  /** A run after which a port is listed and not in use. */
  lemma FailedReplyLeaks(cfg: Config, port: nat) returns (run: Run)
    ensures Exec(cfg, run).Some? && FailedReplies(run) == 1
    ensures port in Listed(cfg, run) && !InUse(Exec(cfg, run).value, port)
  {
    hide Apply, HasRoom;
    Begins(cfg);
    Admits(cfg, Start, INIT, 0, "");
    var admitted := Admitting(Start, 0, "");
    BindFails(cfg, Exec(cfg, admitted).value, port);
    run := Then(Then(admitted, Bind(0, port)), Reply(0, false));
    assert FailedReplies(admitted) == 0 by {
      assert FailedReplies(admitted.before) == FailedReplies(admitted.before.before) == 0;
    }
  }

  /** The only handler binds a port, and its reply fails. */
  lemma BindFails(cfg: Config, s: State, port: nat)
    requires s.handlers.Keys == {0} && s.handlers[0].pc.Admitted? && port !in s.bound
    ensures Apply(cfg, s, Bind(0, port)).Some?
    ensures Apply(cfg, Apply(cfg, s, Bind(0, port)).value, Reply(0, false)).Some?
    ensures !InUse(Apply(cfg, Apply(cfg, s, Bind(0, port)).value, Reply(0, false)).value, port)
  {
    hide OfIp, Expired, Owners, ValidSubdomain, RandomSubdomain, TcpKey;
  }

  /** Only ports in use are listed, in every run with at most k failing replies, exactly if k is zero. */
  lemma ListedIff(cfg: Config, k: nat)
    ensures (forall run, port | Exec(cfg, run).Some? && FailedReplies(run) <= k && port in Listed(cfg, run) ::
               InUse(Exec(cfg, run).value, port))
       <==> k == 0
  {
    hide Exec, Listed, InUse;
    if k == 0 {
      forall run, port | Exec(cfg, run).Some? && FailedReplies(run) <= k && port in Listed(cfg, run)
        ensures InUse(Exec(cfg, run).value, port)
      {
        ListedAreInUse(cfg, run, port);
      }
    } else {
      var run := FailedReplyLeaks(cfg, 0);
    }
  }
}
