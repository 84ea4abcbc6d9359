/** The tunnel registry under concurrency.

    Handlers of client connections share one map from keys to tunnel entries. A handler holds the map's
    lock only for single steps: it checks the caps, later inserts its entry, replies, serves, and finally
    removes its key. The steps of other handlers, of the admin interface, of the expiry task and of the
    termination signal come in between in any order. One step here is what happens under one lock, or
    one event seen by a handler.
 */
module Registry {
  import opened Arith
  import opened Wrappers
  import opened Text

  type Id = nat

  /** Limits of zero mean no limit. `maxAge` of zero means that no expiry task runs. */
  datatype Config = Config(maxPerIp: nat, maxTunnels: nat, maxAge: nat, mayTerminate: bool)

  /** An entry carries the identity of the handler that made it. */
  datatype Entry = Entry(owner: Id, ip: string, connectedAt: int)

  datatype Pc =
    | CheckIp | CheckTotal | Admitted
    | HttpInserted | HttpServing | HttpLeaving | HttpLeaked
    | TcpBound(port: nat) | TcpReplied(port: nat) | TcpServing(port: nat) | TcpLeaving(port: nat) | TcpClosed(port: nat)
    | Finished

  datatype Handler = Handler(ip: string, key: string, pc: Pc)

  datatype State = State(
    tunnels: map<string, Entry>,
    handlers: map<Id, Handler>,
    bound: set<nat>,       // TCP ports held by a listener
    armed: set<Id>,        // entries whose disconnect sender has not been taken
    signalled: set<Id>,    // handlers that have been told to disconnect
    now: int)

  const INIT := State(map[], map[], {}, {}, {}, 0)

  datatype Step =
    | Arrive(h: Id, ip: string)
    | PassIp(h: Id)                            // cap check per address
    | PassTotal(h: Id)                         // global cap check
    | Reject(h: Id)                            // the request is invalid, or the bind fails
    | Insert(h: Id, key: string)               // insert if absent
    | Reply(h: Id, ok: bool)                   // the `Registered` reply
    | End(h: Id)                               // the serving loop ends
    | Remove(h: Id)                            // removal by key
    | Bind(h: Id, port: nat)                   // a TCP listener, which holds its port alone
    | InsertTcp(h: Id)                         // insert after the reply, whatever the map holds
    | Release(h: Id)                           // the listener task ends
    | Disconnect(entry: Id)                    // the admin takes the sender out of an entry
    | Tick(elapsed: int)                       // the wall clock, which may be set back
    | Expire
    | Terminate

  // ----- keys -----

  predicate KeyChar(c: char) {
    || 'a' <= c <= 'z' || 'A' <= c <= 'Z' || '0' <= c <= '9' || c == '-'
  }

  /** The check of a requested subdomain. */
  predicate ValidSubdomain(s: string) {
    && 1 <= |s| <= 63
    && (forall i | 0 <= i < |s| :: KeyChar(s[i]))
    && s[0] != '-' && s[|s| - 1] != '-'
  }

  /** The form of a subdomain chosen at random. */
  predicate RandomSubdomain(s: string) {
    forall i | 0 <= i < |s| :: 'a' <= s[i] <= 'z' || '0' <= s[i] <= '9'
  }

  function TcpKey(port: nat): string {
    "tcp:" + Decimal(port)
  }

  // ----- which names there are -----

  predicate LetterOrDigit(c: char) {
    || 0x30 <= c as int <= 0x39
    || 0x41 <= c as int <= 0x5A
    || 0x61 <= c as int <= 0x7A
  }

  /** A label of section 2.3.1 of RFC 1035, which may also start with a digit (section 2.1 of RFC 1123). */
  predicate Label(s: string) {
    && s != "" && LetterOrDigit(s[0]) && LetterOrDigit(s[|s| - 1])
    && forall i | 0 < i < |s| - 1 :: LetterOrDigit(s[i]) || s[i] == '-'
  }

  /** Exactly the labels of up to 63 characters are accepted as subdomains. */
  lemma ValidSubdomainIff(s: string)
    ensures ValidSubdomain(s) <==> Label(s) && |s| <= 63
  {
    forall i | 0 <= i < |s|
      ensures KeyChar(s[i]) <==> LetterOrDigit(s[i]) || s[i] == '-'
      ensures LetterOrDigit(s[i]) ==> s[i] != '-'
    {
    }
    hide LetterOrDigit, KeyChar;
    if Label(s) && |s| <= 63 {
      forall i | 0 <= i < |s|
        ensures KeyChar(s[i])
      {
        assert i == 0 || i == |s| - 1 || LetterOrDigit(s[i]) || s[i] == '-';
      }
    }
  }

  /** A random name of up to 63 characters would be accepted too. */
  lemma RandomIsValid(s: string)
    requires RandomSubdomain(s) && 1 <= |s| <= 63
    ensures ValidSubdomain(s)
  {
  }

  /** Random names are made of the ASCII digits and lower-case letters. */
  lemma RandomSubdomainIff(s: string)
    ensures RandomSubdomain(s)
       <==> forall i | 0 <= i < |s| :: 0x30 <= s[i] as int <= 0x39 || 0x61 <= s[i] as int <= 0x7A
  {
  }

  lemma TcpKeyIs(port: nat)
    ensures |TcpKey(port)| > 4 && TcpKey(port)[..4] == "tcp:" && Digits(TcpKey(port)[4..]) == Some(port)
  {
    hide Decimal, Digits;
    DecimalDigits(port);
    assert TcpKey(port)[4..] == Decimal(port);
  }

  // ----- steps -----

  function OfIp(tunnels: map<string, Entry>, ip: string): set<string> {
    set k | k in tunnels && tunnels[k].ip == ip
  }

  predicate At(s: State, h: Id, pc: Pc) {
    h in s.handlers && s.handlers[h].pc == pc
  }

  function Go(s: State, h: Id, pc: Pc): State
    requires h in s.handlers
  {
    s.(handlers := s.handlers[h := s.handlers[h].(pc := pc)])
  }

  function Enter(s: State, h: Id, key: string, pc: Pc): State
    requires h in s.handlers
  {
    s.(tunnels := s.tunnels[key := Entry(h, s.handlers[h].ip, s.now)],
       handlers := s.handlers[h := Handler(s.handlers[h].ip, key, pc)],
       armed := s.armed + {h})
  }

  /** The owners of a set of keys. */
  function Owners(tunnels: map<string, Entry>, keys: set<string>): set<Id> {
    set k | k in keys && k in tunnels :: tunnels[k].owner
  }

  function Evict(s: State, keys: set<string>): State {
    var hit := Owners(s.tunnels, keys) * s.armed;
    s.(tunnels := s.tunnels - keys, armed := s.armed - hit, signalled := s.signalled + hit)
  }

  /** The age of an entry is cast to an unsigned number, so that a negative one exceeds every limit. */
  predicate TooOld(age: int, maxAge: nat) {
    age < 0 || age >= maxAge
  }

  function Expired(cfg: Config, s: State): set<string> {
    set k | k in s.tunnels && TooOld(s.now - s.tunnels[k].connectedAt, cfg.maxAge)
  }

  /** The state after a step, or nothing if the step cannot happen. */
  function Apply(cfg: Config, s: State, step: Step): Option<State> {
    match step
    case Arrive(h, ip) =>
      if h in s.handlers then None else Some(s.(handlers := s.handlers[h := Handler(ip, "", CheckIp)]))
    case PassIp(h) =>
      if !At(s, h, CheckIp) then None
      else if cfg.maxPerIp > 0 && AsU32(|OfIp(s.tunnels, s.handlers[h].ip)|) >= cfg.maxPerIp then
        Some(Go(s, h, Finished))
      else Some(Go(s, h, CheckTotal))
    case PassTotal(h) =>
      if !At(s, h, CheckTotal) then None
      else if cfg.maxTunnels > 0 && AsU32(|s.tunnels|) >= cfg.maxTunnels then Some(Go(s, h, Finished))
      else Some(Go(s, h, Admitted))
    case Reject(h) =>
      if !At(s, h, Admitted) then None else Some(Go(s, h, Finished))
    case Insert(h, key) =>
      if !At(s, h, Admitted) || !(ValidSubdomain(key) || RandomSubdomain(key)) then None
      else if key in s.tunnels then Some(Go(s, h, Finished))
      else Some(Enter(s, h, key, HttpInserted))
    case Bind(h, port) =>
      if !At(s, h, Admitted) || port in s.bound then None
      else Some(Go(s, h, TcpBound(port)).(bound := s.bound + {port}))
    case Reply(h, ok) =>
      if h !in s.handlers then None
      else
        match s.handlers[h].pc {
        case HttpInserted => Some(Go(s, h, if ok then HttpServing else HttpLeaked))
        case TcpBound(port) =>
          if ok then Some(Go(s, h, TcpReplied(port)))
          else Some(Go(s, h, Finished).(bound := s.bound - {port}))
        case _ => None
        }
    case InsertTcp(h) =>
      if h !in s.handlers then None
      else
        match s.handlers[h].pc {
        case TcpReplied(port) => Some(Enter(s, h, TcpKey(port), TcpServing(port)))
        case _ => None
        }
    case End(h) =>
      if h !in s.handlers then None
      else
        match s.handlers[h].pc {
        case HttpServing => Some(Go(s, h, HttpLeaving))
        case TcpServing(port) => Some(Go(s, h, TcpLeaving(port)))
        case _ => None
        }
    case Release(h) =>
      if h !in s.handlers then None
      else
        match s.handlers[h].pc {
        case TcpLeaving(port) => Some(Go(s, h, TcpClosed(port)).(bound := s.bound - {port}))
        case _ => None
        }
    case Remove(h) =>
      if h !in s.handlers then None
      else
        match s.handlers[h].pc {
        case HttpLeaving => Some(Go(s, h, Finished).(tunnels := s.tunnels - {s.handlers[h].key}))
        case TcpClosed(port) => Some(Go(s, h, Finished).(tunnels := s.tunnels - {TcpKey(port)}))
        case _ => None
        }
    case Disconnect(entry) =>
      if entry !in s.armed then None
      else Some(s.(armed := s.armed - {entry}, signalled := s.signalled + {entry}))
    case Tick(elapsed) => Some(s.(now := s.now + elapsed))
    case Expire => if cfg.maxAge == 0 then None else Some(Evict(s, Expired(cfg, s)))
    case Terminate => if !cfg.mayTerminate then None else Some(Evict(s, s.tunnels.Keys))
  }

  // ----- what single steps decide and record -----

  /** A handler passes a cap check exactly if there is no cap or the count, taken modulo 2^32, is below it. */
  lemma ChecksIff(cfg: Config, s: State, h: Id)
    requires h in s.handlers
    ensures At(s, h, CheckIp) ==>
              && Apply(cfg, s, PassIp(h)).Some?
              && Apply(cfg, s, PassIp(h)).value.handlers[h].pc
                 == if cfg.maxPerIp == 0
                       || |set k | k in s.tunnels && s.tunnels[k].ip == s.handlers[h].ip| % 0x1_0000_0000 < cfg.maxPerIp
                    then CheckTotal else Finished
    ensures At(s, h, CheckTotal) ==>
              && Apply(cfg, s, PassTotal(h)).Some?
              && Apply(cfg, s, PassTotal(h)).value.handlers[h].pc
                 == if cfg.maxTunnels == 0 || |s.tunnels| % 0x1_0000_0000 < cfg.maxTunnels then Admitted else Finished
  {
    var ofIp := set k | k in s.tunnels && s.tunnels[k].ip == s.handlers[h].ip;
    assert OfIp(s.tunnels, s.handlers[h].ip) == ofIp;
  }

  /** A free name gets an entry with the handler's identity, its address and the time; a taken one stays. */
  lemma InsertIs(cfg: Config, s: State, h: Id, key: string)
    requires At(s, h, Admitted) && (ValidSubdomain(key) || RandomSubdomain(key))
    ensures Apply(cfg, s, Insert(h, key)).Some?
    ensures var t := Apply(cfg, s, Insert(h, key)).value;
            if key in s.tunnels then t.tunnels == s.tunnels && t.handlers[h].pc == Finished
            else t.tunnels == s.tunnels[key := Entry(h, s.handlers[h].ip, s.now)] && t.handlers[h].pc == HttpInserted
  {
    hide ValidSubdomain, RandomSubdomain;
  }

  // ----- runs -----

  /** The steps taken so far, oldest first. */
  datatype Run = Start | Then(before: Run, step: Step)

  function Exec(cfg: Config, run: Run): Option<State> {
    match run
    case Start => Some(INIT)
    case Then(before, step) =>
      var s :- Exec(cfg, before);
      Apply(cfg, s, step)
  }

  ghost predicate Reachable(cfg: Config, s: State) {
    exists run :: Exec(cfg, run) == Some(s)
  }

  /** The state after continuing from a state. */
  function ExecFrom(cfg: Config, s: State, run: Run): Option<State> {
    match run
    case Start => Some(s)
    case Then(before, step) =>
      var t :- ExecFrom(cfg, s, before);
      Apply(cfg, t, step)
  }

  function Append(run: Run, more: Run): Run {
    match more
    case Start => run
    case Then(before, step) => Then(Append(run, before), step)
  }

  lemma {:induction false} ExecAppend(cfg: Config, run: Run, more: Run)
    requires Exec(cfg, run).Some? && ExecFrom(cfg, Exec(cfg, run).value, more).Some?
    ensures Exec(cfg, Append(run, more)) == ExecFrom(cfg, Exec(cfg, run).value, more)
  {
    if more.Then? {
      ExecAppend(cfg, run, more.before);
    }
  }

  // ----- ownership of HTTP subdomains -----

  /** From its insertion to its own removal, an HTTP handler holds its key. */
  predicate Holding(s: State, h: Id) {
    && h in s.handlers
    && var pc := s.handlers[h].pc; pc.HttpInserted? || pc.HttpServing? || pc.HttpLeaving? || pc.HttpLeaked?
  }

  ghost predicate Owned(s: State) {
    forall h | Holding(s, h) ::
      s.handlers[h].key in s.tunnels && s.tunnels[s.handlers[h].key].owner == h
  }

  /** HTTP keys have no colon; every such key in the map is held by the handler that made its entry. */
  ghost predicate Claimed(s: State) {
    && (forall h | Holding(s, h) :: ':' !in s.handlers[h].key)
    && (forall k | k in s.tunnels && ':' !in k ::
          Holding(s, s.tunnels[k].owner) && s.handlers[s.tunnels[k].owner].key == k)
  }

  lemma HttpKeysHaveNoColon(key: string)
    requires ValidSubdomain(key) || RandomSubdomain(key)
    ensures ':' !in key
  {
    assert forall i | 0 <= i < |key| :: key[i] != ':';
  }

  lemma TcpKeysHaveColon(port: nat)
    ensures ':' in TcpKey(port)
  {
    assert TcpKey(port)[3] == ':';
  }

  /** Who holds what is the same before and after. */
  ghost predicate SameHoldings(s: State, t: State) {
    && t.tunnels == s.tunnels
    && (forall h :: Holding(t, h) <==> Holding(s, h))
    && forall h | Holding(s, h) :: t.handlers[h].key == s.handlers[h].key
  }

  lemma QuietKeeps(s: State, t: State)
    requires Owned(s) && Claimed(s) && SameHoldings(s, t)
    ensures Owned(t) && Claimed(t)
  {
  }

  lemma EnterHttpKeeps(s: State, h: Id, key: string)
    requires Owned(s) && Claimed(s)
    requires h in s.handlers && !Holding(s, h) && key !in s.tunnels && ':' !in key
    ensures Owned(Enter(s, h, key, HttpInserted)) && Claimed(Enter(s, h, key, HttpInserted))
  {
    var t := Enter(s, h, key, HttpInserted);
    assert forall g :: Holding(t, g) <==> g == h || Holding(s, g);
  }

  lemma EnterTcpKeeps(s: State, h: Id, port: nat)
    requires Owned(s) && Claimed(s) && h in s.handlers && !Holding(s, h)
    ensures Owned(Enter(s, h, TcpKey(port), TcpServing(port))) && Claimed(Enter(s, h, TcpKey(port), TcpServing(port)))
  {
    var t := Enter(s, h, TcpKey(port), TcpServing(port));
    TcpKeysHaveColon(port);
    assert forall g :: Holding(t, g) <==> Holding(s, g);
  }

  lemma RemoveKeeps(s: State, h: Id, key: string)
    requires Owned(s) && Claimed(s) && h in s.handlers
    requires if Holding(s, h) then key == s.handlers[h].key else ':' in key
    ensures var t := Go(s, h, Finished).(tunnels := s.tunnels - {key});
            Owned(t) && Claimed(t)
  {
    var t := Go(s, h, Finished).(tunnels := s.tunnels - {key});
    assert forall g :: Holding(t, g) <==> g != h && Holding(s, g);
  }

  lemma OwnershipStep(cfg: Config, s: State, step: Step)
    requires cfg.maxAge == 0 && !cfg.mayTerminate
    requires Owned(s) && Claimed(s) && Apply(cfg, s, step).Some?
    ensures Owned(Apply(cfg, s, step).value) && Claimed(Apply(cfg, s, step).value)
  {
    hide Owned, Claimed;
    var t := Apply(cfg, s, step).value;
    match step
    case Insert(h, key) =>
      if key in s.tunnels {
        QuietKeeps(s, t);
      } else {
        HttpKeysHaveNoColon(key);
        EnterHttpKeeps(s, h, key);
      }
    case InsertTcp(h) =>
      EnterTcpKeeps(s, h, s.handlers[h].pc.port);
    case Remove(h) =>
      if s.handlers[h].pc.TcpClosed? {
        TcpKeysHaveColon(s.handlers[h].pc.port);
        RemoveKeeps(s, h, TcpKey(s.handlers[h].pc.port));
      } else {
        RemoveKeeps(s, h, s.handlers[h].key);
      }
    case _ =>
      QuietStep(cfg, s, step);
      QuietKeeps(s, t);
  }

  lemma QuietStep(cfg: Config, s: State, step: Step)
    requires cfg.maxAge == 0 && !cfg.mayTerminate && Apply(cfg, s, step).Some?
    requires !step.Insert? && !step.InsertTcp? && !step.Remove?
    ensures SameHoldings(s, Apply(cfg, s, step).value)
  {
  }

  lemma {:induction false} OwnershipHolds(cfg: Config, run: Run)
    requires cfg.maxAge == 0 && !cfg.mayTerminate && Exec(cfg, run).Some?
    ensures Owned(Exec(cfg, run).value) && Claimed(Exec(cfg, run).value)
  {
    if run.Then? {
      OwnershipHolds(cfg, run.before);
      OwnershipStep(cfg, Exec(cfg, run.before).value, run.step);
    }
  }

  /** No two handlers hold the same key. */
  lemma KeysAreExclusive(s: State, g: Id, h: Id)
    requires Owned(s) && Holding(s, g) && Holding(s, h) && s.handlers[g].key == s.handlers[h].key
    ensures g == h
  {
  }

  // ----- when ownership fails -----

  /** A handler that holds a key and has not been told to disconnect has its entry in the map. */
  ghost predicate OwnedUnlessTold(s: State) {
    forall h | Holding(s, h) && h !in s.signalled ::
      s.handlers[h].key in s.tunnels && s.tunnels[s.handlers[h].key].owner == h
  }

  /** One HTTP registration, without interruption. */
  function Registering(run: Run, h: Id, ip: string, key: string): Run {
    Then(Then(Admitting(run, h, ip), Insert(h, key)), Reply(h, true))
  }

  function Admitting(run: Run, h: Id, ip: string): Run {
    Then(Then(Then(run, Arrive(h, ip)), PassIp(h)), PassTotal(h))
  }

  ghost predicate HasRoom(cfg: Config, s: State, ip: string) {
    && (cfg.maxPerIp > 0 ==> AsU32(|OfIp(s.tunnels, ip)|) < cfg.maxPerIp)
    && (cfg.maxTunnels > 0 ==> AsU32(|s.tunnels|) < cfg.maxTunnels)
  }

  lemma Admits(cfg: Config, run: Run, s: State, h: Id, ip: string)
    requires Exec(cfg, run) == Some(s) && h !in s.handlers && HasRoom(cfg, s, ip)
    ensures Exec(cfg, Admitting(run, h, ip)) == Some(s.(handlers := s.handlers[h := Handler(ip, "", Admitted)]))
  {
    hide Exec;
    var s1 := s.(handlers := s.handlers[h := Handler(ip, "", CheckIp)]);
    var s2 := s.(handlers := s.handlers[h := Handler(ip, "", CheckTotal)]);
    var s3 := s.(handlers := s.handlers[h := Handler(ip, "", Admitted)]);
    assert Go(s1, h, CheckTotal).handlers == s2.handlers;
    assert Go(s2, h, Admitted).handlers == s3.handlers;
    ExecThen(cfg, run, Arrive(h, ip), s, s1);
    ExecThen(cfg, Then(run, Arrive(h, ip)), PassIp(h), s1, s2);
    ExecThen(cfg, Then(Then(run, Arrive(h, ip)), PassIp(h)), PassTotal(h), s2, s3);
  }

  lemma ExecThen(cfg: Config, run: Run, step: Step, s: State, t: State)
    requires Exec(cfg, run) == Some(s) && Apply(cfg, s, step) == Some(t)
    ensures Exec(cfg, Then(run, step)) == Some(t)
  {
  }

  lemma Inserts(cfg: Config, run: Run, s: State, h: Id, key: string)
    requires Exec(cfg, run) == Some(s) && At(s, h, Admitted)
    requires key !in s.tunnels && RandomSubdomain(key)
    ensures var ip := s.handlers[h].ip;
            Exec(cfg, Then(Then(run, Insert(h, key)), Reply(h, true)))
            == Some(s.(tunnels := s.tunnels[key := Entry(h, ip, s.now)],
                       handlers := s.handlers[h := Handler(ip, key, HttpServing)],
                       armed := s.armed + {h}))
  {
    hide Exec;
    var s1 := Enter(s, h, key, HttpInserted);
    ExecThen(cfg, run, Insert(h, key), s, s1);
    assert Go(s1, h, HttpServing).handlers == s.handlers[h := Handler(s.handlers[h].ip, key, HttpServing)];
    ExecThen(cfg, Then(run, Insert(h, key)), Reply(h, true), s1, Go(s1, h, HttpServing));
  }

  lemma Registers(cfg: Config, run: Run, s: State, h: Id, ip: string, key: string)
    requires Exec(cfg, run) == Some(s) && h !in s.handlers && HasRoom(cfg, s, ip)
    requires key !in s.tunnels && RandomSubdomain(key)
    ensures Exec(cfg, Registering(run, h, ip, key))
         == Some(s.(tunnels := s.tunnels[key := Entry(h, ip, s.now)],
                    handlers := s.handlers[h := Handler(ip, key, HttpServing)],
                    armed := s.armed + {h}))
  {
    hide Exec, Apply;
    Admits(cfg, run, s, h, ip);
    var s1 := s.(handlers := s.handlers[h := Handler(ip, "", Admitted)]);
    Inserts(cfg, Admitting(run, h, ip), s1, h, key);
    assert s1.handlers[h := Handler(ip, key, HttpServing)] == s.handlers[h := Handler(ip, key, HttpServing)];
  }

  lemma Begins(cfg: Config)
    ensures Exec(cfg, Start) == Some(INIT) && HasRoom(cfg, INIT, "")
  {
    assert OfIp(map[], "") == {};
  }

  lemma Ticks(cfg: Config, run: Run, s: State, elapsed: int)
    requires Exec(cfg, run) == Some(s)
    ensures Exec(cfg, Then(run, Tick(elapsed))) == Some(s.(now := s.now + elapsed))
  {
    hide Exec;
    ExecThen(cfg, run, Tick(elapsed), s, s.(now := s.now + elapsed));
  }

  lemma Sweeps(cfg: Config, run: Run, s: State, key: string)
    requires Exec(cfg, run) == Some(s) && (cfg.maxAge > 0 || cfg.mayTerminate)
    requires s.tunnels.Keys == {key} && s.now - s.tunnels[key].connectedAt >= cfg.maxAge
    ensures Exec(cfg, Then(run, if cfg.maxAge > 0 then Expire else Terminate)) == Some(Evict(s, {key}))
  {
    hide Exec;
    assert cfg.maxAge > 0 ==> Expired(cfg, s) == {key};
    ExecThen(cfg, run, if cfg.maxAge > 0 then Expire else Terminate, s, Evict(s, {key}));
  }

  lemma Leaves(cfg: Config, run: Run, s: State, h: Id)
    requires Exec(cfg, run) == Some(s) && At(s, h, HttpServing)
    ensures Exec(cfg, Then(Then(run, End(h)), Remove(h)))
         == Some(Go(s, h, Finished).(tunnels := s.tunnels - {s.handlers[h].key}))
  {
    hide Exec;
    var s1 := Go(s, h, HttpLeaving);
    ExecThen(cfg, run, End(h), s, s1);
    assert Go(s1, h, Finished).handlers == Go(s, h, Finished).handlers;
    ExecThen(cfg, Then(run, End(h)), Remove(h), s1, Go(s, h, Finished).(tunnels := s.tunnels - {s.handlers[h].key}));
  }

  /** Handler 0 serves key "a" until expiry or termination removes its entry. */
  lemma SweptWhileServing(cfg: Config) returns (run: Run, s: State)
    requires cfg.maxAge > 0 || cfg.mayTerminate
    ensures Exec(cfg, run) == Some(s)
    ensures s.tunnels == map[] && s.handlers == map[0 := Handler("", "a", HttpServing)] && s.signalled <= {0}
  {
    hide Exec, Apply, HasRoom;
    Begins(cfg);
    var run1 := Registering(Start, 0, "", "a");
    Registers(cfg, Start, INIT, 0, "", "a");
    var s1 := Exec(cfg, run1).value;
    var run2 := Then(run1, Tick(cfg.maxAge));
    Ticks(cfg, run1, s1, cfg.maxAge);
    var s2 := Exec(cfg, run2).value;
    assert s2.tunnels == map["a" := Entry(0, "", 0)];
    run := Then(run2, if cfg.maxAge > 0 then Expire else Terminate);
    Sweeps(cfg, run2, s2, "a");
    s := Exec(cfg, run).value;
    assert s.tunnels == map[];
    assert Owners(s2.tunnels, {"a"}) <= {0};
  }

  /** Expiry and termination remove an entry whose handler is still there. Another handler can take the key,
      and loses its entry when the first one removes the key again. */
  lemma StaleRemoval(cfg: Config) returns (s: State)
    requires cfg.maxAge > 0 || cfg.mayTerminate
    ensures Reachable(cfg, s)
    ensures At(s, 1, HttpServing) && 1 !in s.signalled && s.handlers[1].key !in s.tunnels
  {
    hide Exec, Apply, HasRoom;
    var run3, s3 := SweptWhileServing(cfg);
    EmptyHasRoom(cfg, s3);
    var run4 := Registering(run3, 1, "", "a");
    Registers(cfg, run3, s3, 1, "", "a");
    var s4 := Exec(cfg, run4).value;
    Leaves(cfg, run4, s4, 0);
    s := Exec(cfg, Then(Then(run4, End(0)), Remove(0))).value;
  }

  lemma EmptyHasRoom(cfg: Config, s: State)
    requires s.tunnels == map[]
    ensures HasRoom(cfg, s, "")
  {
    assert OfIp(map[], "") == {};
  }

  /** Serving handlers keep their keys in every reachable state exactly when neither the expiry task
      nor the termination signal can run. */
  lemma OwnershipIff(cfg: Config)
    ensures (forall s | Reachable(cfg, s) :: OwnedUnlessTold(s)) <==> cfg.maxAge == 0 && !cfg.mayTerminate
  {
    if cfg.maxAge == 0 && !cfg.mayTerminate {
      forall s | Reachable(cfg, s)
        ensures OwnedUnlessTold(s)
      {
        var run :| Exec(cfg, run) == Some(s);
        OwnershipHolds(cfg, run);
      }
    } else {
      var s := StaleRemoval(cfg);
      assert Holding(s, 1);
      assert !OwnedUnlessTold(s);
    }
  }

  // ----- being told -----

  /** A handler that expiry and termination have spared so far. */
  predicate Spared(cfg: Config, s: State, h: Id) {
    h !in s.signalled || (cfg.maxAge == 0 && !cfg.mayTerminate)
  }

  lemma EvictedAreTold(s: State, keys: set<string>, key: string)
    requires key in s.tunnels
    ensures key in keys && s.tunnels[key].owner in s.armed ==> s.tunnels[key].owner in Evict(s, keys).signalled
  {
    assert key in keys ==> s.tunnels[key].owner in Owners(s.tunnels, keys);
  }

  lemma ToldOrArmed(cfg: Config, s: State, step: Step, h: Id)
    requires Apply(cfg, s, step).Some? && (h in s.armed || h in s.signalled)
    ensures var t := Apply(cfg, s, step).value;
            h in t.signalled || (h in t.armed && h !in s.signalled)
  {
    hide TcpKey, OfIp, Expired, Owners, ValidSubdomain, RandomSubdomain;
  }

  lemma ToldStays(cfg: Config, s: State, step: Step, h: Id)
    requires Apply(cfg, s, step).Some?
    ensures h in s.signalled ==> h in Apply(cfg, s, step).value.signalled
    ensures Spared(cfg, Apply(cfg, s, step).value, h) ==> Spared(cfg, s, h)
  {
    hide TcpKey, OfIp, Expired, Owners, ValidSubdomain, RandomSubdomain;
  }

  /** The stages from the insertion of a key on, and the end. */
  predicate Inserted(pc: Pc) {
    !pc.CheckIp? && !pc.CheckTotal? && !pc.Admitted? && !pc.TcpBound? && !pc.TcpReplied?
  }

  lemma InsertedStays(cfg: Config, s: State, step: Step, h: Id)
    requires Apply(cfg, s, step).Some? && h in s.handlers && Inserted(s.handlers[h].pc)
    ensures h in Apply(cfg, s, step).value.handlers && Inserted(Apply(cfg, s, step).value.handlers[h].pc)
  {
    hide TcpKey, OfIp, Expired, Owners, ValidSubdomain, RandomSubdomain;
    if step.Disconnect? || step.Tick? || step.Expire? || step.Terminate? {
      assert Apply(cfg, s, step).value.handlers == s.handlers;
    } else if step.h != h {
      assert Apply(cfg, s, step).value.handlers[h] == s.handlers[h];
    }
  }

  /** Only handlers that have inserted a key have been told, or can be. */
  ghost predicate ToldAfterInsertion(s: State) {
    forall h: Id | h in s.armed || h in s.signalled :: h in s.handlers && Inserted(s.handlers[h].pc)
  }

  lemma ArmedBefore(cfg: Config, s: State, step: Step, h: Id)
    requires Apply(cfg, s, step).Some?
    requires h in Apply(cfg, s, step).value.armed || h in Apply(cfg, s, step).value.signalled
    ensures || h in s.armed || h in s.signalled
            || (h in Apply(cfg, s, step).value.handlers && Inserted(Apply(cfg, s, step).value.handlers[h].pc))
  {
    hide TcpKey, OfIp, Expired, Owners, ValidSubdomain, RandomSubdomain;
  }

  lemma {:induction false} ToldInsertedHolds(cfg: Config, run: Run)
    requires Exec(cfg, run).Some?
    ensures ToldAfterInsertion(Exec(cfg, run).value)
  {
    hide Apply;
    if run.Then? {
      ToldInsertedHolds(cfg, run.before);
      var s, t := Exec(cfg, run.before).value, Exec(cfg, run).value;
      forall h: Id | h in t.armed || h in t.signalled
        ensures h in t.handlers && Inserted(t.handlers[h].pc)
      {
        ArmedBefore(cfg, s, run.step, h);
        if h in s.armed || h in s.signalled {
          InsertedStays(cfg, s, run.step, h);
        }
      }
    }
  }

  /** A handler that has not inserted its key yet has not been told. */
  lemma NotToldBeforeInsertion(cfg: Config, run: Run, h: Id)
    requires Exec(cfg, run).Some? && h in Exec(cfg, run).value.handlers
    requires !Inserted(Exec(cfg, run).value.handlers[h].pc)
    ensures h !in Exec(cfg, run).value.signalled
  {
    hide Exec;
    ToldInsertedHolds(cfg, run);
  }

  /** A sender is used up when its handler is told. */
  lemma SenderUsed(cfg: Config, s: State, step: Step, h: Id)
    requires Apply(cfg, s, step).Some? && ToldAfterInsertion(s)
    requires h in Apply(cfg, s, step).value.armed && h in Apply(cfg, s, step).value.signalled
    ensures h in s.armed && h in s.signalled
  {
    hide TcpKey, OfIp, Expired, Owners, ValidSubdomain, RandomSubdomain;
  }

  /** Once told, a handler is never told again. */
  lemma {:induction false} ToldOnce(cfg: Config, run: Run)
    requires Exec(cfg, run).Some?
    ensures Exec(cfg, run).value.armed !! Exec(cfg, run).value.signalled
  {
    hide Apply;
    if run.Then? {
      ToldOnce(cfg, run.before);
      ToldInsertedHolds(cfg, run.before);
      var s, t := Exec(cfg, run.before).value, Exec(cfg, run).value;
      forall h: Id | h in t.armed
        ensures h !in t.signalled
      {
        if h in t.signalled {
          SenderUsed(cfg, s, run.step, h);
        }
      }
    }
  }
}
