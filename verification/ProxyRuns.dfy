/** The proxy as a step machine: any number of callers interleave their locked
    sections with sweeps and the clock. */
module ProxyRuns {
  import opened Words
  import opened Addresses
  import opened Rotation
  import opened Picks

  // ----- sticky sessions -----

  datatype Session = Session(ip: Addr, acct: Str, expire: int)
  type Store = map<Str, Session>

  /** The session store with its gauges, and tallies of drops and overwrites. */
  datatype Sessions = Sessions(store: Store, cur: int, tot: int, drops: nat, overwrites: nat)

  const NO_SESSIONS: Sessions := Sessions(map[], 0, 0, 0, 0)

  predicate Live(store: Store, token: Str, user: Str, t: int) {
    token in store && store[token].acct == user && t < store[token].expire
  }

  predicate Expired(store: Store, token: Str, t: int) { token in store && t > store[token].expire }

  function Drop(s: Sessions, tokens: set<Str>): Sessions {
    s.(store := s.store - tokens, cur := s.cur - |tokens|, drops := s.drops + |tokens|)
  }

  /** First locked section, on a miss: drop the entry if it has expired. */
  function CheckMiss(s: Sessions, token: Str, t: int): Sessions {
    if Expired(s.store, token, t) then Drop(s, {token}) else s
  }

  /** Second locked section, on a miss: store the fresh session. */
  function CommitMiss(s: Sessions, token: Str, born: Session): Sessions {
    s.(store := s.store[token := born], cur := s.cur + 1, tot := s.tot + 1,
       overwrites := s.overwrites + B2N(token in s.store))
  }

  function ExpiredTokens(store: Store, t: int): set<Str> { set k | k in store && t > store[k].expire }

  function SweepExpired(s: Sessions, t: int): Sessions { Drop(s, ExpiredTokens(s.store, t)) }

  /** Counters are conserved: the gauge is sessions begun less sessions dropped, and it
      exceeds the stored sessions by exactly the overwrites. */
  predicate SessionsInv(s: Sessions) {
    s.cur == s.tot - s.drops && s.cur - |s.store| == s.overwrites
  }

  lemma DropKeeps(s: Sessions, tokens: set<Str>)
    requires SessionsInv(s) && tokens <= s.store.Keys
    ensures SessionsInv(Drop(s, tokens))
  {
    assert (s.store - tokens).Keys == s.store.Keys - tokens;
    assert |s.store.Keys - tokens| == |s.store.Keys| - |tokens| by {
      assert s.store.Keys == (s.store.Keys - tokens) + tokens;
    }
  }

  lemma CommitKeeps(s: Sessions, token: Str, born: Session)
    requires SessionsInv(s)
    ensures SessionsInv(CommitMiss(s, token, born))
  {
    assert s.store[token := born].Keys == s.store.Keys + {token};
  }

  // ----- the machine -----

  /** A stickyIP call between its two locked sections. */
  datatype Call =
    | Picking(acct: Account, token: Str, dest: Str)
    | Picked(acct: Account, token: Str, dest: Str, ip: Addr)

  datatype State = State(now: int, rot: Rotor, sess: Sessions, calls: map<nat, Call>)

  /** One atomic step. Each locked section carries the clock values it reads. */
  datatype Event =
    | Tick(t: int)
    | Check(id: nat, acct: Account, token: Str, dest: Str, t1: int, t2: int)
    | PickFor(id: nat, ch: Choice)
    | Commit(id: nat, t1: int, t2: int)
    | Fresh(acct: Account, dest: Str, ch: Choice)
    | SweepSessions(t: int)
    | SweepStreams(t1: int, t2: int, gone: set<Str>)

  predicate Initial(s: State) { s.rot == EMPTY_ROTOR && s.sess == NO_SESSIONS && s.calls == map[] }

  /** The events a state can take. */
  predicate Enabled(cfg: Config, s: State, e: Event)
    requires cfg.Valid()
  {
    match e
    case Tick(t) => s.now <= t
    case Check(id, _, _, _, t1, t2) => id !in s.calls && s.now <= t1 <= t2
    case PickFor(id, ch) =>
      id in s.calls && s.calls[id].Picking? && s.now <= ch.now
      && Allowed(cfg, s.rot, s.calls[id].acct, s.calls[id].dest, ch)
    case Commit(id, t1, t2) => id in s.calls && s.calls[id].Picked? && s.now <= t1 <= t2
    case Fresh(acct, dest, ch) => s.now <= ch.now && Allowed(cfg, s.rot, acct, dest, ch)
    case SweepSessions(t) => t <= s.now
    case SweepStreams(t1, t2, gone) => s.now <= t1 <= t2 && Idle(s.rot.table, gone, t1, t2)
  }

  function After(cfg: Config, s: State, e: Event): State
    requires cfg.Valid() && Enabled(cfg, s, e)
  {
    match e
    case Tick(t) => s.(now := t)
    case Check(id, acct, token, dest, t1, t2) =>
      if Live(s.sess.store, token, acct.username, t1) then s.(now := t2)
      else s.(now := t2, sess := CheckMiss(s.sess, token, t2), calls := s.calls[id := Picking(acct, token, dest)])
    case PickFor(id, ch) =>
      var c := s.calls[id];
      var p := FreshPick(cfg, s.rot, c.acct, c.dest, ch);
      s.(now := ch.now, rot := p.rotor, calls := s.calls[id := Picked(c.acct, c.token, c.dest, p.ip)])
    case Commit(id, t1, t2) =>
      var c := s.calls[id];
      if Live(s.sess.store, c.token, c.acct.username, t1) then s.(now := t2, calls := s.calls - {id})
      else s.(now := t2, calls := s.calls - {id},
              sess := CommitMiss(s.sess, c.token, Session(c.ip, c.acct.username, t2 + cfg.stickyTTL)))
    case Fresh(acct, dest, ch) =>
      s.(now := ch.now, rot := FreshPick(cfg, s.rot, acct, dest, ch).rotor)
    case SweepSessions(t) => s.(sess := SweepExpired(s.sess, t))
    case SweepStreams(t1, t2, gone) => s.(now := t2, rot := Swept(s.rot, gone))
  }

  datatype Reply = NoReply | Reply(ip: Addr)

  /** The address a step hands back to its caller, if it ends a call. */
  function ReplyOf(cfg: Config, s: State, e: Event): Reply
    requires cfg.Valid() && Enabled(cfg, s, e)
  {
    match e
    case Check(_, acct, token, _, t1, _) =>
      if Live(s.sess.store, token, acct.username, t1) then Reply(s.sess.store[token].ip) else NoReply
    case Commit(id, t1, _) =>
      var c := s.calls[id];
      if Live(s.sess.store, c.token, c.acct.username, t1) then Reply(s.sess.store[c.token].ip) else Reply(c.ip)
    case Fresh(acct, dest, ch) => Reply(FreshPick(cfg, s.rot, acct, dest, ch).ip)
    case _ => NoReply
  }

  /** The token a reply is for, if it is a session's. */
  function TokenOf(s: State, e: Event): Str
    requires e.Check? || (e.Commit? && e.id in s.calls)
  {
    if e.Check? then e.token else s.calls[e.id].token
  }

  predicate Step(cfg: Config, s: State, e: Event, s': State)
    requires cfg.Valid()
  {
    Enabled(cfg, s, e) && s' == After(cfg, s, e)
  }

  /** The events, one after another, lead from s to s', and only the last one can reply. */
  predicate Performs(cfg: Config, s: State, events: seq<Event>, s': State, r: Reply)
    requires cfg.Valid()
    decreases |events|
  {
    && events != [] && Enabled(cfg, s, events[0])
    && if |events| == 1 then s' == After(cfg, s, events[0]) && r == ReplyOf(cfg, s, events[0])
       else ReplyOf(cfg, s, events[0]) == NoReply && Performs(cfg, After(cfg, s, events[0]), events[1..], s', r)
  }

  lemma OneEvent(cfg: Config, s: State, e: Event)
    requires cfg.Valid() && Enabled(cfg, s, e)
    ensures Performs(cfg, s, [e], After(cfg, s, e), ReplyOf(cfg, s, e))
  {
    hide Enabled, After, ReplyOf;
  }

  lemma ThreeEvents(cfg: Config, s: State, e1: Event, s1: State, e2: Event, s2: State, e3: Event)
    requires cfg.Valid() && Step(cfg, s, e1, s1) && Step(cfg, s1, e2, s2) && Enabled(cfg, s2, e3)
    requires ReplyOf(cfg, s, e1) == NoReply && ReplyOf(cfg, s1, e2) == NoReply
    ensures Performs(cfg, s, [e1, e2, e3], After(cfg, s2, e3), ReplyOf(cfg, s2, e3))
  {
    hide Enabled, After, ReplyOf;
    assert [e1, e2, e3][1..] == [e2, e3] && [e2, e3][1..] == [e3];
    OneEvent(cfg, s2, e3);
    assert Performs(cfg, s1, [e2, e3], After(cfg, s2, e3), ReplyOf(cfg, s2, e3));
  }

  /** A stickyIP call alone, that finds its session. */
  lemma HitPerforms(cfg: Config, rot: Rotor, sess: Sessions, acct: Account, token: Str, dest: Str, t1: int, t2: int)
    requires cfg.Valid() && t1 <= t2 && Live(sess.store, token, acct.username, t1)
    ensures Performs(cfg, State(t1, rot, sess, map[]), [Check(0, acct, token, dest, t1, t2)],
                     State(t2, rot, sess, map[]), Reply(sess.store[token].ip))
  {
    OneEvent(cfg, State(t1, rot, sess, map[]), Check(0, acct, token, dest, t1, t2));
  }

  /** A stickyIP call alone, that does not. */
  lemma MissPerforms(cfg: Config, rot: Rotor, sess: Sessions, acct: Account, token: Str, dest: Str, ch: Choice,
                     t1: int, t2: int, t4: int, t5: int)
    requires cfg.Valid() && t1 <= t2 <= ch.now <= t4 <= t5 && !Live(sess.store, token, acct.username, t1)
    requires Allowed(cfg, rot, acct, dest, ch) && !Live(CheckMiss(sess, token, t2).store, token, acct.username, t4)
    ensures var p := FreshPick(cfg, rot, acct, dest, ch);
            Performs(cfg, State(t1, rot, sess, map[]),
                     [Check(0, acct, token, dest, t1, t2), PickFor(0, ch), Commit(0, t4, t5)],
                     State(t5, p.rotor, CommitMiss(CheckMiss(sess, token, t2), token,
                                                   Session(p.ip, acct.username, t5 + cfg.stickyTTL)), map[]),
                     Reply(p.ip))
  {
    hide FreshPick, Allowed, CheckMiss, CommitMiss, Live, Performs;
    var s := State(t1, rot, sess, map[]);
    var s1 := After(cfg, s, Check(0, acct, token, dest, t1, t2));
    var s2 := After(cfg, s1, PickFor(0, ch));
    ThreeEvents(cfg, s, Check(0, acct, token, dest, t1, t2), s1, PickFor(0, ch), s2, Commit(0, t4, t5));
    assert s2.calls - {0} == map[];
  }

  // ----- the invariant of every reachable state -----

  /** Every stored session's address lies inside the prefix. */
  predicate StoreInside(cfg: Config, store: Store)
    requires cfg.Valid()
  {
    forall k | k in store :: Inside(cfg, store[k].ip)
  }

  predicate CallsInside(cfg: Config, calls: map<nat, Call>)
    requires cfg.Valid()
  {
    forall id | id in calls && calls[id].Picked? :: Inside(cfg, calls[id].ip)
  }

  predicate Inv(cfg: Config, s: State)
    requires cfg.Valid()
  {
    RotorInv(cfg, s.rot) && SessionsInv(s.sess) && StoreInside(cfg, s.sess.store) && CallsInside(cfg, s.calls)
  }

  lemma InitialInv(cfg: Config, s: State)
    requires cfg.Valid() && Initial(s)
    ensures Inv(cfg, s)
  {
    InitialRotor(cfg);
  }

  lemma DropInside(cfg: Config, s: Sessions, tokens: set<Str>)
    requires cfg.Valid() && StoreInside(cfg, s.store)
    ensures StoreInside(cfg, Drop(s, tokens).store)
  {
  }

  /** The first locked section, and the session sweep, keep the invariant. */
  lemma CheckKeeps(cfg: Config, s: State, e: Event)
    requires cfg.Valid() && Inv(cfg, s) && Enabled(cfg, s, e) && (e.Tick? || e.Check? || e.SweepSessions?)
    ensures Inv(cfg, After(cfg, s, e)) && s.now <= After(cfg, s, e).now
    ensures ReplyOf(cfg, s, e).Reply? ==> Inside(cfg, ReplyOf(cfg, s, e).ip)
  {
    hide RotorInv, Inside, SessionsInv, Drop, FreshPick;
    match e
    case Tick(_) =>
    case Check(_, _, token, _, _, t2) =>
      if Expired(s.sess.store, token, t2) {
        DropKeeps(s.sess, {token});
        DropInside(cfg, s.sess, {token});
      }
    case SweepSessions(t) =>
      DropKeeps(s.sess, ExpiredTokens(s.sess.store, t));
      DropInside(cfg, s.sess, ExpiredTokens(s.sess.store, t));
  }

  lemma CommitInside(cfg: Config, s: Sessions, token: Str, born: Session)
    requires cfg.Valid() && StoreInside(cfg, s.store) && Inside(cfg, born.ip)
    ensures StoreInside(cfg, CommitMiss(s, token, born).store)
  {
  }

  /** The call that ends, and the ones that stay. */
  lemma CallEnds(cfg: Config, calls: map<nat, Call>, id: nat)
    requires cfg.Valid() && CallsInside(cfg, calls) && id in calls && calls[id].Picked?
    ensures Inside(cfg, calls[id].ip) && CallsInside(cfg, calls - {id})
  {
  }

  lemma StoredInside(cfg: Config, store: Store, token: Str)
    requires cfg.Valid() && StoreInside(cfg, store)
    ensures token in store ==> Inside(cfg, store[token].ip)
  {
  }

  /** So does the second. */
  lemma CommitStepKeeps(cfg: Config, s: State, e: Event)
    requires cfg.Valid() && Inv(cfg, s) && Enabled(cfg, s, e) && e.Commit?
    ensures Inv(cfg, After(cfg, s, e)) && s.now <= After(cfg, s, e).now
    ensures ReplyOf(cfg, s, e).Reply? ==> Inside(cfg, ReplyOf(cfg, s, e).ip)
  {
    hide RotorInv, Inside, SessionsInv, StoreInside, CallsInside, CommitMiss, FreshPick;
    var c := s.calls[e.id];
    var born := Session(c.ip, c.acct.username, e.t2 + cfg.stickyTTL);
    CallEnds(cfg, s.calls, e.id);
    StoredInside(cfg, s.sess.store, c.token);
    CommitKeeps(s.sess, c.token, born);
    CommitInside(cfg, s.sess, c.token, born);
  }

  /** So does a pick, and so does a sweep of the cycles. */
  lemma RotationStepKeeps(cfg: Config, s: State, e: Event)
    requires cfg.Valid() && Inv(cfg, s) && Enabled(cfg, s, e)
    requires e.PickFor? || e.Fresh? || e.SweepStreams?
    ensures Inv(cfg, After(cfg, s, e)) && s.now <= After(cfg, s, e).now
    ensures ReplyOf(cfg, s, e).Reply? ==> Inside(cfg, ReplyOf(cfg, s, e).ip)
  {
    hide FreshPick, RotorInv, Swept, Inside, Allowed, SessionsInv;
    match e
    case PickFor(id, ch) =>
      FreshPickKeeps(cfg, s.rot, s.calls[id].acct, s.calls[id].dest, ch);
    case Fresh(acct, dest, ch) =>
      FreshPickKeeps(cfg, s.rot, acct, dest, ch);
    case SweepStreams(_, _, gone) =>
      SweepKeeps(cfg, s.rot, gone);
  }

  /** Every step of every caller keeps the invariant, and every address handed back
      lies inside the configured prefix. */
  lemma StepKeeps(cfg: Config, s: State, e: Event)
    requires cfg.Valid() && Inv(cfg, s) && Enabled(cfg, s, e)
    ensures Inv(cfg, After(cfg, s, e)) && s.now <= After(cfg, s, e).now
    ensures ReplyOf(cfg, s, e).Reply? ==> Inside(cfg, ReplyOf(cfg, s, e).ip)
  {
    hide Inv, After, Enabled, ReplyOf, Inside;
    if e.PickFor? || e.Fresh? || e.SweepStreams? {
      RotationStepKeeps(cfg, s, e);
    } else if e.Commit? {
      CommitStepKeeps(cfg, s, e);
    } else {
      CheckKeeps(cfg, s, e);
    }
  }

  // ----- runs -----

  /** A run: states joined by steps. */
  datatype Run = Run(states: seq<State>, events: seq<Event>)

  predicate StepAt(cfg: Config, run: Run, i: nat)
    requires cfg.Valid() && |run.states| == |run.events| + 1 && i < |run.events|
  {
    Step(cfg, run.states[i], run.events[i], run.states[i + 1])
  }

  /** A run from the initial state. */
  predicate IsRun(cfg: Config, run: Run)
    requires cfg.Valid()
  {
    |run.states| == |run.events| + 1
    && Initial(run.states[0])
    && forall i | 0 <= i < |run.events| :: StepAt(cfg, run, i)
  }

  /** Every state of every run satisfies the invariant. */
  lemma {:induction false} ReachableInv(cfg: Config, run: Run, n: nat)
    requires cfg.Valid() && IsRun(cfg, run) && n < |run.states|
    ensures Inv(cfg, run.states[n])
  {
    hide Inv, After, Enabled;
    if n == 0 {
      InitialInv(cfg, run.states[0]);
    } else {
      ReachableInv(cfg, run, n - 1);
      RunStep(cfg, run, n - 1);
      ArrivalKeeps(cfg, run.states[n - 1], run.events[n - 1], run.states[n]);
    }
  }

  lemma ArrivalKeeps(cfg: Config, s: State, e: Event, s': State)
    requires cfg.Valid() && Inv(cfg, s) && Enabled(cfg, s, e) && s' == After(cfg, s, e)
    ensures Inv(cfg, s')
  {
    StepKeeps(cfg, s, e);
  }

  lemma RunStep(cfg: Config, run: Run, n: nat)
    requires cfg.Valid() && IsRun(cfg, run) && n < |run.events|
    ensures Enabled(cfg, run.states[n], run.events[n])
    ensures run.states[n + 1] == After(cfg, run.states[n], run.events[n])
  {
    assert StepAt(cfg, run, n);
  }

  /** Over every run: the cycle table stays within its cap and its gauge is exact, the
      recent ring is exactly the last recorded addresses and free of duplicates, the
      session gauge is conserved, and every stored address is inside the prefix. */
  lemma RunSafety(cfg: Config, run: Run, n: nat)
    requires cfg.Valid() && IsRun(cfg, run) && n < |run.states|
    ensures var s := run.states[n];
            && |s.rot.table| <= cfg.streamMax && s.rot.hostsCur == |s.rot.table|
            && NoDuplicates(s.rot.recent)
            && s.rot.recent == Last(s.rot.recorded, if cfg.brCap > 0 then cfg.brCap else 0)
            && s.sess.cur == s.sess.tot - s.sess.drops
            && s.sess.cur - |s.sess.store| == s.sess.overwrites
            && (forall a | a in s.rot.recent :: Inside(cfg, a))
            && (forall k | k in s.sess.store :: Inside(cfg, s.sess.store[k].ip))
  {
    ReachableInv(cfg, run, n);
  }

  /** Every address a run hands back lies inside the configured prefix. */
  lemma RepliesInside(cfg: Config, run: Run, n: nat)
    requires cfg.Valid() && IsRun(cfg, run) && n < |run.events|
    ensures Enabled(cfg, run.states[n], run.events[n])
    ensures var r := ReplyOf(cfg, run.states[n], run.events[n]);
            r.Reply? ==> Inside(cfg, r.ip)
  {
    RunStep(cfg, run, n);
    ReachableInv(cfg, run, n);
    StepKeeps(cfg, run.states[n], run.events[n]);
  }
}
