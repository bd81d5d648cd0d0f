/** Sticky sessions stay put, over every interleaving. */
module ProxyTheorems {
  import opened Rotation
  import opened Picks
  import opened ProxyRuns

  // ----- sticky sessions -----

  /** Only `user` has used the token so far. */
  predicate Owned(s: State, token: Str, user: Str) {
    (token in s.sess.store ==> s.sess.store[token].acct == user)
    && forall id | id in s.calls && s.calls[id].token == token :: s.calls[id].acct.username == user
  }

  /** Every call for the token is made by `user`. */
  predicate OneAccount(run: Run, token: Str, user: Str) {
    forall i | 0 <= i < |run.events| ::
      run.events[i].Check? && run.events[i].token == token ==> run.events[i].acct.username == user
  }

  lemma OwnedStep(cfg: Config, s: State, e: Event, token: Str, user: Str)
    requires cfg.Valid() && Enabled(cfg, s, e) && Owned(s, token, user)
    requires e.Check? && e.token == token ==> e.acct.username == user
    ensures Owned(After(cfg, s, e), token, user)
  {
  }

  lemma {:induction false} OwnedThroughout(cfg: Config, run: Run, token: Str, user: Str, n: nat)
    requires cfg.Valid() && IsRun(cfg, run) && OneAccount(run, token, user) && n < |run.states|
    ensures Owned(run.states[n], token, user)
  {
    if n > 0 {
      OwnedThroughout(cfg, run, token, user, n - 1);
      RunStep(cfg, run, n - 1);
      OwnedStep(cfg, run.states[n - 1], run.events[n - 1], token, user);
    }
  }

  /** A step that answers a session call for the token. */
  predicate AnswersFor(cfg: Config, s: State, e: Event, token: Str): (yes: bool)
    requires cfg.Valid() && Enabled(cfg, s, e)
    ensures yes ==> token in After(cfg, s, e).sess.store
  {
    (e.Check? || e.Commit?) && TokenOf(s, e) == token && ReplyOf(cfg, s, e).Reply?
  }

  /** The address handed back is the one stored for the token right afterwards. */
  lemma AnswerIsStored(cfg: Config, s: State, e: Event, token: Str)
    requires cfg.Valid() && Enabled(cfg, s, e) && AnswersFor(cfg, s, e, token)
    ensures var store := After(cfg, s, e).sess.store;
            token in store && store[token].ip == ReplyOf(cfg, s, e).ip
  {
  }

  /** A commit for the token on behalf of another account than the session's. */
  predicate ForeignCommit(s: State, e: Event, token: Str)
    requires token in s.sess.store
  {
    e.Commit? && e.id in s.calls && s.calls[e.id].token == token
    && s.calls[e.id].acct.username != s.sess.store[token].acct
  }

  /** A session that is still live after a step survived it unchanged, exactly when the
      step was not another account's commit for the same token. */
  lemma LiveSessionReplacedIff(cfg: Config, s: State, e: Event, token: Str)
    requires cfg.Valid() && Enabled(cfg, s, e) && token in s.sess.store
    ensures var s' := After(cfg, s, e);
            s'.now < s.sess.store[token].expire ==>
              token in s'.sess.store
              && (s'.sess.store[token] != s.sess.store[token] <==> ForeignCommit(s, e, token))
  {
  }

  lemma {:induction false} ClockMonotone(cfg: Config, run: Run, i: nat, j: nat)
    requires cfg.Valid() && IsRun(cfg, run) && i <= j < |run.states|
    ensures run.states[i].now <= run.states[j].now
    decreases j
  {
    if i < j {
      ClockMonotone(cfg, run, i, j - 1);
      RunClock(cfg, run, j - 1);
    }
  }

  lemma ClockStep(cfg: Config, s: State, e: Event)
    requires cfg.Valid() && Enabled(cfg, s, e)
    ensures s.now <= After(cfg, s, e).now
  {
  }

  lemma RunClock(cfg: Config, run: Run, n: nat)
    requires cfg.Valid() && IsRun(cfg, run) && n < |run.events|
    ensures run.states[n].now <= run.states[n + 1].now
  {
    RunStep(cfg, run, n);
    ClockStep(cfg, run.states[n], run.events[n]);
  }

  /** A token used by one account keeps its session, unreplaced and undropped, until
      the session expires. */
  lemma {:induction false} SessionSurvives(cfg: Config, run: Run, token: Str, user: Str, i: nat, j: nat)
    requires cfg.Valid() && IsRun(cfg, run) && OneAccount(run, token, user) && i <= j < |run.states|
    requires token in run.states[i].sess.store
    requires run.states[j].now < run.states[i].sess.store[token].expire
    ensures token in run.states[j].sess.store
    ensures run.states[j].sess.store[token] == run.states[i].sess.store[token]
    decreases j
  {
    hide After, Enabled;
    if i < j {
      ClockMonotone(cfg, run, j - 1, j);
      SessionSurvives(cfg, run, token, user, i, j - 1);
      RunStep(cfg, run, j - 1);
      OwnedThroughout(cfg, run, token, user, j - 1);
      LiveSessionReplacedIff(cfg, run.states[j - 1], run.events[j - 1], token);
    }
  }

  /** All calls for such a token that finish during one session's life, whichever callers
      make them and however their locked sections interleave, return one address. */
  lemma StickyAnswersAgree(cfg: Config, run: Run, token: Str, user: Str, i: nat, j: nat)
    requires cfg.Valid() && IsRun(cfg, run) && OneAccount(run, token, user) && i < j < |run.events|
    requires Enabled(cfg, run.states[i], run.events[i]) && Enabled(cfg, run.states[j], run.events[j])
    requires AnswersFor(cfg, run.states[i], run.events[i], token)
    requires AnswersFor(cfg, run.states[j], run.events[j], token)
    requires run.states[j + 1].now < After(cfg, run.states[i], run.events[i]).sess.store[token].expire
    ensures ReplyOf(cfg, run.states[i], run.events[i]) == ReplyOf(cfg, run.states[j], run.events[j])
  {
    RunStep(cfg, run, i);
    RunStep(cfg, run, j);
    AnswerIsStored(cfg, run.states[i], run.events[i], token);
    AnswerIsStored(cfg, run.states[j], run.events[j], token);
    SessionSurvives(cfg, run, token, user, i + 1, j + 1);
  }

  /** Two accounts that share a token do collide: the second one's commit replaces the
      first one's live session, and the session gauge then counts two for one stored. */
  lemma SharedTokenOverwrites(cfg: Config, a: Account, b: Account, token: Str, dest: Str) returns (run: Run)
    requires cfg.Valid() && cfg.stickyTTL > 0 && a.username != b.username
    ensures IsRun(cfg, run) && |run.events| == 6 && ForeignCommitAt(run, 5, token)
    ensures run.states[5].sess.store[token].acct == a.username
            && run.states[5].now < run.states[5].sess.store[token].expire
    ensures token in run.states[6].sess.store && run.states[6].sess.store[token].acct == b.username
    ensures run.states[6].sess.cur == 2 && |run.states[6].sess.store| == 1
  {
    hide FreshPick, StreamKey, Allowed, After, Enabled;
    var ch := Choice(StreamKey(a.username, dest), 0, [0, 0, 0, 0]);
    var s0 := State(0, EMPTY_ROTOR, NO_SESSIONS, map[]);
    AnyFirst(cfg, a, dest, ch);
    var s1, s2, s3 := WholeCall(cfg, s0, 0, a, token, dest, ch, 0);
    AnySecond(cfg, a, b, dest, ch);
    var s4, s5, s6 := WholeCall(cfg, s3, 1, b, token, dest, ch, 0);
    run := Run([s0, s1, s2, s3, s4, s5, s6],
               [Check(0, a, token, dest, 0, 0), PickFor(0, ch), Commit(0, 0, 0),
                Check(1, b, token, dest, 0, 0), PickFor(1, ch), Commit(1, 0, 0)]);
    forall i | 0 <= i < 6
      ensures StepAt(cfg, run, i)
    {
    }
    assert s6.sess.store == map[token := s6.sess.store[token]];
  }

  /** One account alone can do it as well: two callers miss together, the first commits,
      and the second commits when that session has run out and nobody has swept it. */
  lemma LateCommitOverwrites(cfg: Config, a: Account, token: Str, dest: Str) returns (run: Run)
    requires cfg.Valid()
    ensures IsRun(cfg, run) && |run.events| == 6 && OneAccount(run, token, a.username)
    ensures run.states[6].sess.cur == 2 && |run.states[6].sess.store| == 1 && run.states[6].sess.overwrites == 1
  {
    hide FreshPick, StreamKey, Allowed, After, Enabled;
    var ch, t := Choice(StreamKey(a.username, dest), 0, [0, 0, 0, 0]), cfg.stickyTTL;
    var s0 := State(0, EMPTY_ROTOR, NO_SESSIONS, map[]);
    AnySecond(cfg, a, a, dest, ch);
    var s1, s2, s3, s4 := BothMiss(cfg, a, token, dest, ch);
    var s5, s6 := BothCommit(cfg, a, token, s4);
    run := Run([s0, s1, s2, s3, s4, s5, s6],
               [Check(0, a, token, dest, 0, 0), Check(1, a, token, dest, 0, 0), PickFor(0, ch), PickFor(1, ch),
                Commit(0, 0, 0), Commit(1, t, t)]);
    forall i | 0 <= i < 6
      ensures StepAt(cfg, run, i)
    {
    }
  }

  /** Two calls check and pick before either commits. */
  lemma BothMiss(cfg: Config, a: Account, token: Str, dest: Str, ch: Choice)
    returns (s1: State, s2: State, s3: State, s4: State)
    requires cfg.Valid() && ch.now == 0 && Allowed(cfg, EMPTY_ROTOR, a, dest, ch)
    requires Allowed(cfg, FreshPick(cfg, EMPTY_ROTOR, a, dest, ch).rotor, a, dest, ch)
    ensures Step(cfg, State(0, EMPTY_ROTOR, NO_SESSIONS, map[]), Check(0, a, token, dest, 0, 0), s1)
    ensures Step(cfg, s1, Check(1, a, token, dest, 0, 0), s2)
    ensures Step(cfg, s2, PickFor(0, ch), s3) && Step(cfg, s3, PickFor(1, ch), s4)
    ensures s4.now == 0 && s4.sess == NO_SESSIONS && 0 in s4.calls && 1 in s4.calls
            && s4.calls[0].Picked? && s4.calls[0].acct == a && s4.calls[0].token == token
            && s4.calls[1].Picked? && s4.calls[1].acct == a && s4.calls[1].token == token
  {
    hide FreshPick, Allowed;
    s1 := After(cfg, State(0, EMPTY_ROTOR, NO_SESSIONS, map[]), Check(0, a, token, dest, 0, 0));
    s2 := After(cfg, s1, Check(1, a, token, dest, 0, 0));
    s3 := After(cfg, s2, PickFor(0, ch));
    s4 := After(cfg, s3, PickFor(1, ch));
  }

  /** One commits at once, the other when the TTL has passed. */
  lemma BothCommit(cfg: Config, a: Account, token: Str, s: State) returns (s1: State, s2: State)
    requires cfg.Valid() && s.now == 0 && s.sess == NO_SESSIONS && 0 in s.calls && 1 in s.calls
    requires forall id: nat | id < 2 && id in s.calls ::
               s.calls[id].Picked? && s.calls[id].acct == a && s.calls[id].token == token
    ensures Step(cfg, s, Commit(0, 0, 0), s1) && Step(cfg, s1, Commit(1, cfg.stickyTTL, cfg.stickyTTL), s2)
    ensures s2.sess.cur == 2 && |s2.sess.store| == 1 && s2.sess.overwrites == 1
  {
    s1 := After(cfg, s, Commit(0, 0, 0));
    s2 := After(cfg, s1, Commit(1, cfg.stickyTTL, cfg.stickyTTL));
    assert s2.sess.store == map[token := s2.sess.store[token]];
  }

  /** The three sections of one call, all at time t, when the token has no session of the
      account and no expired one. */
  lemma WholeCall(cfg: Config, s: State, id: nat, acct: Account, token: Str, dest: Str, ch: Choice, t: int)
    returns (s1: State, s2: State, s3: State)
    requires cfg.Valid() && s.now <= t && s.calls == map[] && ch.now == t
    requires !Live(s.sess.store, token, acct.username, t) && !Expired(s.sess.store, token, t)
    requires Allowed(cfg, s.rot, acct, dest, ch)
    ensures Step(cfg, s, Check(id, acct, token, dest, t, t), s1)
    ensures Step(cfg, s1, PickFor(id, ch), s2) && Step(cfg, s2, Commit(id, t, t), s3)
    ensures s2.now == t && s2.sess == s.sess
            && id in s2.calls && s2.calls[id].token == token && s2.calls[id].acct == acct
    ensures var p := FreshPick(cfg, s.rot, acct, dest, ch);
            s3 == State(t, p.rotor, CommitMiss(s.sess, token, Session(p.ip, acct.username, t + cfg.stickyTTL)), map[])
  {
    hide FreshPick, Allowed, CommitMiss;
    s1 := After(cfg, s, Check(id, acct, token, dest, t, t));
    s2 := After(cfg, s1, PickFor(id, ch));
    s3 := After(cfg, s2, Commit(id, t, t));
    assert s2.calls - {id} == map[];
  }

  /** The first pick of a run evicts nothing, the second at most the first one's entry. */
  lemma AnyFirst(cfg: Config, a: Account, dest: Str, ch: Choice)
    requires cfg.Valid() && |ch.ns| == 4
    ensures Allowed(cfg, EMPTY_ROTOR, a, dest, ch)
    ensures FreshPick(cfg, EMPTY_ROTOR, a, dest, ch).rotor.table.Keys
            == if a.size == 0 then {StreamKey(a.username, dest)} else {}
  {
    hide StreamKey, OriginOf, DrawFresh, Recorded, SlicedCandidates, FirstFresh;
  }

  lemma AnySecond(cfg: Config, a: Account, b: Account, dest: Str, ch: Choice)
    requires cfg.Valid() && |ch.ns| == 4 && ch.victim == StreamKey(a.username, dest)
    ensures Allowed(cfg, EMPTY_ROTOR, a, dest, ch)
    ensures Allowed(cfg, FreshPick(cfg, EMPTY_ROTOR, a, dest, ch).rotor, b, dest, ch)
  {
    hide FreshPick, StreamKey;
    AnyFirst(cfg, a, dest, ch);
    var t := FreshPick(cfg, EMPTY_ROTOR, a, dest, ch).rotor.table;
    assert |t| == |t.Keys|;
  }

  predicate ForeignCommitAt(run: Run, i: nat, token: Str) {
    i < |run.events| && i < |run.states| && token in run.states[i].sess.store
    && ForeignCommit(run.states[i], run.events[i], token)
  }
}
