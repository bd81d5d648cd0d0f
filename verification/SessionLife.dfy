/** How long a session lives, and when the session gauge counts the stored sessions. */
module SessionLife {
  import opened Rotation
  import opened Picks
  import opened ProxyRuns
  import opened ProxyTheorems

  // ----- single steps, field by field -----

  /** A check that misses drops the token's session exactly when that has expired. */
  lemma MissedCheck(cfg: Config, s: State, e: Event)
    requires cfg.Valid() && Enabled(cfg, s, e) && e.Check? && !Live(s.sess.store, e.token, e.acct.username, e.t1)
    ensures var now := After(cfg, s, e).sess;
            if e.token in s.sess.store && s.sess.store[e.token].expire < e.t2 then
              now == Sessions(s.sess.store - {e.token}, s.sess.cur - 1, s.sess.tot, s.sess.drops + 1, s.sess.overwrites)
            else now == s.sess
    ensures After(cfg, s, e).calls == s.calls[e.id := Picking(e.acct, e.token, e.dest)]
  {
  }

  /** A commit that finds no live session of its account stores one that lives for the TTL. */
  lemma CommitStores(cfg: Config, s: State, e: Event)
    requires cfg.Valid() && Enabled(cfg, s, e) && e.Commit?
    requires !Live(s.sess.store, s.calls[e.id].token, s.calls[e.id].acct.username, e.t1)
    ensures var now, c := After(cfg, s, e).sess, s.calls[e.id];
            && now.store == s.sess.store[c.token := Session(c.ip, c.acct.username, e.t2 + cfg.stickyTTL)]
            && now.cur == s.sess.cur + 1 && now.tot == s.sess.tot + 1 && now.drops == s.sess.drops
            && now.overwrites == if c.token in s.sess.store then s.sess.overwrites + 1 else s.sess.overwrites
  {
  }

  /** After a sweep that read the clock at t, exactly the sessions that t does not lie after
      are left, as they were, and each one gone is counted. */
  lemma SweepLeaves(cfg: Config, s: State, t: int)
    requires cfg.Valid() && Enabled(cfg, s, SweepSessions(t))
    ensures var now := After(cfg, s, SweepSessions(t)).sess;
            && (forall k :: k in now.store <==> k in s.sess.store && t <= s.sess.store[k].expire)
            && (forall k | k in now.store :: now.store[k] == s.sess.store[k])
            && s.sess.cur - now.cur == |s.sess.store| - |now.store| == now.drops - s.sess.drops
            && now.tot == s.sess.tot && now.overwrites == s.sess.overwrites
  {
    hide Drop;
    DropLeaves(s.sess, ExpiredTokens(s.sess.store, t));
  }

  lemma DropLeaves(s: Sessions, gone: set<Str>)
    requires gone <= s.store.Keys
    ensures var now := Drop(s, gone);
            && now.store == s.store - gone && now.tot == s.tot && now.overwrites == s.overwrites
            && s.cur - now.cur == |s.store| - |now.store| == now.drops - s.drops
  {
    assert (s.store - gone).Keys == s.store.Keys - gone;
    assert |s.store.Keys - gone| == |s.store.Keys| - |gone| by {
      assert s.store.Keys == (s.store.Keys - gone) + gone;
    }
  }

  // ----- the life of a session -----

  /** A commit that stores. */
  predicate StoresAt(run: Run, i: nat, token: Str, user: Str)
    requires |run.states| == |run.events| + 1 && i < |run.events|
  {
    var s, e := run.states[i], run.events[i];
    e.Commit? && e.id in s.calls && s.calls[e.id].token == token && s.calls[e.id].acct.username == user
    && !Live(s.sess.store, token, user, e.t1)
  }

  predicate NoCommitBetween(run: Run, token: Str, i: nat, j: nat)
    requires |run.states| == |run.events| + 1 && j <= |run.events|
  {
    forall k | i < k < j && run.events[k].Commit? && run.events[k].id in run.states[k].calls ::
      run.states[k].calls[run.events[k].id].token != token
  }

  /** The session is as it was born, or it has been dropped after it expired. */
  predicate BornOrGone(s: State, token: Str, born: Session) {
    (token in s.sess.store && s.sess.store[token] == born)
    || (token !in s.sess.store && born.expire < s.now)
  }

  lemma BornStep(cfg: Config, s: State, e: Event, token: Str, born: Session)
    requires cfg.Valid() && Enabled(cfg, s, e) && BornOrGone(s, token, born)
    requires e.Commit? ==> s.calls[e.id].token != token
    ensures BornOrGone(After(cfg, s, e), token, born)
  {
    hide FreshPick, Allowed, Idle, Swept;
  }

  lemma {:induction false} BornLasts(cfg: Config, run: Run, token: Str, born: Session, i: nat, j: nat)
    requires cfg.Valid() && IsRun(cfg, run) && i < j <= |run.events| && BornOrGone(run.states[i + 1], token, born)
    requires NoCommitBetween(run, token, i, j)
    ensures BornOrGone(run.states[j], token, born)
    decreases j
  {
    hide BornOrGone, After, Enabled;
    if i + 1 < j {
      BornLasts(cfg, run, token, born, i, j - 1);
      RunStep(cfg, run, j - 1);
      BornArrival(cfg, run.states[j - 1], run.events[j - 1], run.states[j], token, born);
    }
  }

  lemma BornArrival(cfg: Config, s: State, e: Event, s': State, token: Str, born: Session)
    requires cfg.Valid() && Enabled(cfg, s, e) && s' == After(cfg, s, e) && BornOrGone(s, token, born)
    requires e.Commit? && e.id in s.calls ==> s.calls[e.id].token != token
    ensures BornOrGone(s', token, born)
  {
    BornStep(cfg, s, e, token, born);
  }

  /** A session committed with the clock at t2 answers its account exactly until t2 + TTL:
      however the callers and sweeps interleave, a later check of the account for the token,
      with no other commit for the token in between, returns the committed address if it reads
      the clock before that moment and nothing otherwise. */
  lemma SessionLivesExactly(cfg: Config, run: Run, token: Str, user: Str, i: nat, j: nat)
    requires cfg.Valid() && IsRun(cfg, run) && i < j < |run.events| && StoresAt(run, i, token, user)
    requires run.events[j].Check? && run.events[j].token == token && run.events[j].acct.username == user
    requires NoCommitBetween(run, token, i, j)
    ensures Enabled(cfg, run.states[i], run.events[i]) && Enabled(cfg, run.states[j], run.events[j])
    ensures ReplyOf(cfg, run.states[j], run.events[j])
         == if run.events[j].t1 < run.events[i].t2 + cfg.stickyTTL
            then Reply(run.states[i].calls[run.events[i].id].ip) else NoReply
  {
    hide BornOrGone, After, Enabled;
    RunStep(cfg, run, i);
    RunStep(cfg, run, j);
    var born := CommittedIs(cfg, run.states[i], run.events[i], run.states[i + 1], token, user);
    BornLasts(cfg, run, token, born, i, j);
    CheckAnswers(cfg, run.states[j], run.events[j], born);
  }

  lemma CommittedIs(cfg: Config, s: State, e: Event, s': State, token: Str, user: Str) returns (born: Session)
    requires cfg.Valid() && Enabled(cfg, s, e) && s' == After(cfg, s, e)
    requires e.Commit? && s.calls[e.id].token == token && s.calls[e.id].acct.username == user
    requires !Live(s.sess.store, token, user, e.t1)
    ensures born == Session(s.calls[e.id].ip, user, e.t2 + cfg.stickyTTL)
    ensures BornOrGone(s', token, born)
  {
    born := Session(s.calls[e.id].ip, user, e.t2 + cfg.stickyTTL);
    CommitStores(cfg, s, e);
  }

  lemma CheckAnswers(cfg: Config, s: State, e: Event, born: Session)
    requires cfg.Valid() && Enabled(cfg, s, e) && e.Check? && BornOrGone(s, e.token, born)
    requires e.acct.username == born.acct
    ensures ReplyOf(cfg, s, e) == if e.t1 < born.expire then Reply(born.ip) else NoReply
  {
  }

  // ----- when the gauge is exact -----

  /** No two accounts ever use one token. */
  predicate TokensApart(run: Run) {
    forall i, j | 0 <= i < j < |run.events| && run.events[i].Check? && run.events[j].Check?
                  && run.events[i].token == run.events[j].token ::
      run.events[i].acct.username == run.events[j].acct.username
  }

  /** No call for a token begins with a miss while another one is open, or with the clock at
      the very moment at which the stored session expires. */
  predicate WellTimed(s: State, e: Event) {
    e.Check? && !Live(s.sess.store, e.token, e.acct.username, e.t1) ==>
      && (forall id | id in s.calls :: s.calls[id].token != e.token)
      && (e.token in s.sess.store ==> e.t2 != s.sess.store[e.token].expire)
  }

  predicate WellTimedRun(run: Run) {
    |run.states| == |run.events| + 1
    && forall i | 0 <= i < |run.events| :: WellTimed(run.states[i], run.events[i])
  }

  /** Every open call is the only one for its token and has no session stored. */
  predicate Solo(s: State) {
    && s.sess.overwrites == 0
    && (forall id | id in s.calls :: s.calls[id].token !in s.sess.store)
    && (forall id, id' | id in s.calls && id' in s.calls && id != id' :: s.calls[id].token != s.calls[id'].token)
  }

  /** A check for a stored token is made by the session's account. */
  predicate OwnCheck(s: State, e: Event) {
    e.Check? && e.token in s.sess.store ==> s.sess.store[e.token].acct == e.acct.username
  }

  lemma SoloStep(cfg: Config, s: State, e: Event)
    requires cfg.Valid() && Enabled(cfg, s, e) && Solo(s) && WellTimed(s, e) && OwnCheck(s, e)
    ensures Solo(After(cfg, s, e))
  {
    hide FreshPick, Allowed, Idle, Swept;
  }

  /** Whoever checks for a token has been its only user. */
  lemma {:induction false} OwnedBefore(cfg: Config, run: Run, n: nat, j: nat)
    requires cfg.Valid() && IsRun(cfg, run) && TokensApart(run) && n <= j < |run.events| && run.events[j].Check?
    ensures Owned(run.states[n], run.events[j].token, run.events[j].acct.username)
  {
    hide Owned, After, Enabled;
    if n == 0 {
      OwnedAtFirst(run.states[0], run.events[j].token, run.events[j].acct.username);
    } else {
      OwnedBefore(cfg, run, n - 1, j);
      RunStep(cfg, run, n - 1);
      OwnedStep(cfg, run.states[n - 1], run.events[n - 1], run.events[j].token, run.events[j].acct.username);
    }
  }

  lemma OwnedAtFirst(s: State, token: Str, user: Str)
    requires Initial(s)
    ensures Owned(s, token, user)
  {
  }

  lemma {:induction false} SoloThroughout(cfg: Config, run: Run, n: nat)
    requires cfg.Valid() && IsRun(cfg, run) && TokensApart(run) && WellTimedRun(run) && n < |run.states|
    ensures Solo(run.states[n])
  {
    hide After, Enabled, WellTimed, Solo, OwnCheck;
    if n == 0 {
      SoloAtFirst(run.states[0]);
    } else {
      SoloThroughout(cfg, run, n - 1);
      RunStep(cfg, run, n - 1);
      var s, e := run.states[n - 1], run.events[n - 1];
      assert OwnCheck(s, e) by {
        if e.Check? {
          OwnedBefore(cfg, run, n - 1, n - 1);
        }
        OwnersCheck(s, e);
      }
      SoloStep(cfg, s, e);
    }
  }

  lemma OwnersCheck(s: State, e: Event)
    requires e.Check? ==> Owned(s, e.token, e.acct.username)
    ensures OwnCheck(s, e)
  {
  }

  lemma SoloAtFirst(s: State)
    requires Initial(s)
    ensures Solo(s)
  {
  }

  /** With one account to a token, one open call to a token and no check at the very moment of
      expiry, no session is ever overwritten and the gauge is the number of stored sessions, in
      every state of every run. SharedTokenOverwrites, LateCommitOverwrites and
      InstantCheckOverwrites each break one of the three and overwrite. */
  lemma GaugeIsExact(cfg: Config, run: Run, n: nat)
    requires cfg.Valid() && IsRun(cfg, run) && TokensApart(run) && WellTimedRun(run) && n < |run.states|
    ensures run.states[n].sess.overwrites == 0
    ensures run.states[n].sess.cur == |run.states[n].sess.store|
  {
    SoloThroughout(cfg, run, n);
    ReachableInv(cfg, run, n);
  }

  /** One account with one call after the other: the second one checks at the very moment at
      which the first one's session expires, which is neither live nor dropped. */
  lemma InstantCheckOverwrites(cfg: Config, a: Account, token: Str, dest: Str) returns (run: Run)
    requires cfg.Valid()
    ensures IsRun(cfg, run) && |run.events| == 6 && TokensApart(run)
    ensures forall i | 0 <= i < 6 && run.events[i].Check? :: run.states[i].calls == map[]
    ensures run.events[3].Check? && token in run.states[3].sess.store
            && run.events[3].t1 == run.events[3].t2 == run.states[3].sess.store[token].expire
    ensures run.states[6].sess.cur == 2 && |run.states[6].sess.store| == 1 && run.states[6].sess.overwrites == 1
  {
    hide FreshPick, StreamKey, Allowed, After, Enabled;
    var t := cfg.stickyTTL;
    var ch := Choice(StreamKey(a.username, dest), 0, [0, 0, 0, 0]);
    var ch' := ch.(now := t);
    var s0 := State(0, EMPTY_ROTOR, NO_SESSIONS, map[]);
    AnySecond(cfg, a, a, dest, ch);
    var s1, s2, s3 := WholeCall(cfg, s0, 0, a, token, dest, ch, 0);
    AllowedAnyTime(cfg, s3.rot, a, dest, ch, t);
    var s4, s5, s6 := WholeCall(cfg, s3, 1, a, token, dest, ch', t);
    run := Run([s0, s1, s2, s3, s4, s5, s6],
               [Check(0, a, token, dest, 0, 0), PickFor(0, ch), Commit(0, 0, 0),
                Check(1, a, token, dest, t, t), PickFor(1, ch'), Commit(1, t, t)]);
    forall i | 0 <= i < 6
      ensures StepAt(cfg, run, i)
    {
    }
    assert s6.sess.store == map[token := s6.sess.store[token]];
  }

  lemma AllowedAnyTime(cfg: Config, r: Rotor, acct: Account, dest: Str, ch: Choice, t: int)
    requires Allowed(cfg, r, acct, dest, ch)
    ensures Allowed(cfg, r, acct, dest, ch.(now := t))
  {
  }
}
