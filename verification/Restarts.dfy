/** A run in which a cycle, swept and started again, hands out its first address a second
    time. The ring does not prevent it: as many picks as it holds push that address out. */
module Restarts {
  import opened Words
  import opened Addresses
  import opened Streams
  import opened Rotation
  import opened Draws
  import opened Picks
  import opened ProxyRuns
  import opened Freshness

  /** The first n addresses drawn. */
  function FirstDraws(o: CycleState, n: nat): (ips: seq<Addr>)
    requires o.Valid()
    ensures |ips| == n && forall i | 0 <= i < n :: ips[i] == NthDraw(o, i)
  {
    if n == 0 then [] else FirstDraws(o, n - 1) + [NthDraw(o, n - 1)]
  }

  function RingCap(cfg: Config): nat { if cfg.brCap > 0 then cfg.brCap else 0 }

  const ANY: seq<Word> := [0, 0, 0, 0]

  /** The state after n picks of one account for one destination, all at time 0. */
  function Walked(cfg: Config, acct: Account, dest: Str, n: nat): State
    requires cfg.Valid()
  {
    var o := OriginOf(cfg, acct, dest);
    var table: Table := if n == 0 then map[] else map[StreamKey(acct.username, dest) := Entry(AfterDraws(o, n), 0)];
    State(0, Rotor(table, if n == 0 then 0 else 1, Last(FirstDraws(o, n), RingCap(cfg)),
                   if cfg.brCap > 0 then FirstDraws(o, n) else []),
          NO_SESSIONS, map[])
  }

  lemma LastAt<T>(s: seq<T>, n: nat, i: nat)
    requires i < |Last(s, n)|
    ensures |Last(s, n)| <= n && |Last(s, n)| <= |s| && Last(s, n)[i] == s[|s| - |Last(s, n)| + i]
  {
  }

  /** The ring has not seen the next address. */
  lemma NextUnseen(o: CycleState, n: nat, cap: nat)
    requires o.Valid() && (cap == 0 || 9 * n < Pow2(o.cycle.Width()))
    ensures NthDraw(o, n) !in Last(FirstDraws(o, n), cap)
  {
    hide NthDraw, FirstDraws, Last, Pow2;
    var recent := Last(FirstDraws(o, n), cap);
    if NthDraw(o, n) in recent {
      var i :| 0 <= i < |recent| && recent[i] == NthDraw(o, n);
      LastAt(FirstDraws(o, n), cap, i);
      DrawsDiffer(o, n - |recent| + i, n);
    }
  }

  /** What is recorded is the next address. */
  lemma RecordNext(cfg: Config, o: CycleState, n: nat)
    requires o.Valid()
    ensures NthDraw(o, n) !in Last(FirstDraws(o, n), RingCap(cfg)) ==>
              Recorded(Last(FirstDraws(o, n), RingCap(cfg)), cfg.brCap, NthDraw(o, n))
              == Last(FirstDraws(o, n + 1), RingCap(cfg))
  {
    hide NthDraw, FirstDraws;
    NextRecorded(o, n);
  }

  /** An address the ring has not seen is taken at once. */
  lemma UnseenTaken(s: CycleState, recent: seq<Addr>, retries: nat)
    requires s.Valid() && Draw(s).ip !in recent
    ensures DrawFresh(s, recent, retries) == Draw(s)
  {
    hide Draw;
  }

  /** The table of a walk before and after its n-th draw. */
  lemma WalkTable(cfg: Config, acct: Account, dest: Str, n: nat)
    requires cfg.Valid()
    ensures var o, key := OriginOf(cfg, acct, dest), StreamKey(acct.username, dest);
            var t := Touched(Walked(cfg, acct, dest, n).rot.table, cfg.streamMax, key, o, [], 0);
            && t[key].st == AfterDraws(o, n)
            && (forall e: Entry :: t[key := e] == map[key := e])
            && |Walked(cfg, acct, dest, n).rot.table| == (if n == 0 then 0 else 1)
            && (n > 0 ==> key in Walked(cfg, acct, dest, n).rot.table)
  {
    hide OriginOf, StreamKey, FirstDraws, Last;
  }

  /** One more pick. */
  lemma WalkStep(cfg: Config, acct: Account, dest: Str, n: nat)
    requires cfg.Valid() && acct.size == 0
    requires cfg.brCap <= 0 || 9 * n < Pow2(128 - cfg.pool.bits)
    ensures var s, e := Walked(cfg, acct, dest, n), Fresh(acct, dest, Choice([], 0, ANY));
            && Enabled(cfg, s, e) && After(cfg, s, e) == Walked(cfg, acct, dest, n + 1)
            && PickedIp(cfg, s, e) == NthDraw(OriginOf(cfg, acct, dest), n)
  {
    hide OriginOf, StreamKey, Draw, DrawFresh, Recorded, FirstDraws, Last, Touched, CyclePick;
    var o := OriginOf(cfg, acct, dest);
    NextUnseen(o, n, RingCap(cfg));
    RecordNext(cfg, o, n);
    WalkTable(cfg, acct, dest, n);
    UnseenTaken(AfterDraws(o, n), Last(FirstDraws(o, n), RingCap(cfg)), BACKSTOP_RETRIES);
    CyclePickParts(cfg, Walked(cfg, acct, dest, n).rot, acct, dest, [], 0);
    NextRecorded(o, n);
  }

  lemma NextRecorded(o: CycleState, n: nat)
    requires o.Valid()
    ensures FirstDraws(o, n + 1) == FirstDraws(o, n) + [NthDraw(o, n)]
  {
  }

  /** The states of a walk. */
  function WalkStates(cfg: Config, acct: Account, dest: Str, n: nat): (ss: seq<State>)
    requires cfg.Valid()
    ensures |ss| == n + 1 && forall i | 0 <= i <= n :: ss[i] == Walked(cfg, acct, dest, i)
  {
    seq(n + 1, i requires 0 <= i <= n => Walked(cfg, acct, dest, i))
  }

  function Repeated(e: Event, n: nat): (es: seq<Event>)
    ensures |es| == n && forall i | 0 <= i < n :: es[i] == e
  {
    if n == 0 then [] else Repeated(e, n - 1) + [e]
  }

  /** A run of n + 1 picks, the last of which is draw n of the cycle. */
  lemma WalkRun(cfg: Config, acct: Account, dest: Str, n: nat) returns (run: Run)
    requires cfg.Valid() && acct.size == 0
    requires cfg.brCap <= 0 || 9 * n < Pow2(128 - cfg.pool.bits)
    ensures IsRun(cfg, run) && |run.events| == n + 1 && Enabled(cfg, run.states[n], run.events[n])
    ensures forall i | 0 <= i <= n :: run.events[i] == Fresh(acct, dest, Choice([], 0, ANY))
    ensures ReplyOf(cfg, run.states[n], run.events[n]) == Reply(NthDraw(OriginOf(cfg, acct, dest), n))
  {
    hide OriginOf, After, Enabled, Walked, NthDraw, WalkStates, Repeated;
    var e := Fresh(acct, dest, Choice([], 0, ANY));
    run := Run(WalkStates(cfg, acct, dest, n + 1), Repeated(e, n + 1));
    forall i | 0 <= i < |run.events|
      ensures StepAt(cfg, run, i)
    {
      WalkStep(cfg, acct, dest, i);
    }
    StartsEmpty(cfg, acct, dest);
    WalkStep(cfg, acct, dest, n);
  }

  /** The cycle swept when it has been idle for long enough. */
  lemma SweepStep(cfg: Config, acct: Account, dest: Str, n: nat) returns (s': State)
    requires cfg.Valid() && n > 0
    ensures var s, t, key := Walked(cfg, acct, dest, n), HOST_IDLE_TTL + 1, StreamKey(acct.username, dest);
            && Enabled(cfg, s, SweepStreams(t, t, {key})) && s' == After(cfg, s, SweepStreams(t, t, {key}))
            && s'.now == t && s'.rot.table == map[] && s'.rot.recent == s.rot.recent
  {
    hide OriginOf, StreamKey, FirstDraws, Last;
    var s, t, key := Walked(cfg, acct, dest, n), HOST_IDLE_TTL + 1, StreamKey(acct.username, dest);
    s' := After(cfg, s, SweepStreams(t, t, {key}));
    assert s.rot.table - {key} == map[];
  }

  /** The first address has left the ring once the ring has filled up behind it. */
  lemma FirstPushedOut(o: CycleState, cap: nat)
    requires o.Valid() && (cap == 0 || 9 * cap < Pow2(o.cycle.Width()))
    ensures NthDraw(o, 0) !in Last(FirstDraws(o, cap + 1), cap)
  {
    hide NthDraw, FirstDraws, Last, Pow2;
    var recent := Last(FirstDraws(o, cap + 1), cap);
    if NthDraw(o, 0) in recent {
      var i :| 0 <= i < |recent| && recent[i] == NthDraw(o, 0);
      LastAt(FirstDraws(o, cap + 1), cap, i);
      DrawsDiffer(o, 0, cap + 1 - |recent| + i);
    }
  }

  /** As many picks as the ring holds and one more, a sweep, and a last pick. */
  lemma RestartRun(cfg: Config, acct: Account, dest: Str) returns (run: Run)
    requires cfg.Valid() && acct.size == 0
    requires cfg.brCap <= 0 || 9 * cfg.brCap < Pow2(128 - cfg.pool.bits)
    ensures IsRun(cfg, run) && |run.events| == RingCap(cfg) + 3
    ensures DrawsAs(run.states[0], run.events[0], acct, dest)
            && DrawsAs(run.states[RingCap(cfg) + 2], run.events[RingCap(cfg) + 2], acct, dest)
    ensures run.states[0] == Walked(cfg, acct, dest, 0)
    ensures run.states[RingCap(cfg) + 2].rot.table == map[]
            && run.states[RingCap(cfg) + 2].rot.recent == Walked(cfg, acct, dest, RingCap(cfg) + 1).rot.recent
  {
    hide OriginOf, StreamKey, After, Enabled, FirstDraws, Last, Walked, WalkStates, Repeated, NthDraw;
    var key, t, cap := StreamKey(acct.username, dest), HOST_IDLE_TTL + 1, RingCap(cfg);
    var first, again := Fresh(acct, dest, Choice([], 0, ANY)), Fresh(acct, dest, Choice([], t, ANY));
    var swept := SweepStep(cfg, acct, dest, cap + 1);
    FreshEnabled(cfg, swept, again);
    run := Run(WalkStates(cfg, acct, dest, cap + 1) + [swept, After(cfg, swept, again)],
               Repeated(first, cap + 1) + [SweepStreams(t, t, {key}), again]);
    forall i | 0 <= i < |run.events|
      ensures StepAt(cfg, run, i)
    {
      if i < cap + 1 {
        WalkStep(cfg, acct, dest, i);
      }
    }
    StartsEmpty(cfg, acct, dest);
  }

  /** For every ring smaller than a ninth of the pool there is a run whose first and last
      picks, both of one account for one destination, are the same address. */
  lemma RestartedCycleRepeats(cfg: Config, acct: Account, dest: Str) returns (run: Run, last: nat)
    requires cfg.Valid() && acct.size == 0
    requires cfg.brCap <= 0 || 9 * cfg.brCap < Pow2(128 - cfg.pool.bits)
    ensures IsRun(cfg, run) && 0 < last && last + 1 == |run.events|
    ensures var key := StreamKey(acct.username, dest);
            && DrawsAt(cfg, run, key, 0) && DrawsAt(cfg, run, key, last)
            && PickAt(cfg, run, key, 0) == PickAt(cfg, run, key, last)
  {
    hide OriginOf, StreamKey, Draw, Enabled, FirstDraws, Last, IsRun, DrawsAs, DrawsAt, PickAt;
    run := RestartRun(cfg, acct, dest);
    last := RingCap(cfg) + 2;
    StartsEmpty(cfg, acct, dest);
    FirstPushedOut(OriginOf(cfg, acct, dest), RingCap(cfg));
    RestartRepeats(cfg, run, acct, dest, 0, last);
  }

  lemma StartsEmpty(cfg: Config, acct: Account, dest: Str)
    requires cfg.Valid()
    ensures Initial(Walked(cfg, acct, dest, 0)) && Walked(cfg, acct, dest, 0).rot.recent == []
  {
  }

  lemma FreshEnabled(cfg: Config, s: State, e: Event)
    requires cfg.Valid() && e.Fresh? && s.now <= e.ch.now && |e.ch.ns| == 4 && s.rot.table == map[]
    ensures Enabled(cfg, s, e)
  {
  }
}
