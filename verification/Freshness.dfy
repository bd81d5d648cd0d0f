/** Rotation over every run: which address each pick of a cycle is, and exactly when two
    picks share an address or a group, within one life of an entry and across restarts. */
module Freshness {
  import opened Words
  import opened Addresses
  import opened Cycles
  import opened Streams
  import opened Rotation
  import opened Picks
  import opened ProxyRuns

  // ----- steps that draw -----

  /** The step draws from the cycle of `acct` and `dest`. */
  predicate DrawsAs(s: State, e: Event, acct: Account, dest: Str) {
    acct.size == 0
    && match e
       case PickFor(id, _) => id in s.calls && s.calls[id].acct == acct && s.calls[id].dest == dest
       case Fresh(a, d, _) => a == acct && d == dest
       case _ => false
  }

  /** The step draws from the cycle tracked, or to be tracked, under `key`. */
  predicate DrawsFor(s: State, e: Event, key: Str) {
    match e
    case PickFor(id, _) =>
      id in s.calls && s.calls[id].acct.size == 0 && StreamKey(s.calls[id].acct.username, s.calls[id].dest) == key
    case Fresh(acct, dest, _) => acct.size == 0 && StreamKey(acct.username, dest) == key
    case _ => false
  }

  /** A step that picks a source address. */
  predicate PicksSource(e: Event) { e.PickFor? || e.Fresh? }

  /** The address a step picks. */
  function PickedIp(cfg: Config, s: State, e: Event): Addr
    requires cfg.Valid() && Enabled(cfg, s, e) && PicksSource(e)
  {
    if e.PickFor? then FreshPick(cfg, s.rot, s.calls[e.id].acct, s.calls[e.id].dest, e.ch).ip
    else FreshPick(cfg, s.rot, e.acct, e.dest, e.ch).ip
  }

  /** The deterministic origin of the cycle a step draws for. */
  function OriginFor(cfg: Config, s: State, e: Event, key: Str): (o: Running)
    requires cfg.Valid() && DrawsFor(s, e, key)
    ensures o.cycle.bits == cfg.pool.bits
  {
    match e
    case PickFor(id, _) => OriginOf(cfg, s.calls[id].acct, s.calls[id].dest)
    case Fresh(acct, dest, _) => OriginOf(cfg, acct, dest)
  }

  /** What a step draws from: the tracked cycle on a hit, the origin on a miss. */
  function SourceOf(cfg: Config, s: State, e: Event, key: Str): Running
    requires cfg.Valid() && DrawsFor(s, e, key)
  {
    if key in s.rot.table then s.rot.table[key].st else OriginFor(cfg, s, e, key)
  }

  function DrawnBy(cfg: Config, s: State, e: Event, key: Str): Drawn
    requires cfg.Valid() && DrawsFor(s, e, key)
  {
    DrawFresh(SourceOf(cfg, s, e, key), s.rot.recent, BACKSTOP_RETRIES)
  }

  /** Positions of the key's cycle that a step consumes. */
  function UsedBy(cfg: Config, s: State, e: Event, key: Str): nat
    requires cfg.Valid()
  {
    if DrawsFor(s, e, key) then DrawnBy(cfg, s, e, key).used else 0
  }

  // ----- what a step does to one cycle -----

  /** A pick loses no entry but an oldest one of a full table. */
  lemma PickLoses(cfg: Config, r: Rotor, acct: Account, dest: Str, ch: Choice, key: Str)
    requires cfg.Valid() && Allowed(cfg, r, acct, dest, ch) && key in r.table
    ensures key !in FreshPick(cfg, r, acct, dest, ch).rotor.table ==>
              |r.table| >= cfg.streamMax && Oldest(r.table, key)
  {
    hide StreamKey, OriginOf, DrawFresh, Recorded, SlicedCandidates, FirstFresh;
  }

  /** A tracked cycle is lost only to a sweep that found it idle, or to a pick that met a
      full table, and then no other entry was used earlier. */
  lemma EntryLostOnlyIf(cfg: Config, s: State, e: Event, key: Str)
    requires cfg.Valid() && Enabled(cfg, s, e)
    requires key in s.rot.table
    ensures key !in After(cfg, s, e).rot.table ==>
              (e.SweepStreams? && e.t2 - s.rot.table[key].lastSeen > HOST_IDLE_TTL)
              || (PicksSource(e) && |s.rot.table| >= cfg.streamMax && Oldest(s.rot.table, key))
  {
    hide FreshPick, Allowed, Oldest;
    match e
    case PickFor(id, ch) => PickLoses(cfg, s.rot, s.calls[id].acct, s.calls[id].dest, ch, key);
    case Fresh(acct, dest, ch) => PickLoses(cfg, s.rot, acct, dest, ch, key);
    case _ =>
  }

  /** A draw returns the draw's address and leaves the cycle where the draw ended. */
  lemma DrawStep(cfg: Config, s: State, e: Event, key: Str)
    requires cfg.Valid() && Enabled(cfg, s, e) && DrawsFor(s, e, key)
    ensures PickedIp(cfg, s, e) == DrawnBy(cfg, s, e, key).ip
    ensures key in After(cfg, s, e).rot.table
    ensures After(cfg, s, e).rot.table[key].st == DrawnBy(cfg, s, e, key).next
  {
    hide CyclePick, DrawFresh, OriginOf;
    match e
    case PickFor(id, ch) =>
      CyclePickSource(cfg, s.rot, s.calls[id].acct, s.calls[id].dest, ch.victim, ch.now);
    case Fresh(acct, dest, ch) =>
      CyclePickSource(cfg, s.rot, acct, dest, ch.victim, ch.now);
  }

  /** Any other step leaves the cycle where it is, and starts none. */
  lemma OtherStep(cfg: Config, s: State, e: Event, key: Str)
    requires cfg.Valid() && Enabled(cfg, s, e) && !DrawsFor(s, e, key)
    requires key in After(cfg, s, e).rot.table
    ensures key in s.rot.table && After(cfg, s, e).rot.table[key].st == s.rot.table[key].st
  {
    hide StreamKey, OriginOf, DrawFresh, Recorded;
  }

  /** st' is st after consuming n positions. */
  predicate MovesBy(st: Running, st': Running, n: nat) {
    st' == CycleState(st.cycle, PosAfter(st.cycle, st.pos, n))
  }

  lemma MovesSum(a: Running, b: Running, c: Running, m: nat, n: nat)
    requires MovesBy(a, b, m) && MovesBy(b, c, n)
    ensures MovesBy(a, c, m + n)
  {
    PosAfterSum(a.cycle, a.pos, m, n);
  }

  lemma StaysPut(st: Running)
    ensures MovesBy(st, st, 0)
  {
    PosAfterZero(st.cycle, st.pos);
  }

  /** What a draw consumes moves its source to the new entry; the address is that of the
      last position consumed. */
  lemma DrawMoves(cfg: Config, s: State, e: Event, key: Str)
    requires cfg.Valid() && Enabled(cfg, s, e) && DrawsFor(s, e, key)
    ensures var st, used := SourceOf(cfg, s, e, key), UsedBy(cfg, s, e, key);
            && used >= 1 && key in After(cfg, s, e).rot.table
            && MovesBy(st, After(cfg, s, e).rot.table[key].st, used)
            && PickedIp(cfg, s, e) == AddrAt(st.cycle, PosAfter(st.cycle, st.pos, used - 1))
  {
    hide After, PickedIp, DrawFresh, AddrAt, PosAfter, SourceOf;
    DrawStep(cfg, s, e, key);
    DrawFreshMeaning(SourceOf(cfg, s, e, key), s.rot.recent, BACKSTOP_RETRIES);
  }

  // ----- one life of an entry -----

  /** Positions of the key's cycle consumed by steps i .. j-1. */
  function Consumed(cfg: Config, run: Run, key: Str, i: nat, j: nat): nat
    requires cfg.Valid() && i <= j <= |run.events| && j < |run.states|
    decreases j
  {
    if i == j then 0
    else Consumed(cfg, run, key, i, j - 1) + UsedBy(cfg, run.states[j - 1], run.events[j - 1], key)
  }

  lemma {:induction false} ConsumedSum(cfg: Config, run: Run, key: Str, i: nat, j: nat, k: nat)
    requires cfg.Valid() && i <= j <= k <= |run.events| && k < |run.states|
    ensures Consumed(cfg, run, key, i, k) == Consumed(cfg, run, key, i, j) + Consumed(cfg, run, key, j, k)
    decreases k
  {
    if j < k {
      ConsumedSum(cfg, run, key, i, j, k - 1);
    }
  }

  /** The step that started the life the key's entry is in at state n: the last one that
      found no entry. */
  function Birth(run: Run, key: Str, n: nat): (m: nat)
    requires n < |run.states|
    ensures m <= n
  {
    if n == 0 || key !in run.states[n].rot.table then n else Birth(run, key, n - 1)
  }

  /** One step of an entry's life, from the source of its first draw on. */
  lemma LifeStep(cfg: Config, run: Run, key: Str, n: nat)
    requires cfg.Valid() && IsRun(cfg, run) && n < |run.events| && key in run.states[n + 1].rot.table
    ensures key in run.states[n].rot.table || DrawsFor(run.states[n], run.events[n], key)
    ensures var st := if key in run.states[n].rot.table then run.states[n].rot.table[key].st
                      else OriginFor(cfg, run.states[n], run.events[n], key);
            MovesBy(st, run.states[n + 1].rot.table[key].st, UsedBy(cfg, run.states[n], run.events[n], key))
  {
    hide After, OriginFor, PickedIp, MovesBy;
    var s, e := run.states[n], run.events[n];
    RunStep(cfg, run, n);
    if DrawsFor(s, e, key) {
      DrawMoves(cfg, s, e, key);
    } else {
      OtherStep(cfg, s, e, key);
      StaysPut(s.rot.table[key].st);
    }
  }

  /** In every state of every run a tracked cycle is its deterministic origin moved on by
      the positions consumed since the step that started it. */
  lemma {:induction false} CyclePosition(cfg: Config, run: Run, key: Str, n: nat)
    requires cfg.Valid() && IsRun(cfg, run) && n < |run.states| && key in run.states[n].rot.table
    ensures var m := Birth(run, key, n);
            && m < n && key !in run.states[m].rot.table && DrawsFor(run.states[m], run.events[m], key)
            && MovesBy(OriginFor(cfg, run.states[m], run.events[m], key), run.states[n].rot.table[key].st,
                       Consumed(cfg, run, key, m, n))
    decreases n
  {
    hide OriginFor, UsedBy, DrawsFor, MovesBy;
    LifeStep(cfg, run, key, n - 1);
    if key in run.states[n - 1].rot.table {
      CyclePosition(cfg, run, key, n - 1);
      var m := Birth(run, key, n);
      MovesSum(OriginFor(cfg, run.states[m], run.events[m], key), run.states[n - 1].rot.table[key].st,
               run.states[n].rot.table[key].st, Consumed(cfg, run, key, m, n - 1),
               UsedBy(cfg, run.states[n - 1], run.events[n - 1], key));
    } else {
      assert Consumed(cfg, run, key, n - 1, n - 1) == 0;
    }
  }

  /** Positions consumed in the entry's present life, step n included. */
  function Age(cfg: Config, run: Run, key: Str, n: nat): nat
    requires cfg.Valid() && n < |run.events| && |run.states| == |run.events| + 1
  {
    Consumed(cfg, run, key, Birth(run, key, n), n + 1)
  }

  /** The source of a drawing step, hit or miss, on the cycle of its life. */
  lemma SourcePosition(cfg: Config, run: Run, key: Str, n: nat)
    requires cfg.Valid() && IsRun(cfg, run) && n < |run.events| && DrawsFor(run.states[n], run.events[n], key)
    ensures var m := Birth(run, key, n);
            && DrawsFor(run.states[m], run.events[m], key)
            && MovesBy(OriginFor(cfg, run.states[m], run.events[m], key),
                       SourceOf(cfg, run.states[n], run.events[n], key), Consumed(cfg, run, key, m, n))
  {
    hide OriginFor, UsedBy, MovesBy;
    if key in run.states[n].rot.table {
      CyclePosition(cfg, run, key, n);
    } else {
      StaysPut(SourceOf(cfg, run.states[n], run.events[n], key));
    }
  }

  /** Every pick of every run, skips and ring retries included: the address that lies
      Age - 1 strides after the deterministic origin of its cycle. */
  lemma PickIs(cfg: Config, run: Run, key: Str, n: nat)
    requires cfg.Valid() && IsRun(cfg, run) && n < |run.events| && DrawsFor(run.states[n], run.events[n], key)
    ensures Enabled(cfg, run.states[n], run.events[n])
    ensures var m := Birth(run, key, n);
            && DrawsFor(run.states[m], run.events[m], key) && Age(cfg, run, key, n) >= 1
            && var o := OriginFor(cfg, run.states[m], run.events[m], key);
               PickedIp(cfg, run.states[n], run.events[n])
               == AddrAt(o.cycle, PosAfter(o.cycle, o.pos, Age(cfg, run, key, n) - 1))
  {
    hide OriginFor, UsedBy, SourceOf, PickedIp, AddrAt, PosAfter, DrawsFor, Enabled, After;
    RunStep(cfg, run, n);
    DrawMoves(cfg, run.states[n], run.events[n], key);
    SourcePosition(cfg, run, key, n);
    var m := Birth(run, key, n);
    var o := OriginFor(cfg, run.states[m], run.events[m], key);
    PosAfterSum(o.cycle, o.pos, Consumed(cfg, run, key, m, n),
                UsedBy(cfg, run.states[n], run.events[n], key) - 1);
  }

  // ----- when two picks meet -----

  /** How far apart two counts are. */
  function Apart(a: nat, b: nat): nat { if a <= b then b - a else a - b }

  lemma PicksMeetIff(o: Running, a: nat, b: nat, k: nat)
    requires a >= 1 && b >= 1 && k <= o.cycle.Width()
    ensures Group(AddrAt(o.cycle, PosAfter(o.cycle, o.pos, a - 1)), o.cycle.bits + k)
         == Group(AddrAt(o.cycle, PosAfter(o.cycle, o.pos, b - 1)), o.cycle.bits + k)
       <==> Low(Apart(a, b), k) == 0
    ensures AddrAt(o.cycle, PosAfter(o.cycle, o.pos, a - 1)) == AddrAt(o.cycle, PosAfter(o.cycle, o.pos, b - 1))
       <==> Low(Apart(a, b), o.cycle.Width()) == 0
  {
    hide AddrAt, PosAfter, Group;
    if a <= b {
      StepsShareGroupIff(o.cycle, o.pos, k, a - 1, b - 1);
      StepsShareAddressIff(o.cycle, o.pos, a - 1, b - 1);
    } else {
      StepsShareGroupIff(o.cycle, o.pos, k, b - 1, a - 1);
      StepsShareAddressIff(o.cycle, o.pos, b - 1, a - 1);
    }
  }

  /** Two steps that draw from cycles with one origin. */
  predicate SameOrigin(cfg: Config, run: Run, key: Str, i: nat, j: nat)
    requires cfg.Valid() && IsRun(cfg, run) && i < |run.events| && j < |run.events|
  {
    var m, n := Birth(run, key, i), Birth(run, key, j);
    DrawsFor(run.states[m], run.events[m], key) && DrawsFor(run.states[n], run.events[n], key)
    && OriginFor(cfg, run.states[m], run.events[m], key) == OriginFor(cfg, run.states[n], run.events[n], key)
  }

  /** A step that draws for the key. */
  predicate DrawsAt(cfg: Config, run: Run, key: Str, n: nat)
    requires cfg.Valid()
  {
    n < |run.events| && n < |run.states| && Enabled(cfg, run.states[n], run.events[n])
    && DrawsFor(run.states[n], run.events[n], key)
  }

  function PickAt(cfg: Config, run: Run, key: Str, n: nat): Addr
    requires cfg.Valid() && DrawsAt(cfg, run, key, n)
  {
    PickedIp(cfg, run.states[n], run.events[n])
  }

  lemma MeetIff(cfg: Config, run: Run, key: Str, i: nat, j: nat, k: nat)
    requires cfg.Valid() && IsRun(cfg, run) && DrawsAt(cfg, run, key, i) && DrawsAt(cfg, run, key, j)
    requires k <= 128 - cfg.pool.bits
    ensures SameOrigin(cfg, run, key, i, j) ==>
              (Group(PickAt(cfg, run, key, i), cfg.pool.bits + k)
               == Group(PickAt(cfg, run, key, j), cfg.pool.bits + k)
               <==> Low(Apart(Age(cfg, run, key, i), Age(cfg, run, key, j)), k) == 0)
    ensures SameOrigin(cfg, run, key, i, j) ==>
              (PickAt(cfg, run, key, i) == PickAt(cfg, run, key, j)
               <==> Low(Apart(Age(cfg, run, key, i), Age(cfg, run, key, j)), 128 - cfg.pool.bits) == 0)
  {
    hide OriginFor, UsedBy, PickedIp, AddrAt, PosAfter, DrawsFor, Enabled, Consumed, Age, Group, Apart, Birth;
    if SameOrigin(cfg, run, key, i, j) {
      PickIs(cfg, run, key, i);
      PickIs(cfg, run, key, j);
      var m := Birth(run, key, i);
      var o := OriginFor(cfg, run.states[m], run.events[m], key);
      PicksMeetIff(o, Age(cfg, run, key, i), Age(cfg, run, key, j), k);
    }
  }

  // ----- within one life -----

  /** The entry is there from state i to state j. */
  predicate Survives(run: Run, key: Str, i: nat, j: nat)
    requires j < |run.states|
  {
    forall n | i <= n <= j :: key in run.states[n].rot.table
  }

  /** A surviving entry stays in the life it was in. */
  lemma {:induction false} SameLife(run: Run, key: Str, i: nat, j: nat)
    requires i <= j < |run.states| && Survives(run, key, i + 1, j)
    ensures Birth(run, key, j) == Birth(run, key, i)
    decreases j
  {
    if i < j {
      SameLife(run, key, i, j - 1);
    }
  }

  lemma LifeHasOneOrigin(cfg: Config, run: Run, key: Str, i: nat, j: nat)
    requires cfg.Valid() && IsRun(cfg, run) && i < j < |run.events|
    requires DrawsFor(run.states[i], run.events[i], key) && Survives(run, key, i + 1, j)
    ensures SameOrigin(cfg, run, key, i, j)
  {
    hide OriginFor, MovesBy, DrawsFor, Survives, Birth;
    SameLife(run, key, i, j);
    SourcePosition(cfg, run, key, i);
  }

  lemma AgeGrows(cfg: Config, run: Run, key: Str, i: nat, j: nat)
    requires cfg.Valid() && i < j < |run.events| && |run.states| == |run.events| + 1
    requires Survives(run, key, i + 1, j)
    ensures Age(cfg, run, key, j) == Age(cfg, run, key, i) + Consumed(cfg, run, key, i + 1, j + 1)
  {
    hide UsedBy;
    SameLife(run, key, i, j);
    ConsumedSum(cfg, run, key, Birth(run, key, i), i + 1, j + 1);
  }

  /** Two picks in one life of an entry, the pick that created it included, share a
      /(bits+k) group, and an address, exactly when the positions consumed from one to the
      other are a multiple of 2^k, and of 2^width. */
  lemma LifeMeetIff(cfg: Config, run: Run, key: Str, i: nat, j: nat, k: nat)
    requires cfg.Valid() && IsRun(cfg, run) && DrawsAt(cfg, run, key, i) && DrawsAt(cfg, run, key, j)
    requires i < j && Survives(run, key, i + 1, j) && k <= 128 - cfg.pool.bits
    ensures Group(PickAt(cfg, run, key, i), cfg.pool.bits + k) == Group(PickAt(cfg, run, key, j), cfg.pool.bits + k)
       <==> Low(Consumed(cfg, run, key, i + 1, j + 1), k) == 0
    ensures PickAt(cfg, run, key, i) == PickAt(cfg, run, key, j)
       <==> Low(Consumed(cfg, run, key, i + 1, j + 1), 128 - cfg.pool.bits) == 0
  {
    hide UsedBy, PickAt, Consumed, Age, Group, Enabled, DrawsFor, SameOrigin, Survives;
    LifeHasOneOrigin(cfg, run, key, i, j);
    MeetIff(cfg, run, key, i, j, k);
    AgeGrows(cfg, run, key, i, j);
  }

  /** A draw consumes at least one position. */
  lemma {:induction false} ConsumedPositive(cfg: Config, run: Run, key: Str, i: nat, j: nat)
    requires cfg.Valid() && IsRun(cfg, run) && i <= j && DrawsAt(cfg, run, key, j)
    ensures Consumed(cfg, run, key, i, j + 1) >= 1
  {
    hide After, DrawsFor;
    DrawMoves(cfg, run.states[j], run.events[j], key);
  }

  /** Two picks in one life land in different /(bits+k) groups as long as fewer than 2^k
      positions were consumed from one to the other. */
  lemma FreshGroupsDiffer(cfg: Config, run: Run, key: Str, i: nat, j: nat, k: nat)
    requires cfg.Valid() && IsRun(cfg, run) && DrawsAt(cfg, run, key, i) && DrawsAt(cfg, run, key, j)
    requires i < j && Survives(run, key, i + 1, j) && k <= 128 - cfg.pool.bits
    requires Consumed(cfg, run, key, i + 1, j + 1) < Pow2(k)
    ensures Group(PickAt(cfg, run, key, i), cfg.pool.bits + k) != Group(PickAt(cfg, run, key, j), cfg.pool.bits + k)
  {
    hide UsedBy, PickAt, Group, Enabled, DrawsFor, Consumed;
    LifeMeetIff(cfg, run, key, i, j, k);
    ConsumedPositive(cfg, run, key, i + 1, j);
    LowOfSmall(Consumed(cfg, run, key, i + 1, j + 1), k);
  }

  /** In particular no address repeats before the whole pool has been walked. */
  lemma FreshAddressesDiffer(cfg: Config, run: Run, key: Str, i: nat, j: nat)
    requires cfg.Valid() && IsRun(cfg, run) && DrawsAt(cfg, run, key, i) && DrawsAt(cfg, run, key, j)
    requires i < j && Survives(run, key, i + 1, j)
    requires Consumed(cfg, run, key, i + 1, j + 1) < Pow2(128 - cfg.pool.bits)
    ensures PickAt(cfg, run, key, i) != PickAt(cfg, run, key, j)
  {
    FreshGroupsDiffer(cfg, run, key, i, j, 128 - cfg.pool.bits);
  }

  // ----- across lives -----

  /** A username names one account and holds no NUL byte, as in a configuration. */
  ghost predicate Named(run: Run, accounts: map<Str, Account>) {
    forall n, acct, dest | 0 <= n < |run.events| && n < |run.states|
                           && DrawsAs(run.states[n], run.events[n], acct, dest) ::
      0 !in acct.username && acct.username in accounts && accounts[acct.username] == acct
  }

  /** With such accounts the key tells the account and the destination. */
  lemma DrawsForIsDrawsAs(run: Run, accounts: map<Str, Account>, acct: Account, dest: Str, n: nat)
    requires Named(run, accounts) && n < |run.events| && n < |run.states|
    requires 0 !in acct.username && acct.username in accounts && accounts[acct.username] == acct
    requires DrawsFor(run.states[n], run.events[n], StreamKey(acct.username, dest))
    ensures DrawsAs(run.states[n], run.events[n], acct, dest)
  {
    hide StreamKey;
    var s, e := run.states[n], run.events[n];
    var a, d := if e.PickFor? then s.calls[e.id].acct else e.acct, if e.PickFor? then s.calls[e.id].dest else e.dest;
    assert DrawsAs(s, e, a, d);
    StreamKeyInjective(acct.username, dest, a.username, d);
  }

  lemma OriginAtBirth(cfg: Config, run: Run, accounts: map<Str, Account>, acct: Account, dest: Str, n: nat)
    requires cfg.Valid() && IsRun(cfg, run) && Named(run, accounts)
    requires n < |run.events| && DrawsAs(run.states[n], run.events[n], acct, dest)
    ensures var key := StreamKey(acct.username, dest);
            var m := Birth(run, key, n);
            && DrawsAt(cfg, run, key, n) && DrawsFor(run.states[m], run.events[m], key)
            && OriginFor(cfg, run.states[m], run.events[m], key) == OriginOf(cfg, acct, dest)
  {
    hide OriginOf, StreamKey, MovesBy, UsedBy, Consumed, SourceOf, After;
    var key := StreamKey(acct.username, dest);
    assert DrawsFor(run.states[n], run.events[n], key);
    RunStep(cfg, run, n);
    SourcePosition(cfg, run, key, n);
    DrawsForIsDrawsAs(run, accounts, acct, dest, Birth(run, key, n));
  }

  /** Over every run, evictions and sweeps included: two picks of one account for one
      destination are the same address exactly when the positions consumed so far in
      their lives differ by a multiple of 2^width. */
  lemma RepeatIff(cfg: Config, run: Run, accounts: map<Str, Account>, acct: Account, dest: Str, i: nat, j: nat)
    requires cfg.Valid() && IsRun(cfg, run) && Named(run, accounts)
    requires i < |run.events| && DrawsAs(run.states[i], run.events[i], acct, dest)
    requires j < |run.events| && DrawsAs(run.states[j], run.events[j], acct, dest)
    ensures var key := StreamKey(acct.username, dest);
            && DrawsAt(cfg, run, key, i) && DrawsAt(cfg, run, key, j)
            && (PickAt(cfg, run, key, i) == PickAt(cfg, run, key, j)
                <==> Low(Apart(Age(cfg, run, key, i), Age(cfg, run, key, j)), 128 - cfg.pool.bits) == 0)
  {
    hide OriginOf, StreamKey, DrawsAs, DrawsAt, Birth, PickAt, Age, Named;
    OriginAtBirth(cfg, run, accounts, acct, dest, i);
    OriginAtBirth(cfg, run, accounts, acct, dest, j);
    MeetIff(cfg, run, StreamKey(acct.username, dest), i, j, 0);
  }

  /** The cycle is not tracked, and the ring has not seen its first address. */
  predicate StartsUnseen(cfg: Config, s: State, acct: Account, dest: Str)
    requires cfg.Valid()
  {
    StreamKey(acct.username, dest) !in s.rot.table && Draw(OriginOf(cfg, acct, dest)).ip !in s.rot.recent
  }

  lemma FirstPick(cfg: Config, run: Run, acct: Account, dest: Str, n: nat)
    requires cfg.Valid() && IsRun(cfg, run)
    requires n < |run.events| && DrawsAs(run.states[n], run.events[n], acct, dest)
    ensures DrawsAt(cfg, run, StreamKey(acct.username, dest), n)
    ensures StartsUnseen(cfg, run.states[n], acct, dest) ==>
              PickAt(cfg, run, StreamKey(acct.username, dest), n) == Draw(OriginOf(cfg, acct, dest)).ip
  {
    hide OriginOf, StreamKey, Draw, After, Enabled;
    RunStep(cfg, run, n);
    DrawStep(cfg, run.states[n], run.events[n], StreamKey(acct.username, dest));
  }

  /** A restart: two picks that each start the cycle hand out the same address, its first,
      whenever that is in neither ring. */
  lemma RestartRepeats(cfg: Config, run: Run, acct: Account, dest: Str, i: nat, j: nat)
    requires cfg.Valid() && IsRun(cfg, run)
    requires i < |run.events| && DrawsAs(run.states[i], run.events[i], acct, dest)
    requires j < |run.events| && DrawsAs(run.states[j], run.events[j], acct, dest)
    ensures var key := StreamKey(acct.username, dest);
            && DrawsAt(cfg, run, key, i) && DrawsAt(cfg, run, key, j)
            && (StartsUnseen(cfg, run.states[i], acct, dest) && StartsUnseen(cfg, run.states[j], acct, dest) ==>
                  PickAt(cfg, run, key, i) == PickAt(cfg, run, key, j) == Draw(OriginOf(cfg, acct, dest)).ip)
  {
    hide OriginOf, StreamKey, Draw, Enabled, StartsUnseen, PickAt, DrawsAs, DrawsFor;
    FirstPick(cfg, run, acct, dest, i);
    FirstPick(cfg, run, acct, dest, j);
  }
}
