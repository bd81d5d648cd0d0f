/** One source-address pick, and what every pick and sweep keeps. */
module Picks {
  import opened Words
  import opened Addresses
  import opened Mixer
  import opened Cycles
  import opened Streams
  import opened Slices
  import opened Rotation

  /** hostIdleTTL, in nanoseconds. */
  const HOST_IDLE_TTL: int := 3_600_000_000_000
  const DEFAULT_HOSTS_MAX: nat := 1024
  const BACKSTOP_RETRIES: nat := 3

  datatype Config = Config(pool: Pool, streamMax: nat, brCap: int, stickyTTL: int) {
    predicate Valid() { pool.Valid() && streamMax > 0 && stickyTTL >= 0 }
  }

  /** The cycle cap a proxy runs with: the configured one, or the default. */
  function StreamMax(avoidHostsMax: int): (m: nat)
    ensures m > 0
    ensures avoidHostsMax > 0 ==> m == avoidHostsMax
    ensures avoidHostsMax <= 0 ==> m == 1024
  {
    if avoidHostsMax <= 0 then DEFAULT_HOSTS_MAX else avoidHostsMax
  }

  datatype Account = Account(username: Str, password: Str, domain: Word, start: Word, size: Word)

  /** Rotation state: the cycle table, its gauge, the recent addresses and, for
      reasoning, every address ever recorded. */
  datatype Rotor = Rotor(table: Table, hostsCur: int, recent: seq<Addr>, recorded: seq<Addr>)

  const EMPTY_ROTOR: Rotor := Rotor(map[], 0, [], [])

  function Record(cfg: Config, r: Rotor, ip: Addr): Rotor {
    r.(recent := Recorded(r.recent, cfg.brCap, ip),
       recorded := if cfg.brCap > 0 && ip !in r.recent then r.recorded + [ip] else r.recorded)
  }

  /** The first candidate not seen recently, or else the last one. */
  function FirstFresh(ips: seq<Addr>, recent: seq<Addr>): (ip: Addr)
    requires |ips| > 0
    ensures ip in ips
  {
    if |ips| == 1 || ips[0] !in recent then ips[0] else FirstFresh(ips[1..], recent)
  }

  function OriginOf(cfg: Config, acct: Account, dest: Str): (s: CycleState)
    requires cfg.Valid()
    ensures s.Valid() && s.cycle.prefix == cfg.pool.prefix && s.cycle.bits == cfg.pool.bits
  {
    Origin(cfg.pool, acct.domain, TweakHost(dest))
  }

  /** The outcome of a pick. */
  datatype Pick = Pick(ip: Addr, rotor: Rotor)

  /** A full-pool pick: look the cycle up, draw from it, record the address. */
  function CyclePick(cfg: Config, r: Rotor, acct: Account, dest: Str, victim: Str, now: int): Pick
    requires cfg.Valid()
  {
    var key := StreamKey(acct.username, dest);
    var t := Touched(r.table, cfg.streamMax, key, OriginOf(cfg, acct, dest), victim, now);
    var d := DrawFresh(t[key].st, r.recent, BACKSTOP_RETRIES);
    var t' := t[key := Entry(d.next, now)];
    var hosts := if key in r.table then r.hostsCur else |t'|;
    Pick(d.ip, Record(cfg, r.(table := t', hostsCur := hosts), d.ip))
  }

  /** A sliced pick. The sequence numbers come from a counter shared by all callers, so
      they are arbitrary here. */
  function SlicedPick(cfg: Config, r: Rotor, acct: Account, dest: Str, ns: seq<Word>): Pick
    requires cfg.Valid() && |ns| == 4
  {
    var ip := FirstFresh(SlicedCandidates(cfg, acct, dest, ns), r.recent);
    Pick(ip, Record(cfg, r, ip))
  }

  /** The address of one sequence number in an account's slice. */
  function SlicedFor(cfg: Config, acct: Account, dest: Str, n: Word): Addr
    requires cfg.Valid()
  {
    SlicedAddr(cfg.pool, n, Xor64(acct.domain, TweakHost(dest)), acct.start, acct.size)
  }

  function SlicedCandidates(cfg: Config, acct: Account, dest: Str, ns: seq<Word>): (ips: seq<Addr>)
    requires cfg.Valid()
    ensures |ips| == |ns| && forall i | 0 <= i < |ns| :: ips[i] == SlicedFor(cfg, acct, dest, ns[i])
  {
    seq(|ns|, i requires 0 <= i < |ns| => SlicedFor(cfg, acct, dest, ns[i]))
  }

  /** What is chosen freely in a pick: the eviction victim among equally old entries, the
      clock reading, and the sequence numbers of a sliced draw. */
  datatype Choice = Choice(victim: Str, now: int, ns: seq<Word>)

  /** Choices the program can make. */
  predicate Allowed(cfg: Config, r: Rotor, acct: Account, dest: Str, ch: Choice) {
    |ch.ns| == 4
    && (acct.size == 0 && StreamKey(acct.username, dest) !in r.table && |r.table| >= cfg.streamMax
        ==> Oldest(r.table, ch.victim))
  }

  function FreshPick(cfg: Config, r: Rotor, acct: Account, dest: Str, ch: Choice): Pick
    requires cfg.Valid() && Allowed(cfg, r, acct, dest, ch)
  {
    if acct.size > 0 then SlicedPick(cfg, r, acct, dest, ch.ns)
    else CyclePick(cfg, r, acct, dest, ch.victim, ch.now)
  }

  /** SweepStreams: drops `gone`. The clock is read once per entry, somewhere in t1..t2. */
  predicate Idle(t: Table, gone: set<Str>, t1: int, t2: int) {
    gone <= t.Keys
    && (forall k | k in t && t1 - t[k].lastSeen > HOST_IDLE_TTL :: k in gone)
    && (forall k | k in gone :: t2 - t[k].lastSeen > HOST_IDLE_TTL)
  }

  function Swept(r: Rotor, gone: set<Str>): Rotor {
    r.(table := r.table - gone, hostsCur := |r.table - gone|)
  }

  // ----- the invariant -----

  /** Every cycle walks the pool's own prefix. */
  predicate TableValid(cfg: Config, t: Table) {
    forall k | k in t :: t[k].st.cycle.prefix == cfg.pool.prefix && t[k].st.cycle.bits == cfg.pool.bits
  }

  predicate Inside(cfg: Config, ip: Addr)
    requires cfg.Valid()
  {
    InPrefix(ip, cfg.pool.prefix, cfg.pool.bits)
  }

  predicate RotorInv(cfg: Config, r: Rotor)
    requires cfg.Valid()
  {
    && TableValid(cfg, r.table)
    && |r.table| <= cfg.streamMax
    && r.hostsCur == |r.table|
    && NoDuplicates(r.recent)
    && r.recent == Last(r.recorded, if cfg.brCap > 0 then cfg.brCap else 0)
    && (forall a | a in r.recent :: Inside(cfg, a))
  }

  lemma InitialRotor(cfg: Config)
    requires cfg.Valid()
    ensures RotorInv(cfg, EMPTY_ROTOR)
  {
  }

  lemma RecordedKeeps(recent: seq<Addr>, recorded: seq<Addr>, cap: int, ip: Addr)
    requires NoDuplicates(recent) && recent == Last(recorded, if cap > 0 then cap else 0)
    ensures var recent', recorded' := Recorded(recent, cap, ip),
                                      if cap > 0 && ip !in recent then recorded + [ip] else recorded;
            && NoDuplicates(recent') && recent' == Last(recorded', if cap > 0 then cap else 0)
            && (forall a | a in recent' :: a == ip || a in recent)
            && (cap > 0 ==> ip in recent')
  {
    var recent' := Recorded(recent, cap, ip);
    if cap > 0 && ip !in recent {
      assert recent'[|recent'| - 1] == ip;
      if |recent| < cap {
        assert recent == recorded;
      } else {
        assert recent' == (recorded + [ip])[|recorded| + 1 - cap..];
      }
    }
  }

  /** Recording keeps the ring duplicate-free and equal to the last recorded addresses. */
  lemma RecordKeeps(cfg: Config, r: Rotor, ip: Addr)
    requires cfg.Valid() && RotorInv(cfg, r) && Inside(cfg, ip)
    ensures RotorInv(cfg, Record(cfg, r, ip))
    ensures cfg.brCap > 0 ==> ip in Record(cfg, r, ip).recent
  {
    hide Inside, TableValid, NoDuplicates, Last, Recorded;
    RecordedKeeps(r.recent, r.recorded, cfg.brCap, ip);
  }

  lemma DrawnInside(cfg: Config, s: CycleState, recent: seq<Addr>, retries: nat)
    requires cfg.Valid() && s.Valid() && s.cycle.prefix == cfg.pool.prefix && s.cycle.bits == cfg.pool.bits
    ensures Inside(cfg, DrawFresh(s, recent, retries).ip)
  {
    hide DrawFresh, AddrAt, PosAfter, Group;
    var d := DrawFresh(s, recent, retries);
    DrawFreshMeaning(s, recent, retries);
    AddrAtParts(s.cycle, PosAfter(s.cycle, s.pos, d.used - 1));
  }

  lemma TouchedValid(cfg: Config, t: Table, acct: Account, dest: Str, victim: Str, now: int)
    requires cfg.Valid() && TableValid(cfg, t)
    ensures TableValid(cfg, Touched(t, cfg.streamMax, StreamKey(acct.username, dest),
                                    OriginOf(cfg, acct, dest), victim, now))
  {
    hide OriginOf, StreamKey;
  }

  lemma CyclePickKeeps(cfg: Config, r: Rotor, acct: Account, dest: Str, victim: Str, now: int)
    requires cfg.Valid() && RotorInv(cfg, r)
    requires StreamKey(acct.username, dest) !in r.table && |r.table| >= cfg.streamMax ==> Oldest(r.table, victim)
    ensures var p := CyclePick(cfg, r, acct, dest, victim, now);
            RotorInv(cfg, p.rotor) && Inside(cfg, p.ip)
  {
    hide StreamKey, OriginOf, Touched, DrawFresh, Recorded, Inside;
    var key := StreamKey(acct.username, dest);
    var t := Touched(r.table, cfg.streamMax, key, OriginOf(cfg, acct, dest), victim, now);
    TouchedValid(cfg, r.table, acct, dest, victim, now);
    TouchedSize(r.table, cfg.streamMax, key, OriginOf(cfg, acct, dest), victim, now);
    var d := DrawFresh(t[key].st, r.recent, BACKSTOP_RETRIES);
    DrawnInside(cfg, t[key].st, r.recent, BACKSTOP_RETRIES);
    var t' := t[key := Entry(d.next, now)];
    assert t'.Keys == t.Keys;
    RecordKeeps(cfg, r.(table := t', hostsCur := |t'|), d.ip);
  }

  /** The parts of a cycle pick. */
  lemma CyclePickParts(cfg: Config, r: Rotor, acct: Account, dest: Str, victim: Str, now: int)
    requires cfg.Valid()
    ensures var key := StreamKey(acct.username, dest);
            var t := Touched(r.table, cfg.streamMax, key, OriginOf(cfg, acct, dest), victim, now);
            var d := DrawFresh(t[key].st, r.recent, BACKSTOP_RETRIES);
            var p := CyclePick(cfg, r, acct, dest, victim, now);
            && p.ip == d.ip
            && p.rotor.table == t[key := Entry(d.next, now)]
            && p.rotor.hostsCur == (if key in r.table then r.hostsCur else |p.rotor.table|)
            && p.rotor.recent == Recorded(r.recent, cfg.brCap, d.ip)
            && p.rotor.recorded == (if cfg.brCap > 0 && d.ip !in r.recent then r.recorded + [d.ip] else r.recorded)
  {
    hide StreamKey, OriginOf, Touched, DrawFresh, Recorded;
  }

  /** A hit continues the entry's own cycle; a miss draws from the cycle's origin. */
  lemma CyclePickSource(cfg: Config, r: Rotor, acct: Account, dest: Str, victim: Str, now: int)
    requires cfg.Valid()
    ensures var key := StreamKey(acct.username, dest);
            var from := if key in r.table then r.table[key].st else OriginOf(cfg, acct, dest);
            var p := CyclePick(cfg, r, acct, dest, victim, now);
            && p.ip == DrawFresh(from, r.recent, BACKSTOP_RETRIES).ip
            && key in p.rotor.table
            && p.rotor.table[key] == Entry(DrawFresh(from, r.recent, BACKSTOP_RETRIES).next, now)
  {
    hide StreamKey, OriginOf, DrawFresh, Recorded;
  }

  /** A full-pool pick returns a recent address exactly when four draws in a row were recent. */
  lemma CyclePickStaleIff(cfg: Config, r: Rotor, acct: Account, dest: Str, victim: Str, now: int)
    requires cfg.Valid()
    ensures var key := StreamKey(acct.username, dest);
            var from := if key in r.table then r.table[key].st else OriginOf(cfg, acct, dest);
            CyclePick(cfg, r, acct, dest, victim, now).ip in r.recent
            <==> && Candidate(from, 0) in r.recent && Candidate(from, 1) in r.recent
                 && Candidate(from, 2) in r.recent && Candidate(from, 3) in r.recent
  {
    hide StreamKey, OriginOf, DrawFresh, Recorded, Candidate, CyclePick;
    var key := StreamKey(acct.username, dest);
    var from := if key in r.table then r.table[key].st else OriginOf(cfg, acct, dest);
    CyclePickSource(cfg, r, acct, dest, victim, now);
    StaleOnlyIfAllStale(from, r.recent, BACKSTOP_RETRIES);
  }

  lemma SlicedPickKeeps(cfg: Config, r: Rotor, acct: Account, dest: Str, ns: seq<Word>)
    requires cfg.Valid() && RotorInv(cfg, r) && |ns| == 4
    ensures var p := SlicedPick(cfg, r, acct, dest, ns);
            RotorInv(cfg, p.rotor) && Inside(cfg, p.ip)
  {
    var ips := SlicedCandidates(cfg, acct, dest, ns);
    var ip := FirstFresh(ips, r.recent);
    var i :| 0 <= i < |ips| && ips[i] == ip;
    SlicedAddrParts(cfg.pool, ns[i], Xor64(acct.domain, TweakHost(dest)), acct.start, acct.size);
    RecordKeeps(cfg, r, ip);
  }

  /** Every pick keeps the invariant and returns an address inside the prefix. */
  lemma FreshPickKeeps(cfg: Config, r: Rotor, acct: Account, dest: Str, ch: Choice)
    requires cfg.Valid() && RotorInv(cfg, r) && Allowed(cfg, r, acct, dest, ch)
    ensures var p := FreshPick(cfg, r, acct, dest, ch);
            RotorInv(cfg, p.rotor) && Inside(cfg, p.ip)
  {
    if acct.size > 0 {
      SlicedPickKeeps(cfg, r, acct, dest, ch.ns);
    } else {
      CyclePickKeeps(cfg, r, acct, dest, ch.victim, ch.now);
    }
  }

  lemma SweepKeeps(cfg: Config, r: Rotor, gone: set<Str>)
    requires cfg.Valid() && RotorInv(cfg, r)
    ensures RotorInv(cfg, Swept(r, gone))
  {
    var t := r.table - gone;
    assert t.Keys <= r.table.Keys;
    SubsetSize(t.Keys, r.table.Keys);
  }

  lemma {:induction false} SubsetSize<T>(a: set<T>, b: set<T>)
    requires a <= b
    ensures |a| <= |b|
  {
    if a != {} {
      var x :| x in a;
      SubsetSize(a - {x}, b - {x});
    }
  }

  /** A sliced pick returns a recent address only if all four candidates were recent. */
  lemma {:induction false} FirstFreshStale(ips: seq<Addr>, recent: seq<Addr>)
    requires |ips| > 0
    ensures FirstFresh(ips, recent) in recent <==> forall i | 0 <= i < |ips| :: ips[i] in recent
  {
    if |ips| > 1 && ips[0] in recent {
      FirstFreshStale(ips[1..], recent);
      if forall i | 0 <= i < |ips| :: ips[i] in recent {
        assert forall i | 0 <= i < |ips[1..]| :: ips[1..][i] == ips[i + 1] && ips[1..][i] in recent;
      } else {
        var i :| 0 <= i < |ips| && ips[i] !in recent;
        assert ips[1..][i - 1] == ips[i];
      }
    }
  }
}
