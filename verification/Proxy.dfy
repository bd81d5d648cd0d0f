/** The proxy object: locked methods over its maps, ring and gauges, each tied to the
    step of the machine it implements. */
module Proxies {
  import opened Words
  import opened Addresses
  import opened Mixer
  import opened Cycles
  import opened Hygiene
  import opened Streams
  import opened Slices
  import opened Rotation
  import opened Picks
  import opened ProxyRuns
  import opened SessionLife

  /** streamEntry: a cycle and its last use. */
  datatype StreamEntry = StreamEntry(stream: Stream, lastSeen: int)

  type StreamMap = map<Str, StreamEntry>

  ghost function ObjectsOf(m: StreamMap): set<Stream> { set k | k in m :: m[k].stream }

  lemma OneMore(m: StreamMap, key: Str, e: StreamEntry)
    requires key !in m
    ensures |m[key := e]| == |m| + 1
  {
    assert m[key := e].Keys == m.Keys + {key};
  }

  /** The streams are well formed and no two entries share one. */
  ghost predicate Separate(m: StreamMap) {
    (forall k | k in m :: m[k].stream.Valid())
    && (forall j, k | j in m && k in m && j != k :: m[j].stream != m[k].stream)
  }

  /** The table a map of streams represents. */
  ghost function TableOf(m: StreamMap): Table
    reads ObjectsOf(m)
    requires Separate(m)
  {
    map k | k in m :: Entry(m[k].stream.State(), m[k].lastSeen)
  }

  lemma TableOfUpdate(m: StreamMap, key: Str, e: StreamEntry)
    requires Separate(m) && Separate(m[key := e]) && e.stream.Valid()
    ensures TableOf(m[key := e]) == TableOf(m)[key := Entry(e.stream.State(), e.lastSeen)]
    ensures ObjectsOf(m[key := e]) <= ObjectsOf(m) + {e.stream}
  {
  }

  lemma TableOfRemoval(m: StreamMap, gone: set<Str>)
    requires Separate(m)
    ensures Separate(m - gone) && TableOf(m - gone) == TableOf(m) - gone
    ensures ObjectsOf(m - gone) <= ObjectsOf(m)
  {
  }

  lemma TableOfSize(m: StreamMap)
    requires Separate(m)
    ensures TableOf(m).Keys == m.Keys && |TableOf(m)| == |m|
  {
    assert TableOf(m).Keys == m.Keys;
  }

  /** The table after a lookup, with an oldest entry as the victim of a full table. */
  ghost predicate LookedUp(t: Table, t': Table, max: nat, key: Str, origin: Running, victim: Str, now: int) {
    t' == Touched(t, max, key, origin, victim, now)
    && (key !in t && |t| >= max ==> Oldest(t, victim))
  }

  lemma RefreshSeparate(m: StreamMap, key: Str, now: int)
    requires Separate(m) && key in m
    ensures var m' := m[key := StreamEntry(m[key].stream, now)];
            m[key].stream.Valid() && Separate(m') && m'.Keys == m.Keys && ObjectsOf(m') == ObjectsOf(m)
  {
    var m' := m[key := StreamEntry(m[key].stream, now)];
    assert m'.Keys == m.Keys;
    assert forall k | k in m :: m'[k].stream == m[k].stream;
  }

  /** Refreshing an entry is what a hit does to the table. */
  lemma HitLookup(m: StreamMap, max: nat, key: Str, origin: Running, now: int)
    requires Separate(m) && key in m
    ensures var m' := m[key := StreamEntry(m[key].stream, now)];
            Separate(m') && m'.Keys == m.Keys && ObjectsOf(m') == ObjectsOf(m)
            && LookedUp(TableOf(m), TableOf(m'), max, key, origin, [], now)
  {
    hide Separate, TableOf, ObjectsOf, Stream.State;
    RefreshSeparate(m, key, now);
    TableOfSize(m);
    TableAt(m, key);
    TableOfUpdate(m, key, StreamEntry(m[key].stream, now));
  }

  /** Making room and adding a new stream is what a miss does to the table. */
  lemma MissLookup(m: StreamMap, kept: StreamMap, max: nat, key: Str, st: Stream, victim: Str, now: int)
    requires Separate(m) && key !in m && st.Valid() && st !in ObjectsOf(m)
    requires kept == if |m| < max then m else m - {victim}
    requires |m| >= max ==> victim in m && forall j | j in m :: m[victim].lastSeen <= m[j].lastSeen
    ensures Separate(kept[key := StreamEntry(st, now)])
    ensures LookedUp(TableOf(m), TableOf(kept[key := StreamEntry(st, now)]), max, key, st.State(), victim, now)
  {
    hide TableOf, Separate, Stream.State, Oldest;
    MissSeparate(m, kept, key, st, victim, now);
    TableOfSize(m);
    TableOfRemoval(m, {victim});
    TableOfUpdate(kept, key, StreamEntry(st, now));
    if |m| >= max {
      OldestOf(m, victim);
    }
  }

  lemma MissSeparate(m: StreamMap, kept: StreamMap, key: Str, st: Stream, victim: Str, now: int)
    requires Separate(m) && key !in m && st.Valid() && st !in ObjectsOf(m)
    requires kept == m || kept == m - {victim}
    ensures Separate(kept) && Separate(kept[key := StreamEntry(st, now)])
    ensures ObjectsOf(kept[key := StreamEntry(st, now)]) <= ObjectsOf(m) + {st}
  {
    TableOfRemoval(m, {victim});
    SeparateExtend(kept, key, st, now);
  }

  lemma SeparateExtend(m: StreamMap, key: Str, st: Stream, now: int)
    requires Separate(m) && key !in m && st.Valid() && st !in ObjectsOf(m)
    ensures Separate(m[key := StreamEntry(st, now)])
  {
    var m' := m[key := StreamEntry(st, now)];
    forall j | j in m
      ensures m[j].stream in ObjectsOf(m)
    {
    }
  }

  lemma IdleOf(m: StreamMap, gone: set<Str>, t1: int, t2: int)
    requires Separate(m) && gone <= m.Keys
    requires forall k | k in gone :: t2 - m[k].lastSeen > HOST_IDLE_TTL
    requires forall k | k in m && k !in gone :: t1 - m[k].lastSeen <= HOST_IDLE_TTL
    ensures Idle(TableOf(m), gone, t1, t2)
  {
  }

  lemma OldestOf(m: StreamMap, victim: Str)
    requires Separate(m) && victim in m
    requires forall j | j in m :: m[victim].lastSeen <= m[j].lastSeen
    ensures Oldest(TableOf(m), victim)
  {
  }

  twostate lemma TableUnchanged(m: StreamMap)
    requires Separate(m) && forall o | o in ObjectsOf(m) :: unchanged(o)
    ensures TableOf(m) == old(TableOf(m))
  {
  }

  lemma SeparateAt(m: StreamMap, key: Str)
    requires Separate(m) && key in m
    ensures m[key].stream.Valid() && m[key].stream in ObjectsOf(m)
    ensures forall k | k in m && k != key :: m[k].stream != m[key].stream
  {
  }

  lemma TableAt(m: StreamMap, key: Str)
    requires Separate(m) && key in m
    ensures m[key].stream.Valid() && key in TableOf(m)
    ensures TableOf(m)[key] == Entry(m[key].stream.State(), m[key].lastSeen)
  {
  }

  /** Only one stream moved since the table was t. */
  lemma TableOneMoved(m: StreamMap, key: Str, t: Table)
    requires Separate(m) && key in m && t.Keys == m.Keys
    requires forall k | k in m && k != key :: t[k] == Entry(m[k].stream.State(), m[k].lastSeen)
    ensures TableOf(m) == t[key := Entry(m[key].stream.State(), m[key].lastSeen)]
  {
  }

  /** A draw, and the table after it. */
  ghost function DrawnFrom(t: Table, key: Str, recent: seq<Addr>): Drawn
    requires key in t
  {
    DrawFresh(t[key].st, recent, BACKSTOP_RETRIES)
  }

  ghost function TableAfterDraw(t: Table, key: Str, recent: seq<Addr>): Table
    requires key in t
  {
    t[key := Entry(DrawnFrom(t, key, recent).next, t[key].lastSeen)]
  }

  class Proxy {
    const cfg: Config
    var sessions: Store
    var streams: map<Str, StreamEntry>
    var brMap: set<Addr>
    var brRing: seq<Addr>
    var brIdx: nat
    var hostPick: Word
    var sessionsCur: int
    var sessionsTot: int
    var hostsCur: int
    ghost var recorded: seq<Addr>
    ghost var drops: nat
    ghost var overwrites: nat

    ghost function Objects(): set<Stream>
      reads this
    {
      ObjectsOf(streams)
    }

    ghost predicate Valid()
      reads this
    {
      cfg.Valid() && RingValid() && Tracked()
    }

    /** The cycle table is within its cap and well formed. */
    ghost predicate Tracked()
      reads this
    {
      [] !in streams && |streams| <= cfg.streamMax && Separate(streams)
    }

    /** The set mirrors the ring; the write index moves only once the ring is full. */
    ghost predicate RingValid()
      reads this
    {
      brMap == Elements(brRing) && NoDuplicates(brRing)
      && |brRing| <= Cap() && (|brRing| < Cap() ==> brIdx == 0)
    }

    ghost function Cap(): nat { if cfg.brCap > 0 then cfg.brCap else 0 }

    ghost function TableView(): Table
      reads this, Objects()
      requires Separate(streams)
    {
      TableOf(streams)
    }

    ghost function Recent(): seq<Addr>
      reads this
    {
      Fifo(brRing, brIdx, Cap())
    }

    /** The rotation state this object represents. */
    ghost function View(): Rotor
      reads this, Objects()
      requires Separate(streams)
    {
      Rotor(TableView(), hostsCur, Recent(), recorded)
    }

    /** The session state this object represents. */
    ghost function SessionView(): Sessions
      reads this
    {
      Sessions(sessions, sessionsCur, sessionsTot, drops, overwrites)
    }

    /** New, for a static pool prefix: everything starts empty. */
    constructor (pool: Pool, avoidHostsMax: int, avoidRecent: int, stickyTTL: int)
      requires pool.Valid() && stickyTTL >= 0
      ensures Valid() && cfg == Config(pool, StreamMax(avoidHostsMax), avoidRecent, stickyTTL)
      ensures View() == EMPTY_ROTOR && SessionView() == NO_SESSIONS && Objects() == {} && hostPick == 0
    {
      cfg := Config(pool, StreamMax(avoidHostsMax), avoidRecent, stickyTTL);
      sessions := map[];
      streams := map[];
      brMap := {};
      brRing := [];
      brIdx := 0;
      hostPick := 0;
      sessionsCur, sessionsTot, hostsCur := 0, 0, 0;
      recorded, drops, overwrites := [], 0, 0;
    }

    // ----- the recent-address ring -----

    /** brHit. */
    method BrHit(ip: Addr) returns (hit: bool)
      requires RingValid()
      ensures hit <==> ip in Recent()
    {
      hit := ip in brMap;
      FifoElements(brRing, brIdx, Cap(), ip);
    }

    /** The recording half of backstopLocked. */
    method RecordRecent(ip: Addr)
      requires RingValid()
      modifies this`brMap, this`brRing, this`brIdx, this`recorded
      ensures RingValid()
      ensures Recent() == Recorded(old(Recent()), cfg.brCap, ip)
      ensures recorded == if cfg.brCap > 0 && ip !in old(Recent()) then old(recorded) + [ip] else old(recorded)
    {
      hide Fifo, Elements, NoDuplicates;
      if cfg.brCap <= 0 {
        return;
      }
      FifoElements(brRing, brIdx, Cap(), ip);
      RingElements(brRing, ip);
      FifoLength(brRing, brIdx, Cap());
      if ip !in brMap {
        if |brRing| < cfg.brCap {
          AppendElements(brRing, ip);
          FifoStart(brRing, Cap());
          FifoStart(brRing + [ip], Cap());
          brRing := brRing + [ip];
        } else {
          var slot := brIdx % |brRing|;
          OverwriteOldest(brRing, brIdx, Cap(), ip);
          ReplacedElements(brRing, slot, ip);
          brMap := brMap - {brRing[slot]};
          brRing := brRing[slot := ip];
          brIdx := brIdx + 1;
        }
        brMap := brMap + {ip};
        recorded := recorded + [ip];
      }
    }

    // ----- the table of cycles -----

    /** evictStreamLocked: drops an entry with the least last use. */
    method EvictStreamLocked(now: int) returns (ghost victim: Str)
      requires [] !in streams
      modifies this`streams
      ensures old(streams) == map[] ==> streams == map[]
      ensures old(streams) != map[] ==>
                victim in old(streams) && streams == old(streams) - {victim}
                && forall j | j in old(streams) :: old(streams)[victim].lastSeen <= old(streams)[j].lastSeen
    {
      var oldest: Str, oldestAt := [], now;
      var keys := streams.Keys;
      while keys != {}
        invariant keys <= streams.Keys
        invariant oldest == [] <==> keys == streams.Keys
        invariant oldest != [] ==>
                    oldest in streams && oldest !in keys && oldestAt == streams[oldest].lastSeen
                    && forall j | j in streams && j !in keys :: oldestAt <= streams[j].lastSeen
        decreases |keys|
      {
        var k :| k in keys;
        keys := keys - {k};
        if streams[k].lastSeen < oldestAt || oldest == [] {
          oldest, oldestAt := k, streams[k].lastSeen;
        }
      }
      victim := oldest;
      if oldest != [] {
        streams := streams - {oldest};
      }
    }

    /** The eviction loop of streamLocked: below the cap afterwards. */
    method MakeRoom(now: int) returns (ghost victim: Str)
      requires [] !in streams && |streams| <= cfg.streamMax && cfg.streamMax > 0
      modifies this`streams
      ensures |old(streams)| < cfg.streamMax ==> streams == old(streams)
      ensures |old(streams)| >= cfg.streamMax ==>
                victim in old(streams) && streams == old(streams) - {victim}
                && forall j | j in old(streams) :: old(streams)[victim].lastSeen <= old(streams)[j].lastSeen
      ensures |streams| < cfg.streamMax
    {
      victim := [];
      while cfg.streamMax > 0 && |streams| >= cfg.streamMax
        invariant [] !in streams
        invariant streams == old(streams)
               || (|streams| < cfg.streamMax <= |old(streams)|
                   && victim in old(streams) && streams == old(streams) - {victim}
                   && forall j | j in old(streams) :: old(streams)[victim].lastSeen <= old(streams)[j].lastSeen)
        decreases |streams|
      {
        victim := EvictStreamLocked(now);
        assert streams.Keys == old(streams.Keys) - {victim};
      }
    }

    /** A hit: the entry's cycle, with its last use refreshed. */
    method Refresh(key: Str, ghost origin: Running, now: int) returns (st: Stream)
      requires Tracked() && key in streams
      modifies this`streams
      ensures Tracked()
      ensures key in streams && streams[key] == StreamEntry(st, now)
      ensures LookedUp(old(TableView()), TableView(), cfg.streamMax, key, origin, [], now)
      ensures Objects() == old(Objects()) && st in Objects()
    {
      hide TableOf, LookedUp, Separate, Stream.State;
      st := streams[key].stream;
      HitLookup(streams, cfg.streamMax, key, origin, now);
      streams := streams[key := StreamEntry(st, now)];
      HitLookup(old(streams), cfg.streamMax, key, origin, now);
      TableUnchanged(old(streams));
    }

    /** A miss: make room, then start the cycle at its origin. */
    method StartCycle(key: Str, acct: Account, dest: Str, now: int) returns (st: Stream, ghost victim: Str)
      requires cfg.Valid() && Tracked() && key != [] && key !in streams
      modifies this`streams, this`hostsCur
      ensures Tracked()
      ensures key in streams && streams[key] == StreamEntry(st, now) && hostsCur == |streams|
      ensures LookedUp(old(TableView()), TableView(), cfg.streamMax, key, OriginOf(cfg, acct, dest), victim, now)
      ensures fresh(st) && Objects() <= old(Objects()) + {st}
    {
      hide TweakHost, Origin, MixedFrom, TableOf, LookedUp, Separate, Stream.State;
      victim := MakeRoom(now);
      st := new Stream(cfg.pool, acct.domain, TweakHost(dest));
      ghost var kept := streams;
      streams := streams[key := StreamEntry(st, now)];
      OneMore(kept, key, StreamEntry(st, now));
      hostsCur := |streams|;
      MissSeparate(old(streams), kept, key, st, victim, now);
      MissLookup(old(streams), kept, cfg.streamMax, key, st, victim, now);
      TableUnchanged(old(streams));
    }

    /** streamLocked: the cycle of (account, destination), created on demand. */
    method StreamLocked(acct: Account, dest: Str, now: int) returns (st: Stream, ghost victim: Str, ghost hit: bool)
      requires cfg.Valid() && Tracked()
      modifies this`streams, this`hostsCur
      ensures Tracked()
      ensures var key := StreamKey(acct.username, dest);
              && key in streams && streams[key] == StreamEntry(st, now)
              && LookedUp(old(TableView()), TableView(), cfg.streamMax, key, OriginOf(cfg, acct, dest), victim, now)
      ensures hit <==> StreamKey(acct.username, dest) in old(streams)
      ensures hostsCur == if hit then old(hostsCur) else |streams|
      ensures hit ==> Objects() == old(Objects())
      ensures !hit ==> fresh(st) && Objects() <= old(Objects()) + {st}
    {
      var key := StreamKey(acct.username, dest);
      assert key != [];
      hide StreamKey, OriginOf, TableOf, LookedUp, Separate;
      hit := key in streams;
      if key in streams {
        victim := [];
        st := Refresh(key, OriginOf(cfg, acct, dest), now);
      } else {
        st, victim := StartCycle(key, acct, dest, now);
      }
    }

    // ----- picking -----

    /** Next, repeated while the ring has seen the address, at most three times. */
    method DrawUnseen(st: Stream) returns (ip: Addr)
      requires RingValid() && st.Valid()
      modifies st
      ensures ip == DrawFresh(old(st.State()), Recent(), BACKSTOP_RETRIES).ip
      ensures st.State() == DrawFresh(old(st.State()), Recent(), BACKSTOP_RETRIES).next
    {
      hide Draw, AddrAt, Skips, DrawPos, PosAfter, Fifo, Elements, NoDuplicates;
      ghost var from := st.State();
      var skipped;
      ip, skipped := st.Next();
      DrawIsNext(from);
      var hit := BrHit(ip);
      var i := 0;
      while i < BACKSTOP_RETRIES && hit
        invariant i <= BACKSTOP_RETRIES && from.Valid()
        invariant hit <==> ip in Recent()
        invariant ip == Draw(from).ip && st.State() == Draw(from).next
        invariant DrawFresh(old(st.State()), Recent(), BACKSTOP_RETRIES).ip
               == DrawFresh(from, Recent(), BACKSTOP_RETRIES - i).ip
        invariant DrawFresh(old(st.State()), Recent(), BACKSTOP_RETRIES).next
               == DrawFresh(from, Recent(), BACKSTOP_RETRIES - i).next
      {
        from := st.State();
        ip, skipped := st.Next();
        DrawIsNext(from);
        hit := BrHit(ip);
        i := i + 1;
      }
    }

    /** Draws from a tracked cycle, which alone moves. */
    method DrawTracked(key: Str) returns (ip: Addr)
      requires RingValid() && Tracked() && key in streams
      modifies Objects()
      ensures ip == DrawnFrom(old(TableView()), key, Recent()).ip
      ensures TableView() == TableAfterDraw(old(TableView()), key, Recent())
    {
      hide DrawFresh, Fifo;
      ghost var before := TableView();
      SeparateAt(streams, key);
      ip := DrawUnseen(streams[key].stream);
      TableOneMoved(streams, key, before);
    }

    /** The table after a pick: the looked-up cycle moved by the draw. */
    ghost predicate DrawnTable(t: Table, t': Table, acct: Account, dest: Str, victim: Str, now: int,
                               recent: seq<Addr>, ip: Addr)
      requires cfg.Valid()
    {
      var key := StreamKey(acct.username, dest);
      var looked := Touched(t, cfg.streamMax, key, OriginOf(cfg, acct, dest), victim, now);
      var d := DrawFresh(looked[key].st, recent, BACKSTOP_RETRIES);
      (key !in t && |t| >= cfg.streamMax ==> Oldest(t, victim))
      && ip == d.ip && t' == looked[key := Entry(d.next, now)]
    }

    /** The cycle's part of freshIP: look it up and draw from it. */
    method DrawCycle(acct: Account, dest: Str, now: int) returns (ip: Addr, ghost victim: Str)
      requires Valid()
      modifies this`streams, this`hostsCur, Objects()
      ensures Valid() && fresh(Objects() - old(Objects()))
      ensures DrawnTable(old(TableView()), TableView(), acct, dest, victim, now, Recent(), ip)
      ensures hostsCur == if StreamKey(acct.username, dest) in old(TableView()) then old(hostsCur) else |TableView()|
    {
      hide StreamKey, OriginOf, TableOf, Touched, DrawFresh, Separate, Oldest, Fifo, Stream.State;
      hide Elements, NoDuplicates;
      var key := StreamKey(acct.username, dest);
      TableOfSize(streams);
      var st: Stream;
      ghost var hit: bool;
      st, victim, hit := StreamLocked(acct, dest, now);
      TableAt(streams, key);
      ip := DrawTracked(key);
      TableOfSize(streams);
    }

    /** freshIP for a full-pool account. */
    method FreshCycle(acct: Account, dest: Str, now: int) returns (ip: Addr, ghost victim: Str)
      requires Valid()
      modifies this`streams, this`hostsCur, this`brMap, this`brRing, this`brIdx, this`recorded, Objects()
      ensures Valid() && fresh(Objects() - old(Objects()))
      ensures StreamKey(acct.username, dest) !in old(TableView()) && |old(TableView())| >= cfg.streamMax
              ==> Oldest(old(TableView()), victim)
      ensures Pick(ip, View()) == CyclePick(cfg, old(View()), acct, dest, victim, now)
    {
      hide StreamKey, OriginOf, TableOf, Touched, DrawFresh, Separate, Oldest, Fifo, Recorded, CyclePick, RingValid;
      ip, victim := DrawCycle(acct, dest, now);
      CyclePickParts(cfg, old(View()), acct, dest, victim, now);
      label Drawn:
      RecordRecent(ip);
      TableUnchanged@Drawn(streams);
    }

    /** One sliced candidate: the next number of the shared counter, mapped. */
    method Generate(acct: Account, dest: Str) returns (ip: Addr)
      requires cfg.Valid()
      modifies this`hostPick
      ensures hostPick == Add64(old(hostPick), 1)
      ensures ip == SlicedFor(cfg, acct, dest, hostPick)
    {
      hostPick := Add64(hostPick, 1);
      ip := IPForAcct(cfg.pool, hostPick, Xor64(acct.domain, TweakHost(dest)), acct.start, acct.size);
    }

    /** Sliced candidates until the ring has not seen one, at most four. Each takes the next
        number of the counter, and the address returned is that of the last number taken. */
    method DrawSliced(acct: Account, dest: Str) returns (ip: Addr, ghost ns: seq<Word>, ghost last: nat)
      requires cfg.Valid() && RingValid()
      modifies this`hostPick
      ensures |ns| == 4 && forall i | 0 <= i < 4 :: ns[i] == (old(hostPick) + i + 1) % W64
      ensures last < 4 && hostPick == ns[last] && ip == SlicedFor(cfg, acct, dest, hostPick)
      ensures forall i | 0 <= i < last :: SlicedFor(cfg, acct, dest, ns[i]) in Recent()
      ensures ip in Recent() ==> last == 3
      ensures ip == FirstFresh(SlicedCandidates(cfg, acct, dest, ns), Recent())
    {
      hide SlicedFor, SlicedCandidates, Fifo, Elements, NoDuplicates, Add64;
      ns := FourNumbers(hostPick);
      ghost var ips := SlicedCandidates(cfg, acct, dest, ns);
      ip := Generate(acct, dest);
      var hit := BrHit(ip);
      var i := 0;
      while i < BACKSTOP_RETRIES && hit
        invariant i <= BACKSTOP_RETRIES && hostPick == ns[i] && ip == ips[i]
        invariant hit <==> ip in Recent()
        invariant forall j | 0 <= j < i :: ips[j] in Recent()
        invariant FirstFresh(ips, Recent()) == FirstFresh(ips[i..], Recent())
      {
        ip := Generate(acct, dest);
        hit := BrHit(ip);
        assert ips[i..][1..] == ips[i + 1..];
        i := i + 1;
      }
      assert ips[i..][0] == ip;
      last := i;
    }

    /** freshIP for a sliced account. */
    method FreshSliced(acct: Account, dest: Str) returns (ip: Addr, ghost ns: seq<Word>, ghost last: nat)
      requires Valid()
      modifies this`hostPick, this`brMap, this`brRing, this`brIdx, this`recorded
      ensures Valid() && |ns| == 4 && forall i | 0 <= i < 4 :: ns[i] == (old(hostPick) + i + 1) % W64
      ensures Pick(ip, View()) == SlicedPick(cfg, old(View()), acct, dest, ns)
      ensures last < 4 && hostPick == ns[last] && ip == SlicedFor(cfg, acct, dest, hostPick)
      ensures forall i | 0 <= i < last :: SlicedFor(cfg, acct, dest, ns[i]) in old(Recent())
      ensures ip in old(Recent()) ==> last == 3
    {
      hide SlicedCandidates, SlicedFor, FirstFresh, Fifo, Recorded, TableOf, Separate, Elements, NoDuplicates;
      ip, ns, last := DrawSliced(acct, dest);
      RecordRecent(ip);
      TableUnchanged(streams);
    }

    /** freshIP with a static pool: the machine's pick, and the numbers taken from the counter. */
    method FreshIP(acct: Account, dest: Str, now: int) returns (ip: Addr, ghost ch: Choice, ghost last: nat)
      requires Valid()
      modifies this`streams, this`hostsCur, this`hostPick, this`brMap, this`brRing, this`brIdx, this`recorded, Objects()
      ensures Valid() && fresh(Objects() - old(Objects()))
      ensures ch.now == now && Allowed(cfg, old(View()), acct, dest, ch)
      ensures Pick(ip, View()) == FreshPick(cfg, old(View()), acct, dest, ch)
      ensures acct.size == 0 ==> hostPick == old(hostPick)
      ensures acct.size > 0 ==>
                && (forall i | 0 <= i < 4 :: ch.ns[i] == (old(hostPick) + i + 1) % W64)
                && last < 4 && hostPick == ch.ns[last] && ip == SlicedFor(cfg, acct, dest, hostPick)
                && forall i | 0 <= i < last :: SlicedFor(cfg, acct, dest, ch.ns[i]) in old(Recent())
      ensures acct.size > 0 && ip in old(Recent()) ==> last == 3
    {
      hide CyclePick, SlicedPick, SlicedFor, StreamKey, TableOf, Separate, Oldest, Fifo;
      if acct.size > 0 {
        ghost var ns: seq<Word>;
        ip, ns, last := FreshSliced(acct, dest);
        ch := Choice([], now, ns);
      } else {
        ghost var victim: Str;
        ip, victim := FreshCycle(acct, dest, now);
        ch := Choice(victim, now, [0, 0, 0, 0]);
        last := 0;
      }
    }

    /** The purge loop of SweepStreams. Each entry's age is taken from a clock reading
        somewhere in t1..t2. */
    method DropIdle(t1: int, t2: int) returns (ghost gone: set<Str>)
      requires t1 <= t2
      modifies this`streams
      ensures gone <= old(streams.Keys) && streams == old(streams) - gone
      ensures forall k | k in gone :: t2 - old(streams)[k].lastSeen > HOST_IDLE_TTL
      ensures forall k | k in old(streams) && k !in gone :: t1 - old(streams)[k].lastSeen <= HOST_IDLE_TTL
    {
      gone := {};
      var keys := streams.Keys;
      while keys != {}
        invariant keys <= streams.Keys && gone <= old(streams.Keys)
        invariant streams == old(streams) - gone
        invariant forall k | k in gone :: t2 - old(streams)[k].lastSeen > HOST_IDLE_TTL
        invariant forall k | k in old(streams) && k !in gone && k !in keys ::
                    t1 - old(streams)[k].lastSeen <= HOST_IDLE_TTL
        decreases |keys|
      {
        var k :| k in keys;
        var t: int :| t1 <= t <= t2;
        keys := keys - {k};
        if t - streams[k].lastSeen > HOST_IDLE_TTL {
          assert old(streams) - gone - {k} == old(streams) - (gone + {k});
          streams := streams - {k};
          gone := gone + {k};
        }
      }
    }

    /** The cap loop of SweepStreams: a no-op on a table within its cap. */
    method EnforceCap(now: int)
      requires [] !in streams
      modifies this`streams
      ensures |streams| <= cfg.streamMax || cfg.streamMax == 0
      ensures |old(streams)| <= cfg.streamMax ==> streams == old(streams)
    {
      while cfg.streamMax > 0 && |streams| > cfg.streamMax
        invariant [] !in streams
        invariant |old(streams)| <= cfg.streamMax ==> streams == old(streams)
        decreases |streams|
      {
        ghost var before := streams;
        ghost var victim := EvictStreamLocked(now);
        assert streams.Keys == before.Keys - {victim};
      }
    }

    /** The two loops of SweepStreams. */
    method PurgeStreams(t1: int, t2: int) returns (ghost gone: set<Str>)
      requires Tracked() && t1 <= t2
      modifies this`streams
      ensures Tracked() && gone <= old(streams.Keys) && streams == old(streams) - gone
      ensures Idle(old(TableView()), gone, t1, t2)
      ensures forall k | k in gone :: t2 - old(streams)[k].lastSeen > HOST_IDLE_TTL
      ensures forall k | k in old(streams) && k !in gone :: t1 - old(streams)[k].lastSeen <= HOST_IDLE_TTL
    {
      hide TableOf, Separate, Idle, Stream.State;
      gone := DropIdle(t1, t2);
      IdleOf(old(streams), gone, t1, t2);
      TableUnchanged(old(streams));
      TableOfRemoval(old(streams), gone);
      SubsetSize(streams.Keys, old(streams.Keys));
      EnforceCap(t2);
    }

    /** SweepStreams: purge idle cycles, enforce the cap, refresh the gauge. */
    method SweepStreams(t1: int, t2: int) returns (ghost gone: set<Str>)
      requires Tracked() && t1 <= t2
      modifies this`streams, this`hostsCur
      ensures Tracked() && Idle(old(TableView()), gone, t1, t2)
      ensures View() == Swept(old(View()), gone)
      ensures Objects() <= old(Objects())
      ensures forall k | k in streams ::
                k in old(streams) && streams[k] == old(streams)[k] && t1 - streams[k].lastSeen <= 3_600_000_000_000
      ensures forall k | k in old(streams) && k !in streams ::
                t2 - old(streams)[k].lastSeen > 3_600_000_000_000
      ensures hostsCur == |streams|
    {
      hide TableOf, Separate, Fifo, Idle, Stream.State;
      gone := PurgeStreams(t1, t2);
      hostsCur := |streams|;
      TableOfRemoval(old(streams), gone);
      TableOfSize(streams);
      TableUnchanged(old(streams));
    }

    // ----- sticky sessions -----

    /** dropSessionLocked. */
    method DropSessionLocked(token: Str)
      modifies this`sessions, this`sessionsCur, this`drops
      ensures sessions == old(sessions) - {token} && sessionsCur == old(sessionsCur) - 1 && drops == old(drops) + 1
      ensures SessionView() == Drop(old(SessionView()), {token})
    {
      sessions := sessions - {token};
      sessionsCur := sessionsCur - 1;
      drops := drops + 1;
    }

    /** stickyIP's first locked section, which reads the clock at t1 and t2: the machine's
        Check. */
    method StickyCheck(acct: Account, token: Str, t1: int, t2: int) returns (hit: bool, ip: Addr)
      modifies this`sessions, this`sessionsCur, this`drops
      ensures hit <==> token in old(sessions) && old(sessions)[token].acct == acct.username
                       && t1 < old(sessions)[token].expire
      ensures hit ==> ip == old(sessions)[token].ip
      ensures !hit && token in old(sessions) && old(sessions)[token].expire < t2 ==>
                sessions == old(sessions) - {token} && sessionsCur == old(sessionsCur) - 1 && drops == old(drops) + 1
      ensures hit || token !in old(sessions) || t2 <= old(sessions)[token].expire ==>
                sessions == old(sessions) && sessionsCur == old(sessionsCur) && drops == old(drops)
      ensures cfg.Valid() && t1 <= t2 ==>
                SessionView() == After(cfg, State(t1, EMPTY_ROTOR, old(SessionView()), map[]),
                                       Check(0, acct, token, [], t1, t2)).sess
    {
      hit, ip := false, ZERO_ADDR;
      if token in sessions && sessions[token].acct == acct.username && t1 < sessions[token].expire {
        return true, sessions[token].ip;
      }
      if token in sessions && t2 > sessions[token].expire {
        DropSessionLocked(token);
      }
    }

    /** stickyIP's second locked section: another caller's live session wins. It is the
        machine's Commit. */
    method StickyCommit(acct: Account, token: Str, picked: Addr, t1: int, t2: int) returns (ip: Addr)
      modifies this`sessions, this`sessionsCur, this`sessionsTot, this`overwrites
      ensures Live(old(sessions), token, acct.username, t1) ==>
                ip == old(sessions)[token].ip && SessionView() == old(SessionView())
      ensures !Live(old(sessions), token, acct.username, t1) ==>
                && ip == picked
                && sessions == old(sessions)[token := Session(picked, acct.username, t2 + cfg.stickyTTL)]
                && sessionsCur == old(sessionsCur) + 1 && sessionsTot == old(sessionsTot) + 1
                && overwrites == if token in old(sessions) then old(overwrites) + 1 else old(overwrites)
      ensures cfg.Valid() && t1 <= t2 ==>
                var s := State(t1, EMPTY_ROTOR, old(SessionView()), map[0 := Picked(acct, token, [], picked)]);
                SessionView() == After(cfg, s, Commit(0, t1, t2)).sess
                && ReplyOf(cfg, s, Commit(0, t1, t2)) == Reply(ip)
    {
      if token in sessions && sessions[token].acct == acct.username && t1 < sessions[token].expire {
        return sessions[token].ip;
      }
      overwrites := overwrites + B2N(token in sessions);
      sessions := sessions[token := Session(picked, acct.username, t2 + cfg.stickyTTL)];
      sessionsCur := sessionsCur + 1;
      sessionsTot := sessionsTot + 1;
      ip := picked;
    }

    /** The rotation state does not depend on the session fields. */
    twostate lemma RotationUnchanged()
      requires old(Valid()) && unchanged(`streams) && unchanged(`hostsCur) && unchanged(`recorded)
      requires unchanged(`brMap) && unchanged(`brRing) && unchanged(`brIdx)
      requires forall o | o in ObjectsOf(streams) :: unchanged(o)
      ensures Valid() && View() == old(View())
    {
      hide TableOf, Separate, Fifo, Stream.State;
      TableUnchanged(streams);
    }

    /** stickyIP when no other caller intervenes: a live session is handed back and nothing
        changes; otherwise an expired one goes, one pick is made, and the session stored
        for it lives for the TTL. Either way the call takes the machine's steps. */
    method StickyIP(acct: Account, token: Str, dest: Str, t1: int, t2: int, t3: int, t4: int, t5: int)
      returns (ip: Addr, ghost ch: Choice, ghost last: nat)
      requires Valid() && t1 <= t2 <= t3 <= t4 <= t5
      modifies this, Objects()
      ensures Valid() && fresh(Objects() - old(Objects()))
      ensures Live(old(sessions), token, acct.username, t1) ==>
                && ip == old(sessions)[token].ip && hostPick == old(hostPick)
                && View() == old(View()) && SessionView() == old(SessionView())
                && Performs(cfg, old(State(t1, View(), SessionView(), map[])),
                            [Check(0, acct, token, dest, t1, t2)],
                            State(t2, View(), SessionView(), map[]), Reply(ip))
      ensures !Live(old(sessions), token, acct.username, t1) ==>
                && ch.now == t3 && Allowed(cfg, old(View()), acct, dest, ch)
                && Pick(ip, View()) == FreshPick(cfg, old(View()), acct, dest, ch)
                && Performs(cfg, old(State(t1, View(), SessionView(), map[])),
                            [Check(0, acct, token, dest, t1, t2), PickFor(0, ch), Commit(0, t4, t5)],
                            State(t5, View(), SessionView(), map[]), Reply(ip))
      ensures !Live(old(sessions), token, acct.username, t1) ==>
                sessions == old(sessions)[token := Session(ip, acct.username, t5 + cfg.stickyTTL)]
      ensures acct.size == 0 ==> hostPick == old(hostPick)
      ensures acct.size > 0 && !Live(old(sessions), token, acct.username, t1) ==>
                && (forall i | 0 <= i < 4 :: ch.ns[i] == (old(hostPick) + i + 1) % W64)
                && last < 4 && hostPick == ch.ns[last] && ip == SlicedFor(cfg, acct, dest, hostPick)
    {
      hide TableOf, Separate, FreshPick, Allowed, RingValid, View, CommitMiss, CheckMiss, Performs;
      hide After, Enabled, ReplyOf, SlicedFor;
      ip, ch, last := StickySections(acct, token, dest, t1, t2, t3, t4, t5);
      if Live(old(sessions), token, acct.username, t1) {
        HitPerforms(cfg, View(), SessionView(), acct, token, dest, t1, t2);
      } else {
        StillMissing(old(SessionView()), token, acct.username, t1, t2, t4);
        Renewed(old(SessionView()), token, t2, Session(ip, acct.username, t5 + cfg.stickyTTL));
        MissPerforms(cfg, old(View()), old(SessionView()), acct, token, dest, ch, t1, t2, t4, t5);
      }
    }

    /** The sections of stickyIP. */
    method StickySections(acct: Account, token: Str, dest: Str, t1: int, t2: int, t3: int, t4: int, t5: int)
      returns (ip: Addr, ghost ch: Choice, ghost last: nat)
      requires Valid() && t1 <= t2 <= t3 <= t4 <= t5
      modifies this, Objects()
      ensures Valid() && fresh(Objects() - old(Objects()))
      ensures Live(old(sessions), token, acct.username, t1) ==>
                && ip == old(sessions)[token].ip && hostPick == old(hostPick)
                && View() == old(View()) && SessionView() == old(SessionView())
      ensures !Live(old(sessions), token, acct.username, t1) ==>
                && ch.now == t3 && Allowed(cfg, old(View()), acct, dest, ch)
                && Pick(ip, View()) == FreshPick(cfg, old(View()), acct, dest, ch)
                && SessionView() == CommitMiss(CheckMiss(old(SessionView()), token, t2), token,
                                               Session(ip, acct.username, t5 + cfg.stickyTTL))
      ensures acct.size == 0 ==> hostPick == old(hostPick)
      ensures acct.size > 0 && !Live(old(sessions), token, acct.username, t1) ==>
                && (forall i | 0 <= i < 4 :: ch.ns[i] == (old(hostPick) + i + 1) % W64)
                && last < 4 && hostPick == ch.ns[last] && ip == SlicedFor(cfg, acct, dest, hostPick)
    {
      hide TableOf, Separate, FreshPick, Allowed, RingValid, View, CommitMiss, CheckMiss;
      hide After, Enabled, ReplyOf, SlicedFor;
      var hit: bool;
      ch, last := Choice([], t3, []), 0;
      hit, ip := StickyCheck(acct, token, t1, t2);
      CheckEnds(cfg, old(SessionView()), SessionView(), acct, token, t1, t2);
      RotationUnchanged();
      if !hit {
        StillMissing(old(SessionView()), token, acct.username, t1, t2, t4);
        ip, ch, last := StickyPick(acct, token, dest, t3, t4, t5);
      }
    }

    /** stickyIP after a miss: pick outside the lock, then commit. */
    method StickyPick(acct: Account, token: Str, dest: Str, t3: int, t4: int, t5: int)
      returns (ip: Addr, ghost ch: Choice, ghost last: nat)
      requires Valid() && !Live(sessions, token, acct.username, t4)
      modifies this, Objects()
      ensures Valid() && fresh(Objects() - old(Objects()))
      ensures ch.now == t3 && Allowed(cfg, old(View()), acct, dest, ch)
      ensures Pick(ip, View()) == FreshPick(cfg, old(View()), acct, dest, ch)
      ensures SessionView() == CommitMiss(old(SessionView()), token, Session(ip, acct.username, t5 + cfg.stickyTTL))
      ensures acct.size == 0 ==> hostPick == old(hostPick)
      ensures acct.size > 0 ==>
                && (forall i | 0 <= i < 4 :: ch.ns[i] == (old(hostPick) + i + 1) % W64)
                && last < 4 && hostPick == ch.ns[last] && ip == SlicedFor(cfg, acct, dest, hostPick)
    {
      hide TableOf, Separate, FreshPick, Allowed, RingValid, View, After, Enabled, ReplyOf, SlicedFor;
      ip, ch, last := FreshIP(acct, dest, t3);
      label Picked:
      ip := StickyCommit(acct, token, ip, t4, t5);
      RotationUnchanged@Picked();
    }

    /** SweepSessions, with the clock read before the lock is taken: exactly the sessions that
        expired before that reading go. It is the machine's step. */
    method SweepSessions(now: int)
      modifies this`sessions, this`sessionsCur, this`drops
      ensures forall k :: k in sessions <==> k in old(sessions) && now <= old(sessions)[k].expire
      ensures forall k | k in sessions :: sessions[k] == old(sessions)[k]
      ensures sessionsCur == old(sessionsCur) - (|old(sessions)| - |sessions|)
      ensures cfg.Valid() ==>
                SessionView() == After(cfg, State(now, EMPTY_ROTOR, old(SessionView()), map[]),
                                       Event.SweepSessions(now)).sess
    {
      hide SweepExpired, After;
      DropExpired(now);
      SweepEnds(cfg, old(SessionView()), now);
    }

    /** The loop of SweepSessions. */
    method DropExpired(now: int)
      modifies this`sessions, this`sessionsCur, this`drops
      ensures SessionView() == SweepExpired(old(SessionView()), now)
    {
      hide After;
      var keys := sessions.Keys;
      ghost var gone: set<Str> := {};
      while keys != {}
        invariant keys <= old(sessions.Keys) - gone && gone <= ExpiredTokens(old(sessions), now)
        invariant ExpiredTokens(old(sessions), now) <= gone + keys
        invariant SessionView() == Drop(old(SessionView()), gone)
        decreases |keys|
      {
        var k :| k in keys;
        keys := keys - {k};
        if now > sessions[k].expire {
          DropSessionLocked(k);
          DropOneMore(old(SessionView()), gone, k);
          gone := gone + {k};
        }
      }
      assert gone == ExpiredTokens(old(sessions), now);
    }
  }

  /** A draw is what Next does to a stream's value. */
  lemma DrawIsNext(s: CycleState)
    requires s.Valid()
    ensures Draw(s).ip == AddrAt(s.cycle, DrawPos(s.cycle, s.pos))
    ensures Draw(s).next
         == CycleState(s.cycle, PosAfter(s.cycle, s.pos, Skips(s.cycle, s.pos, MAX_CYCLE_SKIPS) + 1))
  {
  }

  /** The first locked section on values. */
  lemma CheckEnds(cfg: Config, s: Sessions, s': Sessions, acct: Account, token: Str, t1: int, t2: int)
    requires cfg.Valid() && t1 <= t2
    requires s' == After(cfg, State(t1, EMPTY_ROTOR, s, map[]), Check(0, acct, token, [], t1, t2)).sess
    ensures s' == if Live(s.store, token, acct.username, t1) then s else CheckMiss(s, token, t2)
  {
  }

  /** The next four numbers of the counter. */
  ghost function FourNumbers(n: Word): (ns: seq<Word>)
    ensures |ns| == 4 && forall i | 0 <= i < 4 :: ns[i] == (n + i + 1) % W64
    ensures ns[0] == Add64(n, 1) && ns[1] == Add64(ns[0], 1) && ns[2] == Add64(ns[1], 1) && ns[3] == Add64(ns[2], 1)
  {
    AddOne(n, 0);
    AddOne(n, 1);
    AddOne(n, 2);
    AddOne(n, 3);
    [(n + 1) % W64, (n + 2) % W64, (n + 3) % W64, (n + 4) % W64]
  }

  lemma AddOne(n: Word, i: nat)
    ensures Add64((n + i) % W64, 1) == (n + i + 1) % W64
    ensures i == 0 ==> (n + i) % W64 == n
  {
  }

  /** A renewed session replaces whatever was stored for the token. */
  lemma Renewed(s: Sessions, token: Str, t: int, born: Session)
    ensures CommitMiss(CheckMiss(s, token, t), token, born).store == s.store[token := born]
  {
  }

  /** A sweep of the sessions on values. */
  lemma SweepEnds(cfg: Config, s: Sessions, t: int)
    ensures var s' := SweepExpired(s, t);
            && (forall k :: k in s'.store <==> k in s.store && t <= s.store[k].expire)
            && (forall k | k in s'.store :: s'.store[k] == s.store[k])
            && s'.cur == s.cur - (|s.store| - |s'.store|)
    ensures cfg.Valid() ==>
              SweepExpired(s, t) == After(cfg, State(t, EMPTY_ROTOR, s, map[]), Event.SweepSessions(t)).sess
  {
    hide Drop;
    DropLeaves(s, ExpiredTokens(s.store, t));
  }

  /** A session missing at the check is still missing at the commit. */
  lemma StillMissing(s: Sessions, token: Str, user: Str, t1: int, t2: int, t4: int)
    requires t1 <= t4 && !Live(s.store, token, user, t1)
    ensures !Live(CheckMiss(s, token, t2).store, token, user, t4)
  {
  }

  lemma DropOneMore(s: Sessions, gone: set<Str>, k: Str)
    requires k !in gone
    ensures Drop(Drop(s, gone), {k}) == Drop(s, gone + {k})
  {
    assert s.store - gone - {k} == s.store - (gone + {k});
  }

  lemma FifoElements(slots: seq<Addr>, idx: nat, cap: nat, ip: Addr)
    ensures ip in Fifo(slots, idx, cap) <==> ip in slots
  {
    if |slots| >= cap && |slots| > 0 {
      var i := idx % |slots|;
      assert slots == slots[..i] + slots[i..];
    }
  }

  lemma FifoLength(slots: seq<Addr>, idx: nat, cap: nat)
    ensures |Fifo(slots, idx, cap)| == |slots|
  {
  }

  lemma RingElements(s: seq<Addr>, ip: Addr)
    ensures ip in Elements(s) <==> ip in s
  {
  }

  lemma AppendElements(s: seq<Addr>, ip: Addr)
    requires NoDuplicates(s) && ip !in s
    ensures Elements(s + [ip]) == Elements(s) + {ip} && NoDuplicates(s + [ip])
  {
  }

  lemma FifoStart(slots: seq<Addr>, cap: nat)
    ensures Fifo(slots, 0, cap) == slots
  {
    if |slots| > 0 {
      assert 0 % |slots| == 0;
      assert slots[0..] + slots[..0] == slots;
    }
  }

  lemma ReplacedElements(s: seq<Addr>, i: nat, ip: Addr)
    requires i < |s| && NoDuplicates(s) && ip !in s
    ensures Elements(s[i := ip]) == Elements(s) - {s[i]} + {ip}
    ensures NoDuplicates(s[i := ip])
  {
    var s' := s[i := ip];
    forall a
      ensures a in Elements(s') <==> a in Elements(s) - {s[i]} + {ip}
    {
      if a in s && a != s[i] {
        var j :| 0 <= j < |s| && s[j] == a;
        assert s'[j] == a;
      }
      if a in s' && a != ip {
        var j :| 0 <= j < |s'| && s'[j] == a;
        assert s[j] == a;
      }
      assert s'[i] == ip;
    }
  }
}
