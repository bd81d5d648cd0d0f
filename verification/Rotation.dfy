/** The proxy's rotation state as values: draws from a cycle, the recent-address
    ring, and the table of cycles. */
module Rotation {
  import opened Words
  import opened Addresses
  import opened Cycles
  import opened Hygiene
  import opened Streams

  type Str = Bytes

  // ----- drawing from a cycle -----

  /** A drawn address, the state after it, and how many positions were consumed. */
  datatype Drawn = Drawn(ip: Addr, next: CycleState, used: nat)

  /** Stream.Next as a function of the stream's value. */
  function Draw(s: CycleState): (d: Drawn)
    requires s.Valid()
    ensures d.next.Valid() && d.next.cycle == s.cycle
  {
    var n := Skips(s.cycle, s.pos, MAX_CYCLE_SKIPS) + 1;
    PosAfterBound(s.cycle, s.pos, n);
    Drawn(AddrAt(s.cycle, DrawPos(s.cycle, s.pos)), CycleState(s.cycle, PosAfter(s.cycle, s.pos, n)), n)
  }

  /** Draws again, at most `retries` times, while the address was seen recently. */
  function DrawFresh(s: CycleState, recent: seq<Addr>, retries: nat): (d: Drawn)
    requires s.Valid()
    ensures d.next.Valid() && d.next.cycle == s.cycle
    decreases retries, recent
  {
    var d := Draw(s);
    if retries > 0 && d.ip in recent then
      var e := DrawFresh(d.next, recent, retries - 1);
      Drawn(e.ip, e.next, d.used + e.used)
    else d
  }

  /** The address of the last of d.used positions consumed from s. */
  predicate EndsDraw(s: CycleState, d: Drawn)
    requires s.Valid()
  {
    d.used >= 1
    && d.next == CycleState(s.cycle, PosAfter(s.cycle, s.pos, d.used))
    && d.ip == AddrAt(s.cycle, PosAfter(s.cycle, s.pos, d.used - 1))
  }

  lemma DrawMeaning(s: CycleState)
    requires s.Valid()
    ensures EndsDraw(s, Draw(s))
  {
  }

  lemma ChainedDraws(s: CycleState, d: Drawn, e: Drawn)
    requires s.Valid() && EndsDraw(s, d) && d.next.Valid() && EndsDraw(d.next, e)
    ensures EndsDraw(s, Drawn(e.ip, e.next, d.used + e.used))
  {
    hide AddrAt, PosAfter;
    PosAfterSum(s.cycle, s.pos, d.used, e.used);
    PosAfterSum(s.cycle, s.pos, d.used, e.used - 1);
  }

  /** A draw consumes positions and returns the address of the last one consumed. */
  lemma {:induction false} DrawFreshMeaning(s: CycleState, recent: seq<Addr>, retries: nat)
    requires s.Valid()
    ensures EndsDraw(s, DrawFresh(s, recent, retries))
    decreases retries
  {
    hide Draw, EndsDraw;
    var d := Draw(s);
    DrawMeaning(s);
    if retries > 0 && d.ip in recent {
      DrawFreshMeaning(d.next, recent, retries - 1);
      ChainedDraws(s, d, DrawFresh(d.next, recent, retries - 1));
    }
  }

  /** The i-th candidate of a pick. */
  function Candidate(s: CycleState, i: nat): Addr
    requires s.Valid()
    decreases i
  {
    if i == 0 then Draw(s).ip else Candidate(Draw(s).next, i - 1)
  }

  lemma {:induction false} StaleCandidate(s: CycleState, recent: seq<Addr>, retries: nat, i: nat)
    requires s.Valid() && i <= retries && DrawFresh(s, recent, retries).ip in recent
    ensures Candidate(s, i) in recent
    decreases retries
  {
    hide Draw;
    if i > 0 {
      StaleCandidate(Draw(s).next, recent, retries - 1, i - 1);
    }
  }

  lemma {:induction false} FreshCandidate(s: CycleState, recent: seq<Addr>, retries: nat) returns (i: nat)
    requires s.Valid() && DrawFresh(s, recent, retries).ip !in recent
    ensures i <= retries && Candidate(s, i) !in recent
    decreases retries
  {
    hide Draw;
    i := 0;
    if Draw(s).ip in recent {
      i := FreshCandidate(Draw(s).next, recent, retries - 1);
      i := i + 1;
    }
  }

  /** A recently seen address is returned only if every candidate was seen recently. */
  lemma StaleOnlyIfAllStale(s: CycleState, recent: seq<Addr>, retries: nat)
    requires s.Valid()
    ensures DrawFresh(s, recent, retries).ip in recent
       <==> forall i | 0 <= i <= retries :: Candidate(s, i) in recent
  {
    hide DrawFresh, Candidate;
    if DrawFresh(s, recent, retries).ip in recent {
      forall i | 0 <= i <= retries
        ensures Candidate(s, i) in recent
      {
        StaleCandidate(s, recent, retries, i);
      }
    } else {
      var i := FreshCandidate(s, recent, retries);
    }
  }

  // ----- the recent-address ring -----

  /** The ring as the FIFO it implements. */
  function Fifo(slots: seq<Addr>, idx: nat, cap: nat): seq<Addr> {
    if |slots| < cap || |slots| == 0 then slots
    else slots[idx % |slots|..] + slots[..idx % |slots|]
  }

  /** Recording an address: nothing if disabled or already present, otherwise in at the
      back and, when full, out at the front. */
  function Recorded(recent: seq<Addr>, cap: int, ip: Addr): seq<Addr> {
    if cap <= 0 || ip in recent then recent
    else if |recent| < cap then recent + [ip]
    else recent[1..] + [ip]
  }

  /** Overwriting the slot at idx and moving idx on is leaving at the front and
      entering at the back. */
  lemma OverwriteOldest(slots: seq<Addr>, idx: nat, cap: nat, ip: Addr)
    requires 0 < cap == |slots|
    ensures Fifo(slots[idx % |slots| := ip], idx + 1, cap) == Fifo(slots, idx, cap)[1..] + [ip]
  {
    var i := idx % |slots|;
    var s' := slots[i := ip];
    NextSlot(idx, |slots|);
    if i + 1 < |slots| {
      assert s'[i + 1..] == slots[i + 1..];
      assert s'[..i + 1] == slots[..i] + [ip];
    } else {
      assert s'[0..] == s' && s' == slots[..i] + [ip];
      assert Fifo(slots, idx, cap)[1..] == slots[..i];
    }
  }

  lemma NextSlot(idx: nat, n: nat)
    requires n > 0
    ensures (idx + 1) % n == if idx % n + 1 < n then idx % n + 1 else 0
  {
    var q, r := idx / n, idx % n;
    assert idx == q * n + r;
    if r + 1 < n {
      DivModUnique(idx + 1, q, n, r + 1);
    } else {
      assert idx + 1 == (q + 1) * n;
      DivModUnique(idx + 1, q + 1, n, 0);
    }
  }

  predicate NoDuplicates(s: seq<Addr>) { forall i, j | 0 <= i < j < |s| :: s[i] != s[j] }

  /** The last n elements. */
  function Last<T>(s: seq<T>, n: nat): seq<T> { if |s| <= n then s else s[|s| - n..] }

  function Elements(s: seq<Addr>): set<Addr> { set a | a in s }

  // ----- the table of cycles -----

  const ZERO_ADDR: Addr := [0, 0, 0, 0, 0, 0, 0, 0, 0, 0, 0, 0, 0, 0, 0, 0]

  type Running = s: CycleState | s.Valid() witness CycleState(Cycle(ZERO_ADDR, 0, 1, 0), 0)

  datatype Entry = Entry(st: Running, lastSeen: int)
  type Table = map<Str, Entry>

  /** No entry was used earlier than k's. */
  predicate Oldest(t: Table, k: Str) {
    k in t && forall j | j in t :: t[k].lastSeen <= t[j].lastSeen
  }

  /** The table after a lookup: a hit refreshes the entry, a miss makes room by dropping
      `victim` when the table is full and starts the cycle at its origin. */
  function Touched(t: Table, max: nat, key: Str, origin: Running, victim: Str, now: int): (t': Table)
    ensures key in t'
  {
    if key in t then t[key := Entry(t[key].st, now)]
    else if |t| < max then t[key := Entry(origin, now)]
    else (t - {victim})[key := Entry(origin, now)]
  }

  lemma TouchedSize(t: Table, max: nat, key: Str, origin: Running, victim: Str, now: int)
    requires 0 < max && |t| <= max && (key !in t && |t| >= max ==> victim in t)
    ensures |Touched(t, max, key, origin, victim, now)| <= max
    ensures key in t ==> |Touched(t, max, key, origin, victim, now)| == |t|
  {
    var t' := Touched(t, max, key, origin, victim, now);
    if key in t {
      assert t'.Keys == t.Keys;
    } else if |t| < max {
      assert t'.Keys == t.Keys + {key};
    } else {
      assert t'.Keys == t.Keys - {victim} + {key};
      assert |t.Keys - {victim}| == |t.Keys| - 1;
    }
  }

  /** The table key of (account, destination). */
  function StreamKey(user: Str, dest: Str): Str { user + [0] + dest }

  /** Usernames without NUL bytes give every (account, destination) its own entry. */
  lemma StreamKeyInjective(user: Str, dest: Str, user': Str, dest': Str)
    requires 0 !in user && 0 !in user'
    requires StreamKey(user, dest) == StreamKey(user', dest')
    ensures user == user' && dest == dest'
  {
    var k := StreamKey(user, dest);
    FirstNul(user, dest, |user'|);
    FirstNul(user', dest', |user|);
    assert user == k[..|user|] && user' == k[..|user'|];
    assert dest == k[|user| + 1..] && dest' == k[|user'| + 1..];
  }

  /** The separator of a key is its first NUL byte. */
  lemma FirstNul(user: Str, dest: Str, i: nat)
    requires 0 !in user && i < |StreamKey(user, dest)| && StreamKey(user, dest)[i] == 0
    ensures |user| <= i
  {
  }
}
