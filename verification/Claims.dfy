/** Claiming and sweeping interface addresses: the object, and the protocol its locked
    sections form when callers and sweepers interleave with the kernel's address set. */
module Claims {
  import opened Addresses

  type ClaimMap = map<Addr, int>

  /** DefaultTTL, in nanoseconds. */
  const DEFAULT_TTL: int := 300_000_000_000

  /** New's idle TTL: the configured one, or the default. */
  function ClaimTTL(ttl: int): (t: int)
    ensures t > 0
    ensures ttl > 0 ==> t == ttl
    ensures ttl <= 0 ==> t == 300_000_000_000
  {
    if ttl <= 0 then DEFAULT_TTL else ttl
  }

  predicate Stale(claims: ClaimMap, ttl: int, a: Addr, t: int) { a in claims && t - claims[a] > ttl }

  /** The sweeper's locked recheck: untrack only if still stale. */
  function Untracked(claims: ClaimMap, ttl: int, a: Addr, t: int): ClaimMap {
    if Stale(claims, ttl, a, t) then claims - {a} else claims
  }

  // ----- the object -----

  class Claimer {
    const ttl: int
    var claims: ClaimMap
    /** The addresses on the claimed interface. */
    var kernel: set<Addr>

    constructor (ttlConfigured: int, onIface: set<Addr>)
      ensures ttl == ClaimTTL(ttlConfigured) && claims == map[] && kernel == onIface
    {
      ttl := ClaimTTL(ttlConfigured);
      claims := map[];
      kernel := onIface;
    }

    /** EnsureClaimed without interference: an address already present is left alone and
        untracked; otherwise it is tracked from now on and added if the kernel agrees. */
    method EnsureClaimed(src: Addr, now: int) returns (ok: bool)
      modifies this
      ensures src in old(kernel) ==> ok && claims == old(claims) && kernel == old(kernel)
      ensures src !in old(kernel) ==>
                claims == old(claims)[src := now] && kernel == if ok then old(kernel) + {src} else old(kernel)
    {
      if src in kernel {
        return true;
      }
      claims := claims[src := now];
      ok := *;
      if ok {
        kernel := kernel + {src};
      }
    }

    /** Sweep without interference: every address stale at t1 is tried and none that is
        fresh at t2; those the kernel lets go leave the interface and the claims together. */
    method Sweep(t1: int, t2: int, t3: int) returns (ghost tried: set<Addr>, ghost deleted: set<Addr>)
      requires t1 <= t2 <= t3
      modifies this
      ensures forall a | Stale(old(claims), ttl, a, t1) :: a in tried
      ensures forall a | a in tried :: Stale(old(claims), ttl, a, t2)
      ensures deleted <= tried
      ensures kernel == old(kernel) - deleted && claims == old(claims) - deleted
    {
      var stale := CollectStale(t1, t2);
      tried, deleted := stale, {};
      while stale != {}
        invariant stale <= tried && deleted <= tried && stale !! deleted
        invariant kernel == old(kernel) - deleted && claims == old(claims) - deleted
        decreases |stale|
      {
        var a :| a in stale;
        stale := stale - {a};
        var gone: bool := *;
        if gone {
          kernel := kernel - {a};
          assert old(claims) - deleted - {a} == old(claims) - (deleted + {a});
          claims := Untracked(claims, ttl, a, t3);
          deleted := deleted + {a};
        }
      }
    }

    /** The first locked section of Sweep; each age is taken from a clock reading in t1..t2. */
    method CollectStale(t1: int, t2: int) returns (stale: set<Addr>)
      requires t1 <= t2
      ensures forall a | Stale(claims, ttl, a, t1) :: a in stale
      ensures forall a | a in stale :: Stale(claims, ttl, a, t2)
    {
      stale := {};
      var keys := claims.Keys;
      while keys != {}
        invariant keys <= claims.Keys
        invariant forall a | Stale(claims, ttl, a, t1) :: a in stale || a in keys
        invariant forall a | a in stale :: Stale(claims, ttl, a, t2)
        decreases |keys|
      {
        var a :| a in keys;
        var t: int :| t1 <= t <= t2;
        keys := keys - {a};
        if t - claims[a] > ttl {
          stale := stale + {a};
        }
      }
    }
  }

  // ----- the protocol -----

  /** Windows: from recording an address to adding it, and from deleting it to untracking. */
  datatype Params = Params(ttl: int, addWindow: int, untrackWindow: int) {
    predicate Valid() { ttl > 0 && addWindow >= 0 && untrackWindow >= 0 }
  }

  /** Where a caller of EnsureClaimed or Sweep stands between its sections. */
  datatype Worker =
    | Looked(ip: Addr)
    | Recorded(ip: Addr, at: int)
    | Sweeping(todo: seq<Addr>)
    | Deleted(ip: Addr, at: int, todo: seq<Addr>)

  /** The tracked claims, the interface, and which of its addresses the claimer added. */
  datatype State = State(now: int, claims: ClaimMap, kernel: set<Addr>, own: set<Addr>, workers: map<nat, Worker>)

  /** A call of EnsureClaimed that finds its address present is a Use; one that does not
      goes through Look, Record and Add. */
  datatype Event =
    | Tick(t: int)
    | Use(ip: Addr)
    | Look(id: nat, ip: Addr)
    | Record(id: nat)
    | Add(id: nat, ok: bool)
    | Collect(id: nat, todo: seq<Addr>)
    | Delete(id: nat, ok: bool)
    | Untrack(id: nat)
    | Finish(id: nat)
    | OperatorAdds(ip: Addr)
    | OperatorRemoves(ip: Addr)

  predicate Initial(s: State) { s.claims == map[] && s.own == {} && s.workers == map[] }

  predicate Enabled(p: Params, s: State, e: Event) {
    match e
    case Tick(t) => s.now <= t
    case Use(ip) => ip in s.kernel
    case Look(id, ip) => id !in s.workers && ip !in s.kernel
    case Record(id) => id in s.workers && s.workers[id].Looked?
    case Add(id, _) => id in s.workers && s.workers[id].Recorded? && s.now <= s.workers[id].at + p.addWindow
    case Collect(id, todo) => id !in s.workers && forall a | a in todo :: Stale(s.claims, p.ttl, a, s.now)
    case Delete(id, _) => id in s.workers && s.workers[id].Sweeping? && s.workers[id].todo != []
    case Untrack(id) => id in s.workers && s.workers[id].Deleted? && s.now <= s.workers[id].at + p.untrackWindow
    case Finish(id) => id in s.workers && s.workers[id].Sweeping? && s.workers[id].todo == []
    case OperatorAdds(ip) => true
    case OperatorRemoves(ip) => true
  }

  function After(p: Params, s: State, e: Event): State
    requires Enabled(p, s, e)
  {
    match e
    case Tick(t) => s.(now := t)
    case Use(_) => s
    case Look(id, ip) => s.(workers := s.workers[id := Looked(ip)])
    case Record(id) =>
      var ip := s.workers[id].ip;
      s.(claims := s.claims[ip := s.now], workers := s.workers[id := Recorded(ip, s.now)])
    case Add(id, ok) =>
      var ip := s.workers[id].ip;
      var done := s.(workers := s.workers - {id});
      if ok && ip !in s.kernel then done.(kernel := s.kernel + {ip}, own := s.own + {ip}) else done
    case Collect(id, todo) => s.(workers := s.workers[id := Sweeping(todo)])
    case Delete(id, ok) =>
      var ip, rest := s.workers[id].todo[0], s.workers[id].todo[1..];
      if ok then s.(kernel := s.kernel - {ip}, own := s.own - {ip},
                    workers := s.workers[id := Deleted(ip, s.now, rest)])
      else s.(workers := s.workers[id := Sweeping(rest)])
    case Untrack(id) =>
      var w := s.workers[id];
      s.(claims := Untracked(s.claims, p.ttl, w.ip, s.now), workers := s.workers[id := Sweeping(w.todo)])
    case Finish(id) => s.(workers := s.workers - {id})
    case OperatorAdds(ip) => s.(kernel := s.kernel + {ip})
    case OperatorRemoves(ip) => s.(kernel := s.kernel - {ip}, own := s.own - {ip})
  }

  /** Every address the claimer added and has not removed is tracked. */
  predicate NoLeak(s: State) { s.own <= s.claims.Keys }

  /** A caller that may still add has a claim at least as recent as its own. */
  predicate AddersTracked(p: Params, s: State) {
    forall id | id in s.workers && s.workers[id].Recorded? ::
      s.workers[id].at <= s.now
      && (s.now <= s.workers[id].at + p.addWindow ==>
            s.workers[id].ip in s.claims && s.claims[s.workers[id].ip] >= s.workers[id].at)
  }

  /** An address deleted and added again was recorded close to its deletion. */
  predicate ReaddedRecently(p: Params, s: State) {
    forall id | id in s.workers && s.workers[id].Deleted? ::
      s.workers[id].at <= s.now
      && (s.workers[id].ip in s.own && s.workers[id].ip in s.claims ==>
            s.claims[s.workers[id].ip] >= s.workers[id].at - p.addWindow)
  }

  predicate ClaimsPast(s: State) { forall a | a in s.claims :: s.claims[a] <= s.now }

  /** Why nothing leaks. */
  predicate Inv(p: Params, s: State) {
    NoLeak(s) && AddersTracked(p, s) && ReaddedRecently(p, s) && ClaimsPast(s)
  }

  lemma StepNoLeak(p: Params, s: State, e: Event)
    requires p.Valid() && p.addWindow + p.untrackWindow <= p.ttl
    requires Inv(p, s) && Enabled(p, s, e)
    ensures NoLeak(After(p, s, e)) && ClaimsPast(After(p, s, e))
  {
  }

  lemma StepAdders(p: Params, s: State, e: Event)
    requires p.Valid() && p.addWindow + p.untrackWindow <= p.ttl
    requires AddersTracked(p, s) && ClaimsPast(s) && Enabled(p, s, e)
    ensures AddersTracked(p, After(p, s, e))
  {
  }

  lemma StepReadded(p: Params, s: State, e: Event)
    requires p.Valid() && p.addWindow + p.untrackWindow <= p.ttl
    requires Inv(p, s) && Enabled(p, s, e)
    ensures ReaddedRecently(p, After(p, s, e))
  {
  }

  lemma StepKeeps(p: Params, s: State, e: Event)
    requires p.Valid() && p.addWindow + p.untrackWindow <= p.ttl
    requires Inv(p, s) && Enabled(p, s, e)
    ensures Inv(p, After(p, s, e))
  {
    hide NoLeak, AddersTracked, ReaddedRecently, ClaimsPast, After, Enabled;
    StepNoLeak(p, s, e);
    StepAdders(p, s, e);
    StepReadded(p, s, e);
  }

  datatype Run = Run(states: seq<State>, events: seq<Event>)

  predicate StepAt(p: Params, run: Run, i: nat)
    requires |run.states| == |run.events| + 1 && i < |run.events|
  {
    Enabled(p, run.states[i], run.events[i]) && run.states[i + 1] == After(p, run.states[i], run.events[i])
  }

  predicate IsRun(p: Params, run: Run) {
    |run.states| == |run.events| + 1
    && Initial(run.states[0])
    && forall i | 0 <= i < |run.events| :: StepAt(p, run, i)
  }

  lemma {:induction false} ReachableInv(p: Params, run: Run, n: nat)
    requires p.Valid() && p.addWindow + p.untrackWindow <= p.ttl
    requires IsRun(p, run) && n < |run.states|
    ensures Inv(p, run.states[n])
  {
    if n > 0 {
      ReachableInv(p, run, n - 1);
      assert StepAt(p, run, n - 1);
      StepKeeps(p, run.states[n - 1], run.events[n - 1]);
    }
  }

  ghost predicate NeverLeaks(p: Params) {
    forall run: Run, n: nat | IsRun(p, run) && n < |run.states| :: NoLeak(run.states[n])
  }

  // ----- executions -----

  /** Executes events from a state, as far as they are enabled. */
  function Exec(p: Params, s: State, es: seq<Event>): (ss: seq<State>)
    ensures |ss| == |es| + 1 && ss[0] == s
    decreases |es|
  {
    if es == [] then [s]
    else [s] + Exec(p, if Enabled(p, s, es[0]) then After(p, s, es[0]) else s, es[1..])
  }

  predicate AllEnabled(p: Params, s: State, es: seq<Event>)
    decreases |es|
  {
    es == [] || (Enabled(p, s, es[0]) && AllEnabled(p, After(p, s, es[0]), es[1..]))
  }

  lemma {:induction false} ExecIsRun(p: Params, s: State, es: seq<Event>, i: nat)
    requires AllEnabled(p, s, es) && i < |es|
    ensures StepAt(p, Run(Exec(p, s, es), es), i)
    decreases i
  {
    if i > 0 {
      ExecIsRun(p, After(p, s, es[0]), es[1..], i - 1);
      var rest := Run(Exec(p, After(p, s, es[0]), es[1..]), es[1..]);
      assert StepAt(p, rest, i - 1);
    }
  }

  /** The state after executing events one by one. */
  function Final(p: Params, s: State, es: seq<Event>): State { Exec(p, s, es)[|es|] }

  /** From s the events from the k-th on are enabled one after the other, and lead to last. */
  predicate Leads(p: Params, s: State, es: seq<Event>, k: nat, last: State)
    requires k <= |es|
  {
    AllEnabled(p, s, es[k..]) && Final(p, s, es[k..]) == last
  }

  lemma Ends(p: Params, es: seq<Event>, last: State)
    ensures Leads(p, last, es, |es|, last)
  {
  }

  /** One enabled event earlier. */
  lemma Before(p: Params, s: State, es: seq<Event>, k: nat, next: State, last: State)
    requires k < |es| && Enabled(p, s, es[k]) && After(p, s, es[k]) == next && Leads(p, next, es, k + 1, last)
    ensures Leads(p, s, es, k, last)
  {
    hide Enabled, After;
    var rest := es[k..];
    assert rest[0] == es[k] && rest[1..] == es[k + 1..];
  }

  /** Events that lead somewhere from an initial state make a run. */
  lemma LeadsIsRun(p: Params, s: State, es: seq<Event>, last: State)
    requires Initial(s) && Leads(p, s, es, 0, last)
    ensures IsRun(p, Run(Exec(p, s, es), es)) && Exec(p, s, es)[|es|] == last
  {
    hide Initial, AllEnabled;
    assert es[0..] == es;
    forall i | 0 <= i < |es|
      ensures StepAt(p, Run(Exec(p, s, es), es), i)
    {
      ExecIsRun(p, s, es, i);
    }
  }

  // ----- use does not keep a claim alive -----

  /** The address is on the interface from state i to state j. */
  predicate Present(run: Run, a: Addr, i: nat, j: nat)
    requires j < |run.states|
  {
    forall n | i <= n <= j :: a in run.states[n].kernel
  }

  /** No caller that saw the address missing has yet to record it. */
  predicate NoneLooked(s: State, a: Addr) { forall id | id in s.workers :: s.workers[id] != Looked(a) }

  lemma PresentStep(p: Params, s: State, e: Event, a: Addr)
    requires Enabled(p, s, e) && a in s.kernel && NoneLooked(s, a)
    ensures NoneLooked(After(p, s, e), a)
    ensures a in After(p, s, e).claims ==> a in s.claims && After(p, s, e).claims[a] == s.claims[a]
  {
  }

  /** While an address stays on the interface its claim keeps the time of the first call,
      however often it is used: sweepers may collect it as soon as that is stale. */
  lemma {:induction false} UseNeverRefreshes(p: Params, run: Run, a: Addr, i: nat, j: nat, id: nat)
    requires IsRun(p, run) && i <= j < |run.states| && Present(run, a, i, j) && NoneLooked(run.states[i], a)
    ensures NoneLooked(run.states[j], a)
    ensures a in run.states[j].claims ==>
              a in run.states[i].claims && run.states[j].claims[a] == run.states[i].claims[a]
    ensures Enabled(p, run.states[j], Collect(id, [a]))
       <==> id !in run.states[j].workers && a in run.states[j].claims
            && run.states[j].now - run.states[i].claims[a] > p.ttl
    decreases j
  {
    assert a in [a];
    if i < j {
      UseNeverRefreshes(p, run, a, i, j - 1, id);
      assert StepAt(p, run, j - 1);
      PresentStep(p, run.states[j - 1], run.events[j - 1], a);
    }
  }

  /** An address claimed once and deleted one TTL later, right after a use. */
  function UsedThenSwept(p: Params, a: Addr): seq<Event> {
    [Look(0, a), Record(0), Add(0, true), Tick(p.ttl + 1), Use(a), Collect(0, [a]), Delete(0, true)]
  }

  /** After the claim has grown stale. */
  function Aged(p: Params, a: Addr): State { State(p.ttl + 1, map[a := 0], {a}, {a}, map[]) }

  lemma SweptAtLast(p: Params, a: Addr) returns (last: State)
    requires p.Valid()
    ensures Leads(p, Aged(p, a), UsedThenSwept(p, a), 4, last) && a !in last.kernel
  {
    hide Leads;
    var t, es, s4 := p.ttl + 1, UsedThenSwept(p, a), Aged(p, a);
    var s6 := s4.(workers := map[0 := Sweeping([a])]);
    last := State(t, map[a := 0], {}, {}, map[0 := Deleted(a, t, [])]);
    Ends(p, es, last);
    assert s6.kernel - {a} == {} && [a][1..] == [];
    Before(p, s6, es, 6, last, last);
    Before(p, s4, es, 5, s6, last);
    Before(p, s4, es, 4, s4, last);
  }

  /** In use at the very moment: a claim is swept one TTL after it was made. */
  lemma SweptInUse(p: Params, a: Addr) returns (last: State)
    requires p.Valid()
    ensures Leads(p, State(0, map[], {}, {}, map[]), UsedThenSwept(p, a), 0, last) && a !in last.kernel
  {
    hide Leads;
    var es := UsedThenSwept(p, a);
    var s0 := State(0, map[], {}, {}, map[]);
    var s1 := State(0, map[], {}, {}, map[0 := Looked(a)]);
    var s2 := State(0, map[a := 0], {}, {}, map[0 := Recorded(a, 0)]);
    var s3 := State(0, map[a := 0], {a}, {a}, map[]);
    last := SweptAtLast(p, a);
    Before(p, s3, es, 3, Aged(p, a), last);
    assert s2.workers - {0} == s3.workers;
    Before(p, s2, es, 2, s3, last);
    Before(p, s1, es, 1, s2, last);
    Before(p, s0, es, 0, s1, last);
  }

  // ----- the windows are exactly right -----

  /** A run that leaks when the windows are too long: a first claim of `a` fails in the
      kernel and goes stale; a sweeper collects it; a second caller records it again and
      adds it just after the sweeper's delete; the sweeper's recheck then finds the
      second claim stale too. */
  function LeakEvents(p: Params, a: Addr): seq<Event> {
    var t2 := p.ttl + 1;
    [Look(0, a), Record(0), Add(0, false), Tick(t2), Collect(1, [a]),
     Look(0, a), Record(0), Tick(t2 + p.addWindow), Delete(1, true), Add(0, true),
     Tick(t2 + p.addWindow + p.untrackWindow), Untrack(1)]
  }

  /** After the sweeper has collected the stale claim. */
  function Collected(p: Params, a: Addr): State {
    State(p.ttl + 1, map[a := 0], {}, {}, map[1 := Sweeping([a])])
  }

  /** The end: the address is on the interface, added by the claimer, and untracked. */
  function Leaked(p: Params, a: Addr): State {
    State(p.ttl + 1 + p.addWindow + p.untrackWindow, map[], {a}, {a}, map[1 := Sweeping([])])
  }

  /** After the second caller has recorded the address again and its add is due. */
  function DueAgain(p: Params, a: Addr): State {
    State(p.ttl + 1 + p.addWindow, map[a := p.ttl + 1], {}, {},
          map[1 := Sweeping([a]), 0 := Recorded(a, p.ttl + 1)])
  }

  lemma LastThird(p: Params, a: Addr)
    requires p.Valid() && p.addWindow + p.untrackWindow > p.ttl
    ensures Leads(p, DueAgain(p, a), LeakEvents(p, a), 8, Leaked(p, a))
  {
    hide Leads;
    var t2, t3, t4 := p.ttl + 1, p.ttl + 1 + p.addWindow, p.ttl + 1 + p.addWindow + p.untrackWindow;
    var s8, s12, es := DueAgain(p, a), Leaked(p, a), LeakEvents(p, a);
    var s9 := State(t3, map[a := t2], {}, {}, map[1 := Deleted(a, t3, []), 0 := Recorded(a, t2)]);
    var s10 := State(t3, map[a := t2], {a}, {a}, map[1 := Deleted(a, t3, [])]);
    var s11 := s10.(now := t4);
    Ends(p, es, s12);
    assert s11.claims - {a} == map[];
    Before(p, s11, es, 11, s12, s12);
    Before(p, s10, es, 10, s11, s12);
    assert s9.workers - {0} == s10.workers;
    Before(p, s9, es, 9, s10, s12);
    assert s8.kernel - {a} == {} && s8.own - {a} == {} && [a][1..] == [];
    Before(p, s8, es, 8, s9, s12);
  }

  lemma MiddleThird(p: Params, a: Addr)
    requires p.Valid() && p.addWindow + p.untrackWindow > p.ttl
    ensures Leads(p, Collected(p, a), LeakEvents(p, a), 5, Leaked(p, a))
  {
    hide Leads, Leaked;
    var t2, s12, es := p.ttl + 1, Leaked(p, a), LeakEvents(p, a);
    var s6 := State(t2, map[a := 0], {}, {}, map[1 := Sweeping([a]), 0 := Looked(a)]);
    var s7 := State(t2, map[a := t2], {}, {}, map[1 := Sweeping([a]), 0 := Recorded(a, t2)]);
    LastThird(p, a);
    Before(p, s7, es, 7, DueAgain(p, a), s12);
    Before(p, s6, es, 6, s7, s12);
    Before(p, Collected(p, a), es, 5, s6, s12);
  }

  lemma LeakHappens(p: Params, a: Addr)
    requires p.Valid() && p.addWindow + p.untrackWindow > p.ttl
    ensures var s := State(0, map[], {}, {}, map[]);
            Leads(p, s, LeakEvents(p, a), 0, Leaked(p, a))
  {
    hide Leads;
    var t2 := p.ttl + 1;
    var s5, s12, es := Collected(p, a), Leaked(p, a), LeakEvents(p, a);
    var s0 := State(0, map[], {}, {}, map[]);
    var s1 := State(0, map[], {}, {}, map[0 := Looked(a)]);
    var s2 := State(0, map[a := 0], {}, {}, map[0 := Recorded(a, 0)]);
    var s3 := State(0, map[a := 0], {}, {}, map[]);
    var s4 := State(t2, map[a := 0], {}, {}, map[]);
    MiddleThird(p, a);
    Before(p, s4, es, 4, s5, s12);
    Before(p, s3, es, 3, s4, s12);
    assert s2.workers - {0} == s3.workers;
    Before(p, s2, es, 2, s3, s12);
    Before(p, s1, es, 1, s2, s12);
    Before(p, s0, es, 0, s1, s12);
  }

  /** Nothing ever leaks, under any interleaving, exactly when the two windows together
      fit in the TTL. */
  lemma NeverLeaksIff(p: Params)
    requires p.Valid()
    ensures NeverLeaks(p) <==> p.addWindow + p.untrackWindow <= p.ttl
  {
    if p.addWindow + p.untrackWindow <= p.ttl {
      forall run: Run, n: nat | IsRun(p, run) && n < |run.states|
        ensures NoLeak(run.states[n])
      {
        ReachableInv(p, run, n);
      }
    } else {
      var a: Addr := [0, 0, 0, 0, 0, 0, 0, 0, 0, 0, 0, 0, 0, 0, 0, 0];
      var s, es := State(0, map[], {}, {}, map[]), LeakEvents(p, a);
      LeakHappens(p, a);
      LeadsIsRun(p, s, es, Leaked(p, a));
      var run := Run(Exec(p, s, es), es);
      assert IsRun(p, run) && !NoLeak(run.states[|es|]);
    }
  }
}
