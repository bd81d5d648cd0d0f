/** Sliced picks of any number of callers. The counter is shared and taken from without the
    lock, so the callers' numbers interleave; still every number is handed out in turn, and
    that decides when two replies can be the same address. */
module SlicedRuns {
  import opened Words
  import opened Addresses
  import opened Mixer
  import opened Streams
  import opened Slices
  import opened SliceTheorems
  import opened Rotation
  import opened Picks

  /** A caller with a candidate in hand: its number, which draw of the run it was, and how
      many times the caller has tried again. */
  datatype Held = Held(acct: Account, dest: Str, n: Word, draw: nat, tries: nat)

  /** The counter, the draws made so far, and the open calls. */
  datatype State = State(hostPick: Word, drawn: nat, calls: map<nat, Held>)

  /** gen() before the lock; again under the lock, when the ring has the address; and the end
      of the call. The ring is whatever it is at that moment. */
  datatype Event =
    | Begin(id: nat, acct: Account, dest: Str)
    | Again(id: nat, recent: seq<Addr>)
    | Finish(id: nat, recent: seq<Addr>)

  /** The address in a caller's hand. */
  function InHand(cfg: Config, h: Held): Addr
    requires cfg.Valid()
  {
    SlicedFor(cfg, h.acct, h.dest, h.n)
  }

  predicate Enabled(cfg: Config, s: State, e: Event)
    requires cfg.Valid()
  {
    match e
    case Begin(id, _, _) => id !in s.calls
    case Again(id, recent) =>
      id in s.calls && s.calls[id].tries < BACKSTOP_RETRIES && InHand(cfg, s.calls[id]) in recent
    case Finish(id, recent) =>
      id in s.calls && (s.calls[id].tries == BACKSTOP_RETRIES || InHand(cfg, s.calls[id]) !in recent)
  }

  function After(cfg: Config, s: State, e: Event): State
    requires cfg.Valid() && Enabled(cfg, s, e)
  {
    var n := Add64(s.hostPick, 1);
    match e
    case Begin(id, acct, dest) =>
      State(n, s.drawn + 1, s.calls[id := Held(acct, dest, n, s.drawn, 0)])
    case Again(id, _) =>
      var h := s.calls[id];
      State(n, s.drawn + 1, s.calls[id := h.(n := n, draw := s.drawn, tries := h.tries + 1)])
    case Finish(id, _) => s.(calls := s.calls - {id})
  }

  datatype Run = Run(states: seq<State>, events: seq<Event>)

  predicate StepAt(cfg: Config, run: Run, i: nat)
    requires cfg.Valid() && |run.states| == |run.events| + 1 && i < |run.events|
  {
    Enabled(cfg, run.states[i], run.events[i]) && run.states[i + 1] == After(cfg, run.states[i], run.events[i])
  }

  predicate IsRun(cfg: Config, run: Run)
    requires cfg.Valid()
  {
    |run.states| == |run.events| + 1
    && run.states[0] == State(0, 0, map[])
    && forall i | 0 <= i < |run.events| :: StepAt(cfg, run, i)
  }

  // ----- the numbers -----

  /** The k-th draw of a run, counted from 0, has number k + 1 on the 64-bit counter, and no
      two callers hold the same draw. */
  predicate InTurn(s: State) {
    && s.hostPick == s.drawn % W64
    && (forall id | id in s.calls ::
          s.calls[id].draw < s.drawn && s.calls[id].n == (s.calls[id].draw + 1) % W64 && s.calls[id].tries <= 3)
    && (forall id, id' | id in s.calls && id' in s.calls && id != id' :: s.calls[id].draw != s.calls[id'].draw)
  }

  lemma NextNumber(n: Word, d: nat)
    requires n == d % W64
    ensures Add64(n, 1) == (d + 1) % W64
  {
  }

  lemma TurnStep(cfg: Config, s: State, e: Event)
    requires cfg.Valid() && InTurn(s) && Enabled(cfg, s, e)
    ensures InTurn(After(cfg, s, e))
  {
    hide SlicedFor, Add64;
    NextNumber(s.hostPick, s.drawn);
  }

  lemma {:induction false} AllInTurn(cfg: Config, run: Run, i: nat)
    requires cfg.Valid() && IsRun(cfg, run) && i < |run.states|
    ensures InTurn(run.states[i])
  {
    hide Enabled, After, InTurn;
    if i == 0 {
      NothingDrawn();
    } else {
      AllInTurn(cfg, run, i - 1);
      assert StepAt(cfg, run, i - 1);
      TurnStep(cfg, run.states[i - 1], run.events[i - 1]);
    }
  }

  lemma NothingDrawn()
    ensures InTurn(State(0, 0, map[]))
  {
  }

  /** No later call holds draw d. */
  predicate Spent(s: State, d: nat) {
    d < s.drawn && forall id | id in s.calls :: s.calls[id].draw != d
  }

  lemma SpentStep(cfg: Config, s: State, e: Event, d: nat)
    requires cfg.Valid() && Spent(s, d) && Enabled(cfg, s, e)
    ensures Spent(After(cfg, s, e), d)
  {
    hide SlicedFor, Add64;
  }

  lemma {:induction false} StaysSpent(cfg: Config, run: Run, d: nat, i: nat, j: nat)
    requires cfg.Valid() && IsRun(cfg, run) && i <= j < |run.states| && Spent(run.states[i], d)
    ensures Spent(run.states[j], d)
    decreases j
  {
    hide Enabled, After, Spent;
    if i < j {
      StaysSpent(cfg, run, d, i, j - 1);
      assert StepAt(cfg, run, j - 1);
      SpentStep(cfg, run.states[j - 1], run.events[j - 1], d);
    }
  }

  /** The caller that step i answers. */
  function Answered(run: Run, i: nat): Held
    requires Answers(run, i)
  {
    run.states[i].calls[run.events[i].id]
  }

  predicate Answers(run: Run, i: nat) {
    |run.states| == |run.events| + 1 && i < |run.events|
    && run.events[i].Finish? && run.events[i].id in run.states[i].calls
  }

  lemma FinishSpends(cfg: Config, s: State, e: Event)
    requires cfg.Valid() && InTurn(s) && Enabled(cfg, s, e) && e.Finish?
    ensures Spent(After(cfg, s, e), s.calls[e.id].draw)
  {
  }

  /** Two answers of a run are two draws, and their numbers are the same exactly when the
      draws are a multiple of 2^64 apart. */
  lemma AnswersDiffer(cfg: Config, run: Run, i: nat, j: nat)
    requires cfg.Valid() && IsRun(cfg, run) && i < j && Answers(run, i) && Answers(run, j)
    ensures var a, b := Answered(run, i), Answered(run, j);
            && a.draw != b.draw && a.draw < run.states[j].drawn && b.draw < run.states[j].drawn
            && (a.n == b.n <==> (a.draw - b.draw) % W64 == 0)
  {
    hide Enabled, After;
    AllInTurn(cfg, run, i);
    AllInTurn(cfg, run, j);
    assert StepAt(cfg, run, i);
    FinishSpends(cfg, run.states[i], run.events[i]);
    StaysSpent(cfg, run, Answered(run, i).draw, i + 1, j);
    SameRemainder(Answered(run, i).draw, Answered(run, j).draw);
  }

  lemma SameRemainder(a: nat, b: nat)
    ensures (a + 1) % W64 == (b + 1) % W64 <==> (a - b) % W64 == 0
  {
  }

  /** Before 2^64 draws no number is used twice. */
  lemma NumbersDiffer(cfg: Config, run: Run, i: nat, j: nat)
    requires cfg.Valid() && IsRun(cfg, run) && i < j && Answers(run, i) && Answers(run, j)
    requires run.states[j].drawn <= W64
    ensures Answered(run, i).n != Answered(run, j).n
  {
    hide IsRun;
    AnswersDiffer(cfg, run, i, j);
  }

  // ----- the addresses -----

  /** The domain of an account at a destination. */
  function At(h: Held): Word { Xor64(h.acct.domain, TweakHost(h.dest)) }

  /** On a wide pool two answers for one account and destination are the same address exactly
      when their draws are a multiple of 2^64 apart, or fall into one subnet with identifiers
      that repair makes equal. */
  lemma AnswersMeetIff(cfg: Config, run: Run, i: nat, j: nat)
    requires cfg.Valid() && cfg.pool.bits < 64
    requires IsRun(cfg, run) && i < j && Answers(run, i) && Answers(run, j)
    requires Answered(run, i).acct == Answered(run, j).acct && Answered(run, i).dest == Answered(run, j).dest
    ensures var a, b, p := Answered(run, i), Answered(run, j), cfg.pool;
            InHand(cfg, a) == InHand(cfg, b)
            <==> || (a.draw - b.draw) % W64 == 0
                 || (SubnetOf(p, a.n, At(a), a.acct.start, a.acct.size)
                     == SubnetOf(p, b.n, At(b), b.acct.start, b.acct.size)
                     && Merged(RawIID(p, a.n, At(a)), RawIID(p, b.n, At(b))))
  {
    hide IsRun, SlicedAddr, SubnetOf, Merged, RawIID, TweakHost, Bitwise;
    AnswersDiffer(cfg, run, i, j);
    var a, b := Answered(run, i), Answered(run, j);
    if a.n != b.n {
      DrawsRepeatIff(cfg.pool, a.n, b.n, At(a), a.acct.start, a.acct.size);
    }
  }

  /** In particular, before 2^64 draws only a repaired identifier can come twice. */
  lemma CleanAnswersDiffer(cfg: Config, run: Run, i: nat, j: nat)
    requires cfg.Valid() && cfg.pool.bits < 64
    requires IsRun(cfg, run) && i < j && Answers(run, i) && Answers(run, j) && run.states[j].drawn <= W64
    requires Answered(run, i).acct == Answered(run, j).acct && Answered(run, i).dest == Answered(run, j).dest
    requires CleanHost(RawIID(cfg.pool, Answered(run, i).n, At(Answered(run, i))), 64)
    requires CleanHost(RawIID(cfg.pool, Answered(run, j).n, At(Answered(run, j))), 64)
    ensures InHand(cfg, Answered(run, i)) != InHand(cfg, Answered(run, j))
  {
    hide IsRun, SlicedAddr, RawIID, TweakHost, Bitwise, CleanHost;
    NumbersDiffer(cfg, run, i, j);
    var a, b := Answered(run, i), Answered(run, j);
    RepeatOnlyAfterRepair(cfg.pool, a.n, b.n, At(a), a.acct.start, a.acct.size);
  }

  /** The host of a narrow pool before repair. */
  function RawNarrow(p: Pool, h: Held): nat
    requires 64 <= p.bits <= 128
  {
    Low(RawHost(SplitMix64(MixKey(p, h.n, At(h))), h.acct.start, h.acct.size), 128 - p.bits)
  }

  /** On a narrow pool they are the same address exactly when their raw hosts are equal or
      repair makes them so. */
  lemma NarrowAnswersMeetIff(cfg: Config, a: Held, b: Held)
    requires cfg.Valid() && 64 <= cfg.pool.bits < 128
    ensures var v, w, total := RawNarrow(cfg.pool, a), RawNarrow(cfg.pool, b), 128 - cfg.pool.bits;
            InHand(cfg, a) == InHand(cfg, b)
            <==> || v == w
                 || (total > 2 && NearReserved(v, total) && NearReserved(w, total))
                 || (total >= 40 && (RepairsOnto(v, w) || RepairsOnto(w, v)))
  {
    hide SlicedAddr, NearReserved, RepairsOnto, TweakHost, Bitwise, SplitMix64, Repaired, Low, RawHost, Pow2;
    var p := cfg.pool;
    SlicedAddrInjective(p, a.n, At(a), a.acct.start, a.acct.size, b.n, At(b), b.acct.start, b.acct.size);
    var v, w := RawNarrow(p, a), RawNarrow(p, b);
    Split(RawHost(SplitMix64(MixKey(p, a.n, At(a))), a.acct.start, a.acct.size), 128 - p.bits);
    Split(RawHost(SplitMix64(MixKey(p, b.n, At(b))), b.acct.start, b.acct.size), 128 - p.bits);
    if v != w {
      SameRepairIff(v, w, 128 - p.bits);
    }
  }
}
