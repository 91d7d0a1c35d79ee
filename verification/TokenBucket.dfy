/** The lock-free token bucket, as a state machine over the accesses of any number of
    threads to the shared time, with 64-bit arithmetic written out. */
module TokenBucket {
  import opened Words

  const HALF := TOP

  datatype Config = Config(perToken: nat, perBurst: nat)

  /** A call in progress: it has read the clock, or it has loaded the shared time and is in
      the retry loop. `base` is what the delay will be added to, `first` the time loaded
      first, `seen` the number of grants made when `oldTime` was loaded. */
  datatype Thread =
    | Entered(tokens: nat, now: nat)
    | Looping(tokens: nat, now: nat, oldTime: nat, base: nat, first: nat, retries: nat, seen: nat)

  /** What a successful call has done, with the time it found and the time it wrote. */
  datatype Grant = Grant(tokens: nat, now: nat, before: nat, after: nat, retries: nat)

  datatype State = State(time: nat, threads: map<nat, Thread>, grants: seq<Grant>)

  datatype Step =
    | Enter(t: nat, tokens: nat, now: nat)
    | Load(t: nat)
    | Refuse(t: nat)
    | Win(t: nat)
    | Lose(t: nat)

  function Delay(cfg: Config, tokens: nat): nat {
    Wrap(tokens * cfg.perToken)
  }

  function MinTime(cfg: Config, now: nat): nat {
    Wrap(now - cfg.perBurst)
  }

  /** Where the first attempt starts: at the shared time, or at the start of a burst. */
  function ClampedBase(cfg: Config, time: nat, now: nat): nat {
    if MinTime(cfg, now) > time then MinTime(cfg, now) else time
  }

  /** The time the next attempt tries to write. */
  function NewTime(cfg: Config, th: Thread): nat
    requires th.Looping?
  {
    Wrap(th.base + Delay(cfg, th.tokens))
  }

  /** The compare-and-swap of `Lose` may fail although nothing has changed. */
  predicate Enabled(cfg: Config, s: State, step: Step) {
    match step
    case Enter(t, tokens, now) => t !in s.threads && tokens < WORD && now < WORD
    case Load(t) => t in s.threads && s.threads[t].Entered?
    case Refuse(t) => t in s.threads && s.threads[t].Looping? && NewTime(cfg, s.threads[t]) > s.threads[t].now
    case Win(t) =>
      && t in s.threads && s.threads[t].Looping? && NewTime(cfg, s.threads[t]) <= s.threads[t].now
      && s.time == s.threads[t].oldTime
    case Lose(t) => t in s.threads && s.threads[t].Looping? && NewTime(cfg, s.threads[t]) <= s.threads[t].now
  }

  function Do(cfg: Config, s: State, step: Step): State
    requires Enabled(cfg, s, step)
  {
    match step
    case Enter(t, tokens, now) => s.(threads := s.threads[t := Entered(tokens, now)])
    case Load(t) =>
      var th := s.threads[t];
      var base := if MinTime(cfg, th.now) > s.time then MinTime(cfg, th.now) else s.time;
      s.(threads := s.threads[t := Looping(th.tokens, th.now, s.time, base, s.time, 0, |s.grants|)])
    case Refuse(t) => s.(threads := s.threads - {t})
    case Win(t) =>
      var th := s.threads[t];
      var after := NewTime(cfg, th);
      State(after, s.threads - {t}, s.grants + [Grant(th.tokens, th.now, s.time, after, th.retries)])
    case Lose(t) =>
      var th := s.threads[t];
      s.(threads := s.threads[t := th.(oldTime := s.time, base := s.time, retries := th.retries + 1, seen := |s.grants|)])
  }

  /** The state after a sequence of steps, if each was possible. */
  datatype Outcome = Stuck | Reached(state: State)

  function Exec(cfg: Config, s: State, steps: seq<Step>): Outcome {
    if steps == [] then Reached(s)
    else
      var o := Exec(cfg, s, steps[..|steps| - 1]);
      var step := steps[|steps| - 1];
      if o.Reached? && Enabled(cfg, o.state, step) then Reached(Do(cfg, o.state, step)) else Stuck
  }

  function Caller(step: Step): nat {
    match step
    case Enter(t, _, _) => t
    case Load(t) => t
    case Refuse(t) => t
    case Win(t) => t
    case Lose(t) => t
  }

  /** A step leaves the calls of all other threads alone, and only a granted attempt changes the
      shared time or the grants: it adds one. */
  lemma StepFrame(cfg: Config, s: State, step: Step)
    requires Enabled(cfg, s, step)
    ensures var s' := Do(cfg, s, step);
            && (forall u :: u != Caller(step) ==>
                              && (u in s'.threads <==> u in s.threads)
                              && (u in s.threads ==> s'.threads[u] == s.threads[u]))
            && (!step.Win? ==> s'.time == s.time && s'.grants == s.grants)
            && (step.Win? ==> s'.grants[..|s'.grants| - 1] == s.grants && s'.time <= s.threads[step.t].now)
  {
  }

  /** What a step does to the call of its own thread: it ends when it is refused or granted, and
      otherwise goes on with the same request, from the shared time as it is now. */
  lemma StepOwn(cfg: Config, s: State, step: Step)
    requires Enabled(cfg, s, step)
    ensures var t, threads := Caller(step), Do(cfg, s, step).threads;
            && (t in threads <==> !step.Refuse? && !step.Win?)
            && (step.Enter? ==> t !in s.threads && threads[t] == Entered(step.tokens, step.now))
            && (step.Load? || step.Lose? ==>
                  && threads[t].Looping? && threads[t].oldTime == s.time <= threads[t].base
                  && threads[t].tokens == s.threads[t].tokens && threads[t].now == s.threads[t].now
                  && threads[t].seen == |s.grants|)
            && (step.Win? ==>
                  var g := Do(cfg, s, step).grants[|s.grants|];
                  && g.tokens == s.threads[t].tokens && g.now == s.threads[t].now && g.retries == s.threads[t].retries
                  && g.before == s.time && g.after == Do(cfg, s, step).time)
            && (step.Load? ==> threads[t].retries == 0 && threads[t].first == s.time)
            && (step.Lose? ==> threads[t].retries == s.threads[t].retries + 1 && threads[t].base == s.time)
  {
  }

  function Start(time: nat): State {
    State(time, map[], [])
  }

  /** Nothing a caller asks for, and no clock reading, comes near the word size; the clock is
      past the length of a burst. */
  ghost predicate Calm(cfg: Config, steps: seq<Step>) {
    forall i :: 0 <= i < |steps| && steps[i].Enter? ==>
                  cfg.perBurst <= steps[i].now < HALF && steps[i].tokens * cfg.perToken < HALF
  }

  // ----- the ledger of grants

  /** The cost of the tokens granted. */
  ghost function Cost(cfg: Config, gs: seq<Grant>): nat {
    if gs == [] then 0 else Cost(cfg, gs[..|gs| - 1]) + gs[|gs| - 1].tokens * cfg.perToken
  }

  ghost function Tokens(gs: seq<Grant>): nat {
    if gs == [] then 0 else Tokens(gs[..|gs| - 1]) + gs[|gs| - 1].tokens
  }

  /** The shared time after the grants. */
  ghost function TimeAfter(time0: nat, gs: seq<Grant>): nat {
    if gs == [] then time0 else gs[|gs| - 1].after
  }

  /** Each grant starts from the time left by the one before, raises it by at least the cost
      of its tokens, and leaves it at or below its caller's clock. */
  ghost predicate Ledger(cfg: Config, time0: nat, gs: seq<Grant>) {
    forall i :: 0 <= i < |gs| ==>
                  && gs[i].before == TimeAfter(time0, gs[..i])
                  && gs[i].before + gs[i].tokens * cfg.perToken <= gs[i].after <= gs[i].now
                  && cfg.perBurst <= gs[i].now
  }

  // ----- the invariant

  ghost predicate CalmCall(cfg: Config, tokens: nat, now: nat) {
    cfg.perBurst <= now < HALF && tokens * cfg.perToken < HALF
  }

  ghost predicate ThreadOk(cfg: Config, time0: nat, s: State, th: Thread) {
    && CalmCall(cfg, th.tokens, th.now)
    && (th.Looping? ==>
          && th.first <= th.oldTime <= s.time
          && th.seen <= |s.grants| && th.oldTime == TimeAfter(time0, s.grants[..th.seen])
          && th.base < HALF
          && th.base == (if th.retries == 0 && th.now - cfg.perBurst > th.oldTime
                         then th.now - cfg.perBurst else th.oldTime))
  }

  ghost predicate Inv(cfg: Config, time0: nat, s: State) {
    && time0 <= s.time < HALF
    && s.time == TimeAfter(time0, s.grants)
    && Ledger(cfg, time0, s.grants)
    && forall t :: t in s.threads ==> ThreadOk(cfg, time0, s, s.threads[t])
  }

  /** More grants and a later time change nothing for a call in progress. */
  lemma ThreadKeeps(cfg: Config, time0: nat, s: State, s': State, th: Thread)
    requires ThreadOk(cfg, time0, s, th)
    requires s.time <= s'.time && s.grants <= s'.grants
    ensures ThreadOk(cfg, time0, s', th)
  {
    if th.Looping? {
      assert s'.grants[..th.seen] == s.grants[..th.seen];
    }
  }

  lemma LoadKeeps(cfg: Config, time0: nat, s: State, t: nat)
    requires Inv(cfg, time0, s) && Enabled(cfg, s, Load(t))
    ensures Inv(cfg, time0, Do(cfg, s, Load(t)))
  {
    assert ThreadOk(cfg, time0, s, s.threads[t]);
    assert s.grants[..|s.grants|] == s.grants;
  }

  lemma LoseKeeps(cfg: Config, time0: nat, s: State, t: nat)
    requires Inv(cfg, time0, s) && Enabled(cfg, s, Lose(t))
    ensures Inv(cfg, time0, Do(cfg, s, Lose(t)))
  {
    assert ThreadOk(cfg, time0, s, s.threads[t]);
    assert s.grants[..|s.grants|] == s.grants;
  }

  /** Without wrap-around a grant is worth its tokens: it writes the base plus their cost. */
  lemma WinWrites(cfg: Config, time0: nat, s: State, t: nat)
    requires Inv(cfg, time0, s) && Enabled(cfg, s, Win(t))
    ensures var th, s' := s.threads[t], Do(cfg, s, Win(t));
            && s'.time == th.base + th.tokens * cfg.perToken <= th.now && cfg.perBurst <= th.now
            && s.time + th.tokens * cfg.perToken <= s'.time < HALF
  {
    assert ThreadOk(cfg, time0, s, s.threads[t]);
  }

  lemma LedgerExtend(cfg: Config, time0: nat, gs: seq<Grant>, g: Grant)
    requires Ledger(cfg, time0, gs)
    requires g.before == TimeAfter(time0, gs) && g.before + g.tokens * cfg.perToken <= g.after <= g.now
    requires cfg.perBurst <= g.now
    ensures Ledger(cfg, time0, gs + [g])
  {
    forall i | 0 <= i <= |gs| ensures (gs + [g])[..i] == gs[..i] {
    }
    assert gs[..|gs|] == gs;
  }

  lemma WinKeeps(cfg: Config, time0: nat, s: State, t: nat)
    requires Inv(cfg, time0, s) && Enabled(cfg, s, Win(t))
    ensures Inv(cfg, time0, Do(cfg, s, Win(t)))
  {
    hide NewTime, Ledger, ThreadOk;
    var s' := Do(cfg, s, Win(t));
    WinWrites(cfg, time0, s, t);
    LedgerExtend(cfg, time0, s.grants, s'.grants[|s.grants|]);
    forall u | u in s'.threads ensures ThreadOk(cfg, time0, s', s'.threads[u]) {
      ThreadKeeps(cfg, time0, s, s', s.threads[u]);
    }
  }

  lemma InvStep(cfg: Config, time0: nat, s: State, step: Step)
    requires Inv(cfg, time0, s) && Enabled(cfg, s, step)
    requires step.Enter? ==> CalmCall(cfg, step.tokens, step.now)
    ensures Inv(cfg, time0, Do(cfg, s, step))
  {
    match step
    case Enter(t, tokens, now) =>
    case Load(t) => LoadKeeps(cfg, time0, s, t);
    case Refuse(t) =>
    case Win(t) => WinKeeps(cfg, time0, s, t);
    case Lose(t) => LoseKeeps(cfg, time0, s, t);
  }

  /** Every reachable state, whatever the interleaving. */
  lemma {:induction false} InvReachable(cfg: Config, time0: nat, steps: seq<Step>)
    requires time0 < HALF && Calm(cfg, steps) && Exec(cfg, Start(time0), steps).Reached?
    ensures Inv(cfg, time0, Exec(cfg, Start(time0), steps).state)
  {
    if steps != [] {
      var n := |steps| - 1;
      InvReachable(cfg, time0, steps[..n]);
      InvStep(cfg, time0, Exec(cfg, Start(time0), steps[..n]).state, steps[n]);
    }
  }

  // ----- safety over whole runs

  /** The shared time never decreases. */
  lemma TimeNeverDecreases(cfg: Config, time0: nat, steps: seq<Step>, step: Step)
    requires time0 < HALF && Calm(cfg, steps + [step]) && Exec(cfg, Start(time0), steps + [step]).Reached?
    ensures Exec(cfg, Start(time0), steps).Reached?
    ensures Exec(cfg, Start(time0), steps).state.time <= Exec(cfg, Start(time0), steps + [step]).state.time
  {
    hide NewTime, Inv;
    var run := steps + [step];
    assert run[..|steps|] == steps && run[|steps|] == step;
    forall i | 0 <= i < |steps| ensures steps[i] == run[i] {
    }
    InvReachable(cfg, time0, steps);
    var s := Exec(cfg, Start(time0), steps).state;
    if step.Win? {
      WinWrites(cfg, time0, s, step.t);
    }
  }

  /** The cost of a number of grants is at most what they have moved the time. */
  lemma {:induction false} CostBound(cfg: Config, time0: nat, gs: seq<Grant>)
    requires Ledger(cfg, time0, gs)
    ensures time0 + Cost(cfg, gs) <= TimeAfter(time0, gs)
  {
    if gs != [] {
      var n := |gs| - 1;
      LedgerPrefix(cfg, time0, gs, n);
      CostBound(cfg, time0, gs[..n]);
    }
  }

  lemma LedgerPrefix(cfg: Config, time0: nat, gs: seq<Grant>, n: nat)
    requires Ledger(cfg, time0, gs) && n <= |gs|
    ensures Ledger(cfg, time0, gs[..n])
  {
    forall i | 0 <= i < n ensures gs[..n][..i] == gs[..i] {
    }
  }

  lemma LedgerEntry(cfg: Config, time0: nat, gs: seq<Grant>, i: nat)
    requires Ledger(cfg, time0, gs) && i < |gs|
    ensures gs[i].before == TimeAfter(time0, gs[..i])
    ensures gs[i].before + gs[i].tokens * cfg.perToken <= gs[i].after <= gs[i].now && cfg.perBurst <= gs[i].now
  {
  }

  lemma {:induction false} CostIsTokens(cfg: Config, gs: seq<Grant>)
    ensures Cost(cfg, gs) == Tokens(gs) * cfg.perToken
  {
    if gs != [] {
      var n := |gs| - 1;
      CostIsTokens(cfg, gs[..n]);
      assert (Tokens(gs[..n]) + gs[n].tokens) * cfg.perToken == Tokens(gs[..n]) * cfg.perToken + gs[n].tokens * cfg.perToken;
    }
  }

  /** The tokens of two lots of grants are those of both together, and one grant's are its own. */
  lemma {:induction false} TokensTogether(a: seq<Grant>, b: seq<Grant>)
    ensures Tokens(a + b) == Tokens(a) + Tokens(b)
    ensures |b| == 1 ==> Tokens(b) == b[0].tokens
  {
    if b == [] {
      assert a + b == a;
    } else {
      var n := |b| - 1;
      assert (a + b)[..|a + b| - 1] == a + b[..n];
      TokensTogether(a, b[..n]);
    }
  }

  /** In every interleaving, with any number of failed attempts: the tokens granted so far,
      times the time per token, are at most the time elapsed between the initial shared time
      and the clock of the last caller served. */
  lemma RateBound(cfg: Config, time0: nat, steps: seq<Step>)
    requires time0 < HALF && Calm(cfg, steps) && Exec(cfg, Start(time0), steps).Reached?
    ensures var s := Exec(cfg, Start(time0), steps).state;
            && Ledger(cfg, time0, s.grants)
            && Tokens(s.grants) * cfg.perToken <= s.time - time0
            && (s.grants != [] ==> Tokens(s.grants) * cfg.perToken <= s.grants[|s.grants| - 1].now - time0)
  {
    InvReachable(cfg, time0, steps);
    var s := Exec(cfg, Start(time0), steps).state;
    CostBound(cfg, time0, s.grants);
    CostIsTokens(cfg, s.grants);
  }

  // ----- bursts

  /** The grant has not gone below the start of its caller's burst. */
  ghost predicate Clamped(cfg: Config, g: Grant) {
    g.after >= g.now - cfg.perBurst + g.tokens * cfg.perToken
  }

  /** A grant that costs nothing, or is clamped, cannot break a burst. */
  ghost predicate Harmless(cfg: Config, g: Grant) {
    g.tokens * cfg.perToken == 0 || Clamped(cfg, g)
  }

  ghost predicate InWindow(g: Grant, t1: nat, t2: nat) {
    t1 <= g.now <= t2
  }

  /** The cost of the grants whose callers' clocks lie between t1 and t2. */
  ghost function WindowCost(cfg: Config, gs: seq<Grant>, t1: nat, t2: nat): nat {
    if gs == [] then 0
    else
      var last := gs[|gs| - 1];
      WindowCost(cfg, gs[..|gs| - 1], t1, t2) + if InWindow(last, t1, t2) then last.tokens * cfg.perToken else 0
  }

  /** A window that covers every clock costs all the tokens granted, one that covers none nothing. */
  lemma {:induction false} WindowOfAll(cfg: Config, gs: seq<Grant>, t1: nat, t2: nat)
    ensures (forall i :: 0 <= i < |gs| ==> InWindow(gs[i], t1, t2)) ==>
              WindowCost(cfg, gs, t1, t2) == Tokens(gs) * cfg.perToken
    ensures (forall i :: 0 <= i < |gs| ==> !InWindow(gs[i], t1, t2)) ==> WindowCost(cfg, gs, t1, t2) == 0
  {
    if gs != [] {
      var n := |gs| - 1;
      WindowOfAll(cfg, gs[..n], t1, t2);
      assert (Tokens(gs[..n]) + gs[n].tokens) * cfg.perToken == Tokens(gs[..n]) * cfg.perToken + gs[n].tokens * cfg.perToken;
    }
  }

  /** The cost of a window is covered by the time between the start of the first burst in it
      and what the grants have moved the time to. */
  lemma {:induction false} WindowCovered(cfg: Config, time0: nat, gs: seq<Grant>, t1: nat, t2: nat)
    requires Ledger(cfg, time0, gs)
    requires forall i :: 0 <= i < |gs| && InWindow(gs[i], t1, t2) ==> Harmless(cfg, gs[i])
    ensures WindowCost(cfg, gs, t1, t2) == 0
         || WindowCost(cfg, gs, t1, t2) <= TimeAfter(time0, gs) - t1 + cfg.perBurst
    ensures t1 <= t2 ==> WindowCost(cfg, gs, t1, t2) <= cfg.perBurst + (t2 - t1)
  {
    hide Ledger;
    if gs != [] {
      var n := |gs| - 1;
      LedgerPrefix(cfg, time0, gs, n);
      LedgerEntry(cfg, time0, gs, n);
      WindowCovered(cfg, time0, gs[..n], t1, t2);
    }
  }

  /** In every run whose grants are clamped, the tokens granted to callers with clocks in a
      window cost at most a burst plus the length of the window: for every window. */
  lemma BurstBound(cfg: Config, time0: nat, steps: seq<Step>, t1: nat, t2: nat)
    requires time0 < HALF && Calm(cfg, steps) && Exec(cfg, Start(time0), steps).Reached? && t1 <= t2
    requires forall g :: g in Exec(cfg, Start(time0), steps).state.grants && InWindow(g, t1, t2) ==> Harmless(cfg, g)
    ensures WindowCost(cfg, Exec(cfg, Start(time0), steps).state.grants, t1, t2) <= cfg.perBurst + (t2 - t1)
  {
    InvReachable(cfg, time0, steps);
    WindowCovered(cfg, time0, Exec(cfg, Start(time0), steps).state.grants, t1, t2);
  }

  /** Exactly when a grant is clamped: it is made at the first attempt, or the time it was
      reloaded with is not before the burst. The retry does not clamp again. */
  lemma ClampedExactly(cfg: Config, time0: nat, s: State, t: nat)
    requires Inv(cfg, time0, s) && Enabled(cfg, s, Win(t))
    ensures var th, s' := s.threads[t], Do(cfg, s, Win(t));
            Clamped(cfg, s'.grants[|s'.grants| - 1]) <==> th.retries == 0 || th.oldTime >= th.now - cfg.perBurst
  {
    assert ThreadOk(cfg, time0, s, s.threads[t]);
  }

  /** Without a lost attempt every call stands at its first one, and every grant is clamped. */
  lemma {:induction false} FirstTriesClamped(cfg: Config, time0: nat, steps: seq<Step>)
    requires time0 < HALF && Calm(cfg, steps) && Exec(cfg, Start(time0), steps).Reached?
    requires forall i :: 0 <= i < |steps| ==> !steps[i].Lose?
    ensures var s := Exec(cfg, Start(time0), steps).state;
            && (forall t :: t in s.threads && s.threads[t].Looping? ==> s.threads[t].retries == 0)
            && (forall g :: g in s.grants ==> Clamped(cfg, g))
  {
    hide NewTime, Inv;
    if steps != [] {
      var n := |steps| - 1;
      FirstTriesClamped(cfg, time0, steps[..n]);
      InvReachable(cfg, time0, steps[..n]);
      if steps[n].Win? {
        ClampedExactly(cfg, time0, Exec(cfg, Start(time0), steps[..n]).state, steps[n].t);
      }
    }
  }

  /** In particular, the burst bound holds in every run where attempts succeed at once. */
  lemma FirstTryBurstBound(cfg: Config, time0: nat, steps: seq<Step>, t1: nat, t2: nat)
    requires time0 < HALF && Calm(cfg, steps) && Exec(cfg, Start(time0), steps).Reached? && t1 <= t2
    requires forall i :: 0 <= i < |steps| ==> !steps[i].Lose?
    ensures WindowCost(cfg, Exec(cfg, Start(time0), steps).state.grants, t1, t2) <= cfg.perBurst + (t2 - t1)
  {
    FirstTriesClamped(cfg, time0, steps);
    BurstBound(cfg, time0, steps, t1, t2);
  }

  // ----- termination of the retry loop

  /** The failed attempts of every call in progress so far, if none was spurious: each one
      loaded a later time, and none came after the clock. */
  ghost predicate RetriesOk(th: Thread) {
    th.Looping? ==>
      && th.first + th.retries <= th.oldTime
      && (th.retries > 0 ==> th.first + th.retries <= th.now + 1)
  }

  /** Every lost attempt is due to a change of the shared time. */
  ghost predicate Genuine(cfg: Config, s: State, step: Step)
    requires Enabled(cfg, s, step)
  {
    step.Lose? ==> s.time != s.threads[step.t].oldTime
  }

  ghost predicate GenuineRun(cfg: Config, s: State, steps: seq<Step>) {
    steps != [] ==>
      && GenuineRun(cfg, s, steps[..|steps| - 1])
      && Exec(cfg, s, steps).Reached?
      && Genuine(cfg, Exec(cfg, s, steps[..|steps| - 1]).state, steps[|steps| - 1])
  }

  /** A genuine failure loads a strictly later time, and means that some other call has been
      granted since the last load. */
  lemma GenuineFailure(cfg: Config, time0: nat, s: State, t: nat)
    requires Inv(cfg, time0, s) && Enabled(cfg, s, Lose(t)) && Genuine(cfg, s, Lose(t))
    ensures Do(cfg, s, Lose(t)).threads[t].oldTime > s.threads[t].oldTime
    ensures |s.grants| > s.threads[t].seen
  {
    var th := s.threads[t];
    assert ThreadOk(cfg, time0, s, th);
    assert s.grants[..|s.grants|] == s.grants;
  }

  lemma LoseCounts(cfg: Config, time0: nat, s: State, t: nat)
    requires Inv(cfg, time0, s) && Enabled(cfg, s, Lose(t)) && Genuine(cfg, s, Lose(t))
    requires RetriesOk(s.threads[t])
    ensures RetriesOk(Do(cfg, s, Lose(t)).threads[t])
  {
    hide Wrap, Delay, Ledger, TimeAfter;
    GenuineFailure(cfg, time0, s, t);
    NotBelowLoaded(cfg, time0, s, s.threads[t]);
  }

  /** An attempt never tries to write less than the time loaded. */
  lemma NotBelowLoaded(cfg: Config, time0: nat, s: State, th: Thread)
    requires ThreadOk(cfg, time0, s, th) && th.Looping?
    ensures th.first <= th.oldTime <= NewTime(cfg, th)
  {
  }

  /** In every interleaving without spurious failures, a call retries at most as often as
      there are instants from the time it loaded first up to its clock. */
  lemma {:induction false} RetriesBounded(cfg: Config, time0: nat, steps: seq<Step>)
    requires time0 < HALF && Calm(cfg, steps) && Exec(cfg, Start(time0), steps).Reached?
    requires GenuineRun(cfg, Start(time0), steps)
    ensures var s := Exec(cfg, Start(time0), steps).state;
            forall t :: t in s.threads ==> RetriesOk(s.threads[t])
  {
    hide NewTime, Inv;
    if steps != [] {
      var n := |steps| - 1;
      RetriesBounded(cfg, time0, steps[..n]);
      InvReachable(cfg, time0, steps[..n]);
      var s := Exec(cfg, Start(time0), steps[..n]).state;
      if steps[n].Lose? {
        LoseCounts(cfg, time0, s, steps[n].t);
      }
    }
  }

  /** A call can always go on, and without a spurious failure in exactly one way: it is refused, it
      wins, or the shared time has changed and it retries. */
  lemma NeverStuck(cfg: Config, s: State, t: nat)
    requires t in s.threads
    ensures exists step :: step in {Load(t), Refuse(t), Win(t), Lose(t)} && Enabled(cfg, s, step) && Genuine(cfg, s, step)
    ensures forall a, b ::
              (Caller(a) == t == Caller(b)
               && Enabled(cfg, s, a) && Enabled(cfg, s, b) && Genuine(cfg, s, a) && Genuine(cfg, s, b)) ==> a == b
  {
    hide NewTime;
    var th := s.threads[t];
    var step :=
      if th.Entered? then Load(t)
      else if NewTime(cfg, th) > th.now then Refuse(t)
      else if s.time == th.oldTime then Win(t)
      else Lose(t);
    assert Enabled(cfg, s, step) && Genuine(cfg, s, step);
  }

  // ----- the limits of the bounds

  lemma NoStep(cfg: Config, s0: State)
    ensures Exec(cfg, s0, []) == Reached(s0) && GenuineRun(cfg, s0, [])
  {
  }

  /** One more step of a run without spurious failures. */
  lemma Then(cfg: Config, s0: State, steps: seq<Step>, s: State, step: Step)
    requires Exec(cfg, s0, steps) == Reached(s) && Enabled(cfg, s, step)
    ensures Exec(cfg, s0, steps + [step]) == Reached(Do(cfg, s, step))
    ensures GenuineRun(cfg, s0, steps) && Genuine(cfg, s, step) ==> GenuineRun(cfg, s0, steps + [step])
  {
    assert (steps + [step])[..|steps|] == steps;
  }

  /** What holds of every reachable state, whatever callers ask for. */
  ghost predicate InWords(cfg: Config, s: State) {
    && s.time < WORD
    && forall t :: t in s.threads ==>
                     var th := s.threads[t];
                     && th.now < WORD && th.tokens < WORD
                     && (th.Looping? ==>
                           && th.oldTime < WORD
                           && th.base == if th.retries == 0 then ClampedBase(cfg, th.oldTime, th.now) else th.oldTime)
  }

  lemma {:induction false} InWordsReachable(cfg: Config, time0: nat, steps: seq<Step>)
    requires time0 < WORD && Exec(cfg, Start(time0), steps).Reached?
    ensures InWords(cfg, Exec(cfg, Start(time0), steps).state)
  {
    if steps != [] {
      InWordsReachable(cfg, time0, steps[..|steps| - 1]);
    }
  }

  /** The last step of a run. */
  lemma Back(cfg: Config, s0: State, steps: seq<Step>, step: Step)
    requires Exec(cfg, s0, steps + [step]).Reached?
    ensures Exec(cfg, s0, steps).Reached? && Enabled(cfg, Exec(cfg, s0, steps).state, step)
    ensures Exec(cfg, s0, steps + [step]) == Reached(Do(cfg, Exec(cfg, s0, steps).state, step))
  {
    assert (steps + [step])[..|steps|] == steps;
  }

  /** Exactly when a grant raises the shared time by the cost of its tokens, in 64-bit
      arithmetic and in every run, calm or not: when the sum fits the word. */
  lemma PaidExactly(cfg: Config, time0: nat, steps: seq<Step>, t: nat)
    requires time0 < WORD && Exec(cfg, Start(time0), steps).Reached?
    requires Enabled(cfg, Exec(cfg, Start(time0), steps).state, Win(t))
    ensures var s := Exec(cfg, Start(time0), steps).state;
            var th, s' := s.threads[t], Do(cfg, s, Win(t));
            s'.time >= s.time + th.tokens * cfg.perToken <==> th.base + th.tokens * cfg.perToken < WORD
  {
    InWordsReachable(cfg, time0, steps);
    PaidByWord(cfg, Exec(cfg, Start(time0), steps).state, t);
  }

  lemma PaidByWord(cfg: Config, s: State, t: nat)
    requires InWords(cfg, s) && Enabled(cfg, s, Win(t))
    ensures var th, s' := s.threads[t], Do(cfg, s, Win(t));
            s'.time >= s.time + th.tokens * cfg.perToken <==> th.base + th.tokens * cfg.perToken < WORD
  {
    hide Wrap;
    var th := s.threads[t];
    WrapPays(s.time, th.base, th.tokens * cfg.perToken);
  }

  lemma WrapPays(time: nat, base: nat, cost: nat)
    requires time <= base < WORD
    ensures Wrap(base + Wrap(cost)) >= time + cost <==> base + cost < WORD
    ensures Wrap(base + Wrap(cost)) <= base + cost
  {
  }

  /** An attempt from `base` is refused or pays. */
  ghost predicate Pays(cfg: Config, time: nat, tokens: nat, now: nat, base: nat) {
    var after := Wrap(base + Delay(cfg, tokens));
    after <= now ==> after >= time + tokens * cfg.perToken
  }

  /** Exactly which calls pay for what they are granted, at the first attempt and at a retry,
      whatever time up to their clock they find: a condition on the request and the clock. */
  lemma AlwaysPaidExactly(cfg: Config, tokens: nat, now: nat)
    requires cfg.perBurst <= now < WORD
    ensures (forall time: nat :: time <= now ==>
                                   && Pays(cfg, time, tokens, now, ClampedBase(cfg, time, now))
                                   && Pays(cfg, time, tokens, now, time))
        <==> now + Delay(cfg, tokens) < WORD && (tokens * cfg.perToken < WORD || Delay(cfg, tokens) > now)
  {
    var cost, delay := tokens * cfg.perToken, Delay(cfg, tokens);
    DelayOf(cfg, tokens);
    WrapOnce(now + delay);
    hide Delay, Wrap;
    if now + delay >= WORD {
      assert !Pays(cfg, now, tokens, now, now);
    } else if cost >= WORD && delay <= now {
      assert !Pays(cfg, now - delay, tokens, now, now - delay);
    } else {
      forall time: nat | time <= now
        ensures Pays(cfg, time, tokens, now, ClampedBase(cfg, time, now)) && Pays(cfg, time, tokens, now, time)
      {
        assert time <= ClampedBase(cfg, time, now) <= now;
      }
    }
  }

  lemma WrapOnce(x: nat)
    requires x < 2 * WORD
    ensures Wrap(x) == if x < WORD then x else x - WORD
  {
  }

  /** What is left of the cost in a word. */
  lemma DelayOf(cfg: Config, tokens: nat)
    ensures var cost, delay := tokens * cfg.perToken, Delay(cfg, tokens);
            if cost < WORD then delay == cost else delay <= cost - WORD
  {
  }

  /** Asking for nearly 2^64 tokens wraps around and is granted out of a burst of ten. */
  lemma OverflowIsGranted()
    ensures var o := Exec(Config(1, 10), Start(100), [Enter(0, WORD - 50, 1000), Load(0), Win(0)]);
            && o.Reached? && o.state.time == 940
            && o.state.grants == [Grant(WORD - 50, 1000, 100, 940, 0)]
  {
    var cfg, s0 := Config(1, 10), Start(100);
    var s1 := State(100, map[0 := Entered(WORD - 50, 1000)], []);
    var s2 := State(100, map[0 := Looping(WORD - 50, 1000, 100, 990, 100, 0, 0)], []);
    Then(cfg, s0, [], s0, Enter(0, WORD - 50, 1000));
    Then(cfg, s0, [] + [Enter(0, WORD - 50, 1000)], s1, Load(0));
    Then(cfg, s0, [] + [Enter(0, WORD - 50, 1000)] + [Load(0)], s2, Win(0));
    assert [] + [Enter(0, WORD - 50, 1000)] + [Load(0)] + [Win(0)] == [Enter(0, WORD - 50, 1000), Load(0), Win(0)];
  }

  /** A caller with an early clock is served between the load and the attempt of one with a
      late clock; the second attempt of the latter is not clamped. */
  function UnclampedRun(): seq<Step> {
    [Enter(1, 1, 20), Enter(0, 10, 1000), Load(0), Load(1), Win(1), Lose(0), Win(0)]
  }

  lemma UnclampedRunStarts()
    ensures var cfg, run := Config(1, 10), UnclampedRun();
            && GenuineRun(cfg, Start(0), run[..4])
            && Exec(cfg, Start(0), run[..4])
               == Reached(State(0, map[1 := Looping(1, 20, 0, 10, 0, 0, 0), 0 := Looping(10, 1000, 0, 990, 0, 0, 0)], []))
  {
    var cfg, s0 := Config(1, 10), Start(0);
    var e0, e1 := Entered(10, 1000), Entered(1, 20);
    var l0 := Looping(10, 1000, 0, 990, 0, 0, 0);
    var run := UnclampedRun();
    hide Exec, GenuineRun;
    NoStep(cfg, s0);
    Then(cfg, s0, run[..0], s0, run[0]);
    assert run[..0] + [run[0]] == run[..1];
    Then(cfg, s0, run[..1], State(0, map[1 := e1], []), run[1]);
    assert run[..1] + [run[1]] == run[..2];
    Then(cfg, s0, run[..2], State(0, map[1 := e1, 0 := e0], []), run[2]);
    assert run[..2] + [run[2]] == run[..3];
    Then(cfg, s0, run[..3], State(0, map[1 := e1, 0 := l0], []), run[3]);
    assert run[..3] + [run[3]] == run[..4];
  }

  lemma UnclampedRunGoesOn()
    ensures var cfg, run := Config(1, 10), UnclampedRun();
            && GenuineRun(cfg, Start(0), run[..6])
            && Exec(cfg, Start(0), run[..6])
               == Reached(State(11, map[0 := Looping(10, 1000, 11, 11, 0, 1, 1)], [Grant(1, 20, 0, 11, 0)]))
  {
    var cfg, s0 := Config(1, 10), Start(0);
    var l0, l1 := Looping(10, 1000, 0, 990, 0, 0, 0), Looping(1, 20, 0, 10, 0, 0, 0);
    var run := UnclampedRun();
    hide Exec, GenuineRun;
    UnclampedRunStarts();
    Then(cfg, s0, run[..4], State(0, map[1 := l1, 0 := l0], []), run[4]);
    assert run[..4] + [run[4]] == run[..5];
    assert map[1 := l1, 0 := l0] - {1} == map[0 := l0];
    Then(cfg, s0, run[..5], State(11, map[0 := l0], [Grant(1, 20, 0, 11, 0)]), run[5]);
    assert run[..5] + [run[5]] == run[..6];
  }

  lemma UnclampedRunExists()
    ensures var cfg := Config(1, 10);
            && Calm(cfg, UnclampedRun()) && GenuineRun(cfg, Start(0), UnclampedRun())
            && Exec(cfg, Start(0), UnclampedRun())
               == Reached(State(21, map[], [Grant(1, 20, 0, 11, 0), Grant(10, 1000, 11, 21, 1)]))
            && !Clamped(cfg, Grant(10, 1000, 11, 21, 1))
  {
    var cfg, s0 := Config(1, 10), Start(0);
    var r0, g1 := Looping(10, 1000, 11, 11, 0, 1, 1), Grant(1, 20, 0, 11, 0);
    var run := UnclampedRun();
    hide Exec, GenuineRun;
    UnclampedRunGoesOn();
    Then(cfg, s0, run[..6], State(11, map[0 := r0], [g1]), run[6]);
    assert run[..6] + [run[6]] == run[..7] == run;
    assert map[0 := r0] - {0} == map[];
  }

  /** Where a call by a fresh thread starts counting: the shared time, or the start of a burst. */
  ghost function BaseAt(cfg: Config, s: State, now: nat): nat
    requires cfg.perBurst <= now
  {
    if now - cfg.perBurst > s.time then now - cfg.perBurst else s.time
  }

  function CallAt(t: nat, tokens: nat, now: nat): seq<Step> {
    [Enter(t, tokens, now), Load(t), Win(t)]
  }

  /** Without wrap-around the first attempt of a call writes its base plus the cost. */
  lemma CalmAttempt(cfg: Config, s: State, tokens: nat, now: nat, th: Thread)
    requires s.time < HALF && cfg.perBurst <= now < HALF
    requires th.Looping? && th.tokens == tokens && th.base == BaseAt(cfg, s, now)
    requires BaseAt(cfg, s, now) + tokens * cfg.perToken <= now
    ensures MinTime(cfg, now) == now - cfg.perBurst
    ensures NewTime(cfg, th) == BaseAt(cfg, s, now) + tokens * cfg.perToken
  {
  }

  lemma CalmCallAt(cfg: Config, t: nat, tokens: nat, now: nat)
    requires CalmCall(cfg, tokens, now)
    ensures Calm(cfg, CallAt(t, tokens, now))
  {
  }

  /** A call that meets no other is granted at its first attempt what is left of the burst. */
  lemma LoneCall(cfg: Config, s: State, t: nat, tokens: nat, now: nat)
    requires t !in s.threads && s.time < HALF && cfg.perBurst <= now < HALF && tokens < WORD
    requires BaseAt(cfg, s, now) + tokens * cfg.perToken <= now
    ensures var o := Exec(cfg, s, CallAt(t, tokens, now));
            && o.Reached? && GenuineRun(cfg, s, CallAt(t, tokens, now))
            && o.state.grants == s.grants + [Grant(tokens, now, s.time, BaseAt(cfg, s, now) + tokens * cfg.perToken, 0)]
  {
    hide Exec, GenuineRun, NewTime, MinTime;
    NoStep(cfg, s);
    var e := Entered(tokens, now);
    var l := Looping(tokens, now, s.time, BaseAt(cfg, s, now), s.time, 0, |s.grants|);
    var s1 := s.(threads := s.threads[t := e]);
    var s2 := s.(threads := s.threads[t := e][t := l]);
    CalmAttempt(cfg, s, tokens, now, l);
    Then(cfg, s, [], s, Enter(t, tokens, now));
    assert [] + [Enter(t, tokens, now)] == [Enter(t, tokens, now)];
    Then(cfg, s, [Enter(t, tokens, now)], s1, Load(t));
    assert [Enter(t, tokens, now)] + [Load(t)] == [Enter(t, tokens, now), Load(t)];
    Then(cfg, s, [Enter(t, tokens, now), Load(t)], s2, Win(t));
    assert [Enter(t, tokens, now), Load(t)] + [Win(t)] == CallAt(t, tokens, now);
  }

  /** One run after another. */
  lemma {:induction false} Continue(cfg: Config, s0: State, a: seq<Step>, s: State, b: seq<Step>)
    requires Exec(cfg, s0, a) == Reached(s) && Exec(cfg, s, b).Reached?
    ensures Exec(cfg, s0, a + b) == Exec(cfg, s, b)
    ensures GenuineRun(cfg, s0, a) && GenuineRun(cfg, s, b) ==> GenuineRun(cfg, s0, a + b)
  {
    if b == [] {
      assert a + b == a;
    } else {
      var n := |b| - 1;
      Continue(cfg, s0, a, s, b[..n]);
      assert (a + b)[..|a + b| - 1] == a + b[..n];
    }
  }

  /** The burst bound is false of a run without spurious failures: the run above, and one more
      caller at the same clock. Twenty tokens are granted at one instant, out of a burst of ten. */
  lemma BurstBroken()
    ensures var cfg, run := Config(1, 10), UnclampedRun() + CallAt(2, 10, 1000);
            && Calm(cfg, run) && GenuineRun(cfg, Start(0), run) && Exec(cfg, Start(0), run).Reached?
            && WindowCost(cfg, Exec(cfg, Start(0), run).state.grants, 1000, 1000) == 20
  {
    var cfg, s0, call := Config(1, 10), Start(0), CallAt(2, 10, 1000);
    var g1, g2, g3 := Grant(1, 20, 0, 11, 0), Grant(10, 1000, 11, 21, 1), Grant(10, 1000, 21, 1000, 0);
    var s := State(21, map[], [g1, g2]);
    BrokenRunCalm();
    hide Exec, GenuineRun, NewTime, WindowCost, Calm;
    UnclampedRunExists();
    LoneCall(cfg, s, 2, 10, 1000);
    Continue(cfg, s0, UnclampedRun(), s, call);
    assert [g1, g2] + [g3] == [g1, g2, g3];
    BrokenWindow();
  }

  lemma BrokenRunCalm()
    ensures Calm(Config(1, 10), UnclampedRun() + CallAt(2, 10, 1000))
  {
  }

  lemma BrokenWindow()
    ensures var gs := [Grant(1, 20, 0, 11, 0), Grant(10, 1000, 11, 21, 1), Grant(10, 1000, 21, 1000, 0)];
            WindowCost(Config(1, 10), gs, 1000, 1000) == 20
  {
    var gs := [Grant(1, 20, 0, 11, 0), Grant(10, 1000, 11, 21, 1), Grant(10, 1000, 21, 1000, 0)];
    assert gs[..2][..1] == gs[..1];
    assert WindowCost(Config(1, 10), gs[..1], 1000, 1000) == 0;
    assert WindowCost(Config(1, 10), gs[..2], 1000, 1000) == 10;
  }

  lemma MoreCostsMore(a: int, b: int, p: nat)
    requires a <= b
    ensures a * p <= b * p
  {
  }

  lemma OneMoreToken(a: int, b: int, p: nat)
    ensures (a - b + 1) * p == a * p - b * p + p
  {
  }

  /** How to use up what an unclamped grant of n tokens leaves: so many tokens k, asked for at
      the same clock, or less than a token's time later, fit and exceed the burst. */
  lemma Shortfall(p: nat, n: nat, burst: nat, after: nat, now: nat) returns (k: nat, later: nat)
    requires p > 0 && n > 0 && burst * p <= now && after <= now && after < now - burst * p + n * p
    ensures now <= later <= now + p
    ensures after + k * p <= later && k * p <= burst * p
    ensures n * p + k * p > burst * p + (later - now)
  {
    MoreCostsMore(1, n, p);
    OneMoreToken(burst, n, p);
    if burst < n {
      MoreCostsMore(burst - n + 1, 0, p);
      MoreCostsMore(0, burst, p);
      k, later := 0, now;
    } else {
      k := burst - n + 1;
      later := if after + k * p <= now then now else after + k * p;
    }
  }

  /** After an unclamped grant a lone call can be granted so many tokens, at its first attempt,
      that the two exceed the burst. */
  lemma UnclampedBreaksBurst(cfg: Config, time0: nat, s: State, t: nat, burst: nat) returns (k: nat, later: nat)
    requires cfg.perBurst == burst * cfg.perToken
    requires Inv(cfg, time0, s) && t !in s.threads && s.grants != []
    requires !Harmless(cfg, s.grants[|s.grants| - 1]) && s.grants[|s.grants| - 1].now + cfg.perToken < HALF
    ensures var now, run := s.grants[|s.grants| - 1].now, CallAt(t, k, later);
            && now <= later && Calm(cfg, run) && Exec(cfg, s, run).Reached? && GenuineRun(cfg, s, run)
            && WindowCost(cfg, Exec(cfg, s, run).state.grants, now, later) > cfg.perBurst + (later - now)
  {
    hide Exec, GenuineRun, Ledger, ThreadOk, Calm, WindowCost;
    var g := s.grants[|s.grants| - 1];
    LedgerEntry(cfg, time0, s.grants, |s.grants| - 1);
    CostPositive(g.tokens, cfg.perToken);
    k, later := Shortfall(cfg.perToken, g.tokens, burst, g.after, g.now);
    CostAtLeast(k, cfg.perToken);
    LoneCall(cfg, s, t, k, later);
    CalmCallAt(cfg, t, k, later);
    LastTwo(cfg, s.grants, Grant(k, later, s.time, BaseAt(cfg, s, later) + k * cfg.perToken, 0), later);
  }

  lemma CostPositive(n: nat, p: nat)
    requires n * p != 0
    ensures n > 0 && p > 0
  {
  }

  lemma CostAtLeast(k: nat, p: nat)
    requires p > 0
    ensures k <= k * p
  {
    MoreCostsMore(1, p, k);
  }

  /** A window holds at least the last two grants made in it. */
  lemma LastTwo(cfg: Config, gs: seq<Grant>, last: Grant, later: nat)
    requires gs != [] && gs[|gs| - 1].now <= later == last.now
    ensures WindowCost(cfg, gs + [last], gs[|gs| - 1].now, later)
         >= gs[|gs| - 1].tokens * cfg.perToken + last.tokens * cfg.perToken
  {
    assert (gs + [last])[..|gs|] == gs;
  }

  // ----- exactly when the burst bound can be broken

  ghost predicate AllHarmless(cfg: Config, gs: seq<Grant>) {
    forall i :: 0 <= i < |gs| ==> Harmless(cfg, gs[i])
  }

  /** Every window costs at most a burst plus its length. */
  ghost predicate WithinBurst(cfg: Config, gs: seq<Grant>) {
    forall t1: nat, t2: nat :: t1 <= t2 ==> WindowCost(cfg, gs, t1, t2) <= cfg.perBurst + (t2 - t1)
  }

  /** No call that comes next and meets no other, by thread t, breaks the burst bound. */
  ghost predicate CallsStayWithin(cfg: Config, s: State, t: nat) {
    forall k: nat, now: nat :: Calm(cfg, CallAt(t, k, now)) && Exec(cfg, s, CallAt(t, k, now)).Reached? ==>
                                 WithinBurst(cfg, Exec(cfg, s, CallAt(t, k, now)).state.grants)
  }

  /** A lone call adds one grant, which is clamped. */
  lemma LoneCallClamped(cfg: Config, time0: nat, s: State, t: nat, k: nat, now: nat)
    requires Inv(cfg, time0, s) && Calm(cfg, CallAt(t, k, now)) && Exec(cfg, s, CallAt(t, k, now)).Reached?
    ensures var gs := Exec(cfg, s, CallAt(t, k, now)).state.grants;
            && Ledger(cfg, time0, gs) && |gs| == |s.grants| + 1 && gs[..|s.grants|] == s.grants
            && Clamped(cfg, gs[|s.grants|])
  {
    hide NewTime, Inv, Exec, Clamped;
    var run := CallAt(t, k, now);
    assert run[0] == Enter(t, k, now);
    NoStep(cfg, s);
    assert run[..2] + [run[2]] == run;
    Back(cfg, s, run[..2], run[2]);
    assert run[..1] + [run[1]] == run[..2];
    Back(cfg, s, run[..1], run[1]);
    assert run[..0] + [run[0]] == run[..1];
    Back(cfg, s, run[..0], run[0]);
    var s1 := Do(cfg, s, run[0]);
    var s2 := Do(cfg, s1, run[1]);
    InvStep(cfg, time0, s, run[0]);
    InvStep(cfg, time0, s1, run[1]);
    ClampedExactly(cfg, time0, s2, t);
    InvStep(cfg, time0, s2, run[2]);
    InvLedger(cfg, time0, Do(cfg, s2, run[2]));
  }

  lemma InvLedger(cfg: Config, time0: nat, s: State)
    requires Inv(cfg, time0, s)
    ensures Ledger(cfg, time0, s.grants)
  {
  }

  lemma HarmlessWithin(cfg: Config, time0: nat, gs: seq<Grant>)
    requires Ledger(cfg, time0, gs) && AllHarmless(cfg, gs)
    ensures WithinBurst(cfg, gs)
  {
    forall t1: nat, t2: nat | t1 <= t2 ensures WindowCost(cfg, gs, t1, t2) <= cfg.perBurst + (t2 - t1) {
      WindowCovered(cfg, time0, gs, t1, t2);
    }
  }

  lemma HarmlessCallsStayWithin(cfg: Config, time0: nat, s: State, t: nat)
    requires Inv(cfg, time0, s) && AllHarmless(cfg, s.grants)
    ensures WithinBurst(cfg, s.grants) && CallsStayWithin(cfg, s, t)
  {
    hide Inv, Exec, Calm, Ledger, WithinBurst;
    InvLedger(cfg, time0, s);
    HarmlessWithin(cfg, time0, s.grants);
    forall k: nat, now: nat | Calm(cfg, CallAt(t, k, now)) && Exec(cfg, s, CallAt(t, k, now)).Reached?
      ensures WithinBurst(cfg, Exec(cfg, s, CallAt(t, k, now)).state.grants)
    {
      LoneCallClamped(cfg, time0, s, t, k, now);
      var gs := Exec(cfg, s, CallAt(t, k, now)).state.grants;
      forall i | 0 <= i < |gs| ensures Harmless(cfg, gs[i]) {
        assert i < |s.grants| ==> gs[i] == s.grants[i];
      }
      HarmlessWithin(cfg, time0, gs);
    }
  }

  /** If all earlier grants are clamped, the burst bound cannot be broken by a further call if
      and only if the last grant is clamped too, or has cost nothing. */
  lemma BurstKeptExactly(cfg: Config, time0: nat, s: State, t: nat, burst: nat)
    requires cfg.perBurst == burst * cfg.perToken
    requires Inv(cfg, time0, s) && t !in s.threads && s.grants != []
    requires AllHarmless(cfg, s.grants[..|s.grants| - 1]) && s.grants[|s.grants| - 1].now + cfg.perToken < HALF
    ensures CallsStayWithin(cfg, s, t) <==> Harmless(cfg, s.grants[|s.grants| - 1])
  {
    hide Inv, Exec, Calm, GenuineRun;
    var n := |s.grants| - 1;
    if Harmless(cfg, s.grants[n]) {
      forall i | 0 <= i <= n ensures Harmless(cfg, s.grants[i]) {
        assert i < n ==> s.grants[..n][i] == s.grants[i];
      }
      HarmlessCallsStayWithin(cfg, time0, s, t);
    } else {
      var k, later := UnclampedBreaksBurst(cfg, time0, s, t, burst);
      assert !WithinBurst(cfg, Exec(cfg, s, CallAt(t, k, later)).state.grants);
    }
  }

  /** The same by the guard of the retry: of all the grants made with the burst bound intact,
      exactly those may cost it that are made on a retry, for a time before the burst. */
  lemma RetryKeepsBurstExactly(cfg: Config, time0: nat, s: State, u: nat, t: nat, burst: nat)
    requires cfg.perBurst == burst * cfg.perToken
    requires Inv(cfg, time0, s) && AllHarmless(cfg, s.grants)
    requires Enabled(cfg, s, Win(u)) && s.threads[u].now + cfg.perToken < HALF
    requires t !in Do(cfg, s, Win(u)).threads
    ensures var th := s.threads[u];
            CallsStayWithin(cfg, Do(cfg, s, Win(u)), t) <==>
            th.tokens * cfg.perToken == 0 || th.retries == 0 || th.oldTime >= th.now - cfg.perBurst
  {
    hide Inv, NewTime, CallsStayWithin, Clamped;
    var s' := Do(cfg, s, Win(u));
    ClampedExactly(cfg, time0, s, u);
    InvStep(cfg, time0, s, Win(u));
    assert s'.grants[..|s.grants|] == s.grants;
    BurstKeptExactly(cfg, time0, s', t, burst);
  }

  // ----- one caller

  /** The steps so far have brought a lone call to its next attempt, from `base`. */
  ghost predicate Attempting(cfg: Config, time: nat, tokens: nat, now: nat, base: nat, failures: nat, run: seq<Step>) {
    Exec(cfg, Start(time), run) ==
    Reached(State(time, map[0 := Looping(tokens, now, time, base, time, failures, 0)], []))
  }

  lemma FirstAttempt(cfg: Config, time: nat, tokens: nat, now: nat)
    requires tokens < WORD && now < WORD
    ensures Attempting(cfg, time, tokens, now, ClampedBase(cfg, time, now), 0, [Enter(0, tokens, now), Load(0)])
  {
    hide Exec, GenuineRun, MinTime;
    var s0, enter := Start(time), Enter(0, tokens, now);
    NoStep(cfg, s0);
    Then(cfg, s0, [], s0, enter);
    assert [] + [enter] == [enter];
    var e := Entered(tokens, now);
    Then(cfg, s0, [enter], State(time, map[0 := e], []), Load(0));
    assert [enter] + [Load(0)] == [enter, Load(0)];
    assert map[0 := e][0 := Looping(tokens, now, time, ClampedBase(cfg, time, now), time, 0, 0)]
        == map[0 := Looping(tokens, now, time, ClampedBase(cfg, time, now), time, 0, 0)];
  }

  lemma AttemptRefused(cfg: Config, time: nat, tokens: nat, now: nat, base: nat, failures: nat, run: seq<Step>)
    requires Attempting(cfg, time, tokens, now, base, failures, run) && Wrap(base + Delay(cfg, tokens)) > now
    ensures Exec(cfg, Start(time), run + [Refuse(0)]) == Reached(Start(time))
  {
    hide Exec, GenuineRun, Wrap, Delay;
    var l := Looping(tokens, now, time, base, time, failures, 0);
    Then(cfg, Start(time), run, State(time, map[0 := l], []), Refuse(0));
    assert map[0 := l] - {0} == map[];
  }

  lemma AttemptWins(cfg: Config, time: nat, tokens: nat, now: nat, base: nat, failures: nat, run: seq<Step>)
    requires Attempting(cfg, time, tokens, now, base, failures, run) && Wrap(base + Delay(cfg, tokens)) <= now
    ensures var after := Wrap(base + Delay(cfg, tokens));
            Exec(cfg, Start(time), run + [Win(0)]) == Reached(State(after, map[], [Grant(tokens, now, time, after, failures)]))
  {
    hide Exec, GenuineRun, Wrap, Delay;
    var l := Looping(tokens, now, time, base, time, failures, 0);
    Then(cfg, Start(time), run, State(time, map[0 := l], []), Win(0));
    assert map[0 := l] - {0} == map[];
  }

  lemma AttemptFails(cfg: Config, time: nat, tokens: nat, now: nat, base: nat, failures: nat, run: seq<Step>)
    requires Attempting(cfg, time, tokens, now, base, failures, run) && Wrap(base + Delay(cfg, tokens)) <= now
    ensures Attempting(cfg, time, tokens, now, time, failures + 1, run + [Lose(0)])
  {
    hide Exec, GenuineRun, Wrap, Delay;
    var l := Looping(tokens, now, time, base, time, failures, 0);
    Then(cfg, Start(time), run, State(time, map[0 := l], []), Lose(0));
    var l' := Looping(tokens, now, time, time, time, failures + 1, 0);
    assert map[0 := l][0 := l'] == map[0 := l'];
  }

  /** A bucket used by one thread, whose compare-and-swap may still fail spuriously. */
  class Bucket {
    const cfg: Config
    var time: nat

    constructor (rate: nat, burst: nat)
      requires rate > 0
      ensures time == 0 && cfg == Config(1000000000 / rate, Wrap(burst * (1000000000 / rate)))
    {
      time := 0;
      cfg := Config(1000000000 / rate, Wrap(burst * (1000000000 / rate)));
    }

    /** Each call is a run of the machine, so all bounds above hold of it. A spurious failure
        costs it the clamp. */
    method Consume(tokens: nat, now: nat, spurious: nat) returns (granted: bool, ghost run: seq<Step>)
      requires tokens < WORD && now < WORD
      modifies this
      ensures var first := Wrap(ClampedBase(cfg, old(time), now) + Delay(cfg, tokens));
              var again := Wrap(old(time) + Delay(cfg, tokens));
              && (granted <==> first <= now && (spurious > 0 ==> again <= now))
              && time == if !granted then old(time) else if spurious == 0 then first else again
      ensures Exec(cfg, Start(old(time)), run) == Reached(
                State(time, map[], if granted then [Grant(tokens, now, old(time), time, spurious)] else []))
    {
      hide Exec, Wrap, Delay, MinTime, Attempting;
      var delay := Delay(cfg, tokens);
      var minTime := MinTime(cfg, now);
      var oldTime: nat := time;
      var newTime: nat := oldTime;
      if minTime > oldTime {
        newTime := minTime;
      }
      FirstAttempt(cfg, time, tokens, now);
      run := [Enter(0, tokens, now), Load(0)];
      var failures: nat := 0;
      while true
        invariant time == old(time) == oldTime && failures <= spurious
        invariant newTime == if failures == 0 then ClampedBase(cfg, time, now) else time
        invariant failures > 0 ==> Wrap(ClampedBase(cfg, time, now) + delay) <= now
        invariant Attempting(cfg, time, tokens, now, newTime, failures, run)
        decreases spurious - failures
      {
        ghost var base := newTime;
        newTime := Wrap(newTime + delay);
        if newTime > now {
          AttemptRefused(cfg, time, tokens, now, base, failures, run);
          return false, run + [Refuse(0)];
        }
        if failures == spurious {
          AttemptWins(cfg, time, tokens, now, base, failures, run);
          time := newTime;
          return true, run + [Win(0)];
        }
        AttemptFails(cfg, time, tokens, now, base, failures, run);
        run := run + [Lose(0)];
        failures := failures + 1;
        oldTime := time;
        newTime := oldTime;
      }
    }
  }
}
