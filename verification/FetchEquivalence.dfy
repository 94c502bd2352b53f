/**
  Two things a blocking fetch does not depend on: whether its completion block consults the
  observer too, and what the block of an earlier, returned fetch goes on to do.
 */
module FetchEquivalence {
  import opened Wrappers
  import opened Observer
  import opened Fetch
  import opened FetchLaws

  // ---------------------------------------------------------------------------
  // The block's own check
  // ---------------------------------------------------------------------------

  /** Equal, or the fetch is already charged with an error and it no longer matters. */
  predicate Alike(a: Outcome, b: Outcome, charged: bool) {
    a == b || charged
  }

  predicate StagesAlike(a: Stage, b: Stage, charged: bool) {
    match (a, b)
    case (Entered, Entered) => true
    case (Checked(x), Checked(y)) => Alike(x, y, charged)
    case (Took(x), Took(y)) => Alike(x, y, charged)
    case (Done(x, tookX), Done(y, tookY)) => Alike(x, y, charged) && tookX == tookY
    case _ => false
  }

  predicate SlotsAlike(a: Option<Outcome>, b: Option<Outcome>, charged: bool) {
    a.Some? == b.Some? && (a.Some? ==> Alike(a.value, b.value, charged))
  }

  predicate PhasesAlike(a: Phase, b: Phase, charged: bool) {
    || a == b
    || (a.Collected? && b.Collected? && charged)
    || (&& a.Returned? && b.Returned? && a.answer == b.answer && a.seen == b.seen
        && SlotsAlike(a.collected, b.collected, charged))
  }

  predicate FiringsAlike(a: Firing, b: Firing, charged: bool) {
    a.read == b.read && StagesAlike(a.stage, b.stage, charged)
  }

  ghost predicate FetchesAlike(f: Fetch, g: Fetch, errors: seq<string>) {
    var charged := f.outerMark < |errors|;
    && f.outerMark == g.outerMark && f.innerMark == g.innerMark
    && f.handler == g.handler && f.polls == g.polls && |f.firings| == |g.firings|
    && (forall i | 0 <= i < |f.firings| :: FiringsAlike(f.firings[i], g.firings[i], charged))
    && SlotsAlike(f.slot, g.slot, charged) && PhasesAlike(f.phase, g.phase, charged)
  }

  ghost predicate StatesAlike(s: State, t: State) {
    && s.errors == t.errors && s.now == t.now && |s.fetches| == |t.fetches|
    && forall k | 0 <= k < |s.fetches| :: FetchesAlike(s.fetches[k], t.fetches[k], s.errors)
  }

  lemma CallsAlike(f: Fetch, g: Fetch, call: Call, errors: seq<string>, now: nat)
    requires FetchesAlike(f, g, errors)
    ensures FetchesAlike(CallStep(f, call, errors, now), CallStep(g, call, errors, now), errors)
  {
    MarkAttributes(errors, [], f.outerMark);
  }

  /** The outer mark is never later than the inner one, so an error the block sees is one the
      caller will see. */
  lemma BlocksAlike(f: Fetch, g: Fetch, step: BlockStep, errors: seq<string>)
    requires FetchesAlike(f, g, errors) && MarksOk(f, errors) && TakenOnce(f)
    ensures FetchesAlike(BlockStepped(true, f, step, errors), BlockStepped(false, g, step, errors), errors)
  {
    MarkAttributes(errors, [], f.innerMark);
    var f', g' := BlockStepped(true, f, step, errors), BlockStepped(false, g, step, errors);
    if !step.Enter? && step.i < |f.firings| {
      assert FiringsAlike(f.firings[step.i], g.firings[step.i], f.outerMark < |errors|);
      assert FiringsAlike(f'.firings[step.i], g'.firings[step.i], f.outerMark < |errors|);
    }
  }

  lemma ReportsAlike(f: Fetch, g: Fetch, errors: seq<string>, message: string)
    requires FetchesAlike(f, g, errors)
    ensures FetchesAlike(f, g, errors + [message])
  {
    forall i | 0 <= i < |f.firings|
      ensures FiringsAlike(f.firings[i], g.firings[i], f.outerMark < |errors + [message]|)
    {
      assert FiringsAlike(f.firings[i], g.firings[i], f.outerMark < |errors|);
    }
  }

  lemma StepsAlike(s: State, t: State, e: Event)
    requires Inv(s) && StatesAlike(s, t)
    ensures StatesAlike(Step(true, s, e), Step(false, t, e))
  {
    var s', t' := Step(true, s, e), Step(false, t, e);
    var n := |s.fetches|;
    if n > 0 {
      assert FetchesAlike(s.fetches[n - 1], t.fetches[n - 1], s.errors);
    }
    forall k | 0 <= k < |s'.fetches| ensures FetchesAlike(s'.fetches[k], t'.fetches[k], s'.errors) {
      if k < n {
        FetchStepsAlike(s, t, e, k);
      }
    }
  }

  lemma FetchStepsAlike(s: State, t: State, e: Event, k: nat)
    requires Inv(s) && StatesAlike(s, t) && k < |s.fetches|
    ensures var s', t' := Step(true, s, e), Step(false, t, e);
            k < |s'.fetches| && k < |t'.fetches| && FetchesAlike(s'.fetches[k], t'.fetches[k], s'.errors)
  {
    var f, g := s.fetches[k], t.fetches[k];
    assert FetchesAlike(f, g, s.errors) && FetchOk(f, s.errors);
    if e.Report? {
      ReportsAlike(f, g, s.errors, e.message);
    } else if e.Caller? && k == |s.fetches| - 1 {
      CallsAlike(f, g, e.call, s.errors, s.now);
    } else if e.Block? && e.fetch == k {
      BlocksAlike(f, g, e.step, s.errors);
    } else {
      assert Step(true, s, e).fetches[k] == f && Step(false, t, e).fetches[k] == g;
    }
  }

  lemma {:induction false} RunsAlike(es: seq<Event>)
    ensures StatesAlike(Run(true, es), Run(false, es))
    decreases |es|
  {
    if es != [] {
      var init := es[..|es| - 1];
      RunsAlike(init);
      RunKeeps(true, init);
      StepsAlike(Run(true, init), Run(false, init), es[|es| - 1]);
    }
  }

  /** In every run a blocking fetch returns at the same step and with the same answer, whether
      or not its completion block performs its own observer check. */
  lemma BlockCheckIsRedundant(es: seq<Event>, k: nat)
    requires k < |Run(true, es).fetches|
    ensures k < |Run(false, es).fetches|
    ensures var p, q := Run(true, es).fetches[k].phase, Run(false, es).fetches[k].phase;
            && (p.Returned? <==> q.Returned?)
            && (p.Returned? ==> p.answer == q.answer && p.seen == q.seen)
  {
    RunsAlike(es);
    assert FetchesAlike(Run(true, es).fetches[k], Run(false, es).fetches[k], Run(true, es).errors);
  }

  // ---------------------------------------------------------------------------
  // Late firings
  // ---------------------------------------------------------------------------

  /** The events that are not of the block of fetch `k`. */
  function Without(es: seq<Event>, k: nat): seq<Event> {
    if es == [] then []
    else
      var kept, e := Without(es[..|es| - 1], k), es[|es| - 1];
      if e.Block? && e.fetch == k then kept else kept + [e]
  }

  /** The same but for what the block of fetch `k` has done. */
  ghost predicate SameButBlock(s: State, t: State, k: nat) {
    && s.errors == t.errors && s.now == t.now && |s.fetches| == |t.fetches|
    && k < |s.fetches| && s.fetches[k].phase == t.fetches[k].phase && s.fetches[k].phase.Returned?
    && forall m | 0 <= m < |s.fetches| && m != k :: s.fetches[m] == t.fetches[m]
  }

  lemma StepSameButBlock(checks: bool, s: State, t: State, e: Event, k: nat)
    requires SameButBlock(s, t, k)
    ensures SameButBlock(Step(checks, s, e), if e.Block? && e.fetch == k then t else Step(checks, t, e), k)
  {
    var n := |s.fetches|;
    assert n - 1 != k ==> s.fetches[n - 1] == t.fetches[n - 1];
  }

  /** Whatever the block of a returned fetch does later, nothing else ever differs: not the
      answer already given, not another fetch, not the error list. */
  lemma {:induction false} LateFiringsIsolated(checks: bool, s: State, es: seq<Event>, k: nat)
    requires k < |s.fetches| && s.fetches[k].phase.Returned?
    ensures SameButBlock(RunFrom(checks, s, es), RunFrom(checks, s, Without(es, k)), k)
    ensures RunFrom(checks, s, es).fetches[k].phase == s.fetches[k].phase
    decreases |es|
  {
    if es != [] {
      var init, e := es[..|es| - 1], es[|es| - 1];
      var kept := Without(init, k);
      LateFiringsIsolated(checks, s, init, k);
      StepSameButBlock(checks, RunFrom(checks, s, init), RunFrom(checks, s, kept), e, k);
      StepMoves(checks, RunFrom(checks, s, init), e, k);
      RunOneMore(checks, s, kept, e);
    }
  }

  lemma RunOneMore(checks: bool, s: State, es: seq<Event>, e: Event)
    ensures RunFrom(checks, s, es + [e]) == Step(checks, RunFrom(checks, s, es), e)
  {
    assert (es + [e])[..|es|] == es;
  }
}
