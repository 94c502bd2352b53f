/** What every run of the fetch protocol keeps, and what a returned answer therefore says. */
module FetchLaws {
  import opened Wrappers
  import opened Observer
  import opened ReplyEnvelope
  import opened Fetch

  // ---------------------------------------------------------------------------
  // The invariant of one fetch
  // ---------------------------------------------------------------------------

  predicate Early(phase: Phase) {
    phase.Marked? || phase.InnerMarked?
  }

  /** What the caller's wait gave it, if it has ended. */
  function CollectedOf(phase: Phase): Option<Outcome> {
    match phase
    case Collected(result) => Some(result)
    case Returned(_, collected, _) => collected
    case _ => None
  }

  predicate HasTaken(fi: Firing) {
    fi.stage.Took? || (fi.stage.Done? && fi.stage.took)
  }

  ghost predicate MarksOk(f: Fetch, errors: seq<string>) {
    && f.outerMark <= |errors|
    && (!f.phase.Marked? ==> f.outerMark <= f.innerMark <= |errors|)
  }

  /** What a firing passes on is what it read, or the error at the inner mark over a reply. */
  ghost predicate FiringOk(f: Fetch, fi: Firing, errors: seq<string>) {
    && Readable(fi.read)
    && (!fi.stage.Entered? ==>
          || fi.stage.result == fi.read
          || (fi.read.Success? && f.innerMark < |errors| && fi.stage.result == Failure(Replayer(errors[f.innerMark]))))
  }

  ghost predicate FiringsOk(f: Fetch, errors: seq<string>) {
    forall i | 0 <= i < |f.firings| :: FiringOk(f, f.firings[i], errors)
  }

  /** At most one firing holds or held the handler, the one it remembers. */
  ghost predicate TakenOnce(f: Fetch) {
    && (f.handler.Absent? <==> Early(f.phase))
    && (f.handler.Absent? ==> f.firings == [])
    && (forall i | 0 <= i < |f.firings| && HasTaken(f.firings[i]) :: f.handler == Spent(i))
    && (f.handler.Spent? ==> f.handler.taker < |f.firings| && HasTaken(f.firings[f.handler.taker]))
  }

  /** The taker has stored `r`. */
  ghost predicate StoredBy(f: Fetch, r: Outcome) {
    f.handler.Spent? && f.handler.taker < |f.firings| && f.firings[f.handler.taker].stage == Done(r, true)
  }

  /** The slot is filled by the taker and emptied by the caller, each at most once. */
  ghost predicate SlotOk(f: Fetch) {
    && (f.slot.Some? ==> StoredBy(f, f.slot.value))
    && (CollectedOf(f.phase).Some? && CollectedOf(f.phase).value != Failure(Timeout) ==>
          f.slot == None && StoredBy(f, CollectedOf(f.phase).value))
    && (HasStored(f) ==>
          var r := f.firings[f.handler.taker].stage.result; f.slot == Some(r) || CollectedOf(f.phase) == Some(r))
  }

  ghost predicate HasStored(f: Fetch) {
    f.handler.Spent? && f.handler.taker < |f.firings| && f.firings[f.handler.taker].stage.Done?
  }

  /** Every poll but the one that collected found the slot empty. */
  ghost predicate PollsOk(f: Fetch) {
    && (forall p | 0 <= p < |f.polls| - 1 :: !f.polls[p])
    && (f.polls != [] && f.polls[|f.polls| - 1] ==>
          CollectedOf(f.phase).Some? && CollectedOf(f.phase).value != Failure(Timeout))
    && (f.phase.PolledEmpty? || CollectedOf(f.phase).Some? ==> f.polls != [])
    && (CollectedOf(f.phase).Some? && CollectedOf(f.phase).value != Failure(Timeout) ==> f.polls[|f.polls| - 1])
  }

  /** The answer is the observer's verdict at the moment of the check. */
  ghost predicate AnswerOk(f: Fetch, errors: seq<string>) {
    f.phase.Returned? ==>
      && f.outerMark <= f.phase.seen <= |errors|
      && f.phase.answer == (if f.phase.collected.None? then Failure(NoToken)
                            else if f.outerMark < f.phase.seen then Failure(Replayer(errors[f.outerMark]))
                            else f.phase.collected.value)
  }

  ghost predicate FetchOk(f: Fetch, errors: seq<string>) {
    MarksOk(f, errors) && FiringsOk(f, errors) && TakenOnce(f) && SlotOk(f) && PollsOk(f) && AnswerOk(f, errors)
  }

  ghost predicate Before(f: Fetch, g: Fetch) {
    f.phase.Returned? && f.phase.seen <= g.outerMark
  }

  /** Fetches follow one another: each began after the one before had returned. */
  ghost predicate Serial(s: State) {
    forall j, k | 0 <= j < k < |s.fetches| :: Before(s.fetches[j], s.fetches[k])
  }

  ghost predicate Inv(s: State) {
    && (forall k | 0 <= k < |s.fetches| :: FetchOk(s.fetches[k], s.errors))
    && Serial(s)
  }

  lemma CallKeeps(f: Fetch, call: Call, errors: seq<string>, now: nat)
    requires FetchOk(f, errors)
    ensures FetchOk(CallStep(f, call, errors, now), errors)
  {
    assert FiringsOk(CallStep(f, call, errors, now), errors) by {
      CallKeepsFirings(f, call, errors, now);
    }
    assert AnswerOk(CallStep(f, call, errors, now), errors) by {
      MarkAttributes(errors, [], f.outerMark);
    }
    assert SlotOk(CallStep(f, call, errors, now)) && PollsOk(CallStep(f, call, errors, now)) by {
      StoredReadable(f, errors);
      CallKeepsSlot(f, call, errors, now);
    }
  }

  /** What the taker has stored is never a timeout. */
  lemma StoredReadable(f: Fetch, errors: seq<string>)
    requires FiringsOk(f, errors)
    ensures HasStored(f) ==> f.firings[f.handler.taker].stage.result !in {Failure(Timeout), Failure(NoToken)}
  {
    if HasStored(f) {
      assert FiringOk(f, f.firings[f.handler.taker], errors);
    }
  }

  lemma CallKeepsSlot(f: Fetch, call: Call, errors: seq<string>, now: nat)
    requires TakenOnce(f) && SlotOk(f) && PollsOk(f)
    requires HasStored(f) ==> f.firings[f.handler.taker].stage.result != Failure(Timeout)
    ensures SlotOk(CallStep(f, call, errors, now)) && PollsOk(CallStep(f, call, errors, now))
  {
  }

  lemma CallKeepsFirings(f: Fetch, call: Call, errors: seq<string>, now: nat)
    requires FiringsOk(f, errors) && TakenOnce(f)
    ensures FiringsOk(CallStep(f, call, errors, now), errors)
  {
    var g := CallStep(f, call, errors, now);
    forall i | 0 <= i < |g.firings| ensures FiringOk(g, g.firings[i], errors) {
      assert FiringOk(f, f.firings[i], errors);
    }
  }

  lemma BlockKeeps(checks: bool, f: Fetch, step: BlockStep, errors: seq<string>)
    requires FetchOk(f, errors)
    ensures FetchOk(BlockStepped(checks, f, step, errors), errors)
  {
    assert FiringsOk(BlockStepped(checks, f, step, errors), errors) by {
      BlockKeepsFirings(checks, f, step, errors);
    }
    assert SlotOk(BlockStepped(checks, f, step, errors)) by {
      BlockKeepsSlot(checks, f, step, errors);
    }
  }

  lemma BlockKeepsFirings(checks: bool, f: Fetch, step: BlockStep, errors: seq<string>)
    requires FiringsOk(f, errors)
    ensures FiringsOk(BlockStepped(checks, f, step, errors), errors)
  {
    var g := BlockStepped(checks, f, step, errors);
    MarkAttributes(errors, [], f.innerMark);
    forall i | 0 <= i < |g.firings| ensures FiringOk(g, g.firings[i], errors) {
      if i < |f.firings| {
        assert FiringOk(f, f.firings[i], errors);
      }
    }
  }

  lemma BlockKeepsSlot(checks: bool, f: Fetch, step: BlockStep, errors: seq<string>)
    requires TakenOnce(f) && SlotOk(f)
    ensures TakenOnce(BlockStepped(checks, f, step, errors)) && SlotOk(BlockStepped(checks, f, step, errors))
  {
  }

  lemma ReportKeeps(f: Fetch, errors: seq<string>, message: string)
    requires FetchOk(f, errors)
    ensures FetchOk(f, errors + [message])
  {
    forall i | 0 <= i < |f.firings| ensures FiringOk(f, f.firings[i], errors + [message]) {
      assert FiringOk(f, f.firings[i], errors);
    }
  }

  lemma FetchKeeps(checks: bool, s: State, e: Event, k: nat)
    requires k < |s.fetches| && FetchOk(s.fetches[k], s.errors)
    ensures var t := Step(checks, s, e); k < |t.fetches| && FetchOk(t.fetches[k], t.errors)
  {
    var f := s.fetches[k];
    match e
    case Report(message) => ReportKeeps(f, s.errors, message);
    case Caller(call) => CallKeeps(f, call, s.errors, s.now);
    case Block(_, step) => BlockKeeps(checks, f, step, s.errors);
    case _ =>
  }

  lemma FreshOk(errors: seq<string>)
    ensures FetchOk(Fresh(|errors|), errors)
  {
  }

  /** A step moves a fetch on without touching its mark, and a returned one not at all. */
  lemma StepMoves(checks: bool, s: State, e: Event, k: nat)
    requires k < |s.fetches|
    ensures var t := Step(checks, s, e);
            && k < |t.fetches| && t.fetches[k].outerMark == s.fetches[k].outerMark
            && (s.fetches[k].phase.Returned? ==> t.fetches[k].phase == s.fetches[k].phase)
  {
  }

  lemma SerialKeeps(checks: bool, s: State, e: Event)
    requires Inv(s)
    ensures Serial(Step(checks, s, e))
  {
    var t := Step(checks, s, e);
    forall j, k | 0 <= j < k < |t.fetches| ensures Before(t.fetches[j], t.fetches[k]) {
      var last := |s.fetches| - 1;
      StepMoves(checks, s, e, j);
      assert FetchOk(s.fetches[j], s.errors);
      if k <= last {
        StepMoves(checks, s, e, k);
        assert Before(s.fetches[j], s.fetches[k]);
      } else if j < last {
        assert Before(s.fetches[j], s.fetches[last]);
      }
    }
  }

  lemma StepKeeps(checks: bool, s: State, e: Event)
    requires Inv(s)
    ensures Inv(Step(checks, s, e))
  {
    var t := Step(checks, s, e);
    forall k | 0 <= k < |t.fetches| ensures FetchOk(t.fetches[k], t.errors) {
      if k < |s.fetches| {
        FetchKeeps(checks, s, e, k);
      } else {
        FreshOk(s.errors);
      }
    }
    SerialKeeps(checks, s, e);
  }

  lemma {:induction false} RunKeeps(checks: bool, es: seq<Event>)
    ensures Inv(Run(checks, es))
    decreases |es|
  {
    if es != [] {
      RunKeeps(checks, es[..|es| - 1]);
      StepKeeps(checks, Run(checks, es[..|es| - 1]), es[|es| - 1]);
    }
  }

  // ---------------------------------------------------------------------------
  // What an answer says
  // ---------------------------------------------------------------------------

  /** A clean answer: no error was recorded between the mark and the final check, and the
      reply is what the first block to take the handler read of its own response. */
  lemma CleanAnswer(checks: bool, es: seq<Event>, k: nat) returns (i: nat)
    requires k < |Run(checks, es).fetches|
    requires var p := Run(checks, es).fetches[k].phase; p.Returned? && p.answer.Success?
    ensures var f := Run(checks, es).fetches[k];
            && f.phase.seen == f.outerMark && f.phase.collected == Some(f.phase.answer)
            && i < |f.firings| && f.firings[i].read == f.phase.answer && HasTaken(f.firings[i])
            && forall j | 0 <= j < |f.firings| && j != i :: !HasTaken(f.firings[j])
  {
    RunKeeps(checks, es);
    var s := Run(checks, es);
    var f := s.fetches[k];
    assert FetchOk(f, s.errors);
    i := f.handler.taker;
    assert FiringOk(f, f.firings[i], s.errors);
  }

  /** Every answer, exactly: without a token, that; otherwise the error at the fetch's own
      mark if one was there at the check, whatever was collected, and else what was collected.
      So once an error is recorded past the mark, the answer is that error exactly when `-fetch:`
      gave a token. */
  lemma AnswerExactly(checks: bool, es: seq<Event>, k: nat)
    requires k < |Run(checks, es).fetches| && Run(checks, es).fetches[k].phase.Returned?
    ensures var s := Run(checks, es);
            var f := s.fetches[k];
            && f.outerMark <= f.phase.seen <= |s.errors|
            && (f.phase.collected.None? <==> f.phase.answer == Failure(NoToken))
            && (f.outerMark < f.phase.seen ==>
                  (f.phase.answer == Failure(Replayer(s.errors[f.outerMark])) <==> f.phase.collected.Some?))
            && (f.phase.collected.Some? && f.outerMark < f.phase.seen ==>
                  f.phase.answer == Failure(Replayer(s.errors[f.outerMark])))
            && (f.phase.collected.Some? && f.outerMark == f.phase.seen ==> f.phase.answer == f.phase.collected.value)
  {
    RunKeeps(checks, es);
    var s := Run(checks, es);
    assert FetchOk(s.fetches[k], s.errors);
    StoredReadable(s.fetches[k], s.errors);
  }

  /** A timeout is answered only in silence, by a wait none of whose polls found anything. */
  lemma TimeoutAnswer(checks: bool, es: seq<Event>, k: nat)
    requires k < |Run(checks, es).fetches|
    requires var p := Run(checks, es).fetches[k].phase; p.Returned? && p.answer == Failure(Timeout)
    ensures var f := Run(checks, es).fetches[k];
            && f.phase.seen == f.outerMark
            && f.polls != [] && forall p | 0 <= p < |f.polls| :: !f.polls[p]
  {
    RunKeeps(checks, es);
    assert FetchOk(Run(checks, es).fetches[k], Run(checks, es).errors);
  }

  /** A wait turns into a timeout only after an empty poll and at or past its deadline. */
  lemma TimeoutNeedsDeadline(checks: bool, es: seq<Event>, e: Event, k: nat)
    requires k < |Run(checks, es).fetches|
    requires var f, g := Run(checks, es).fetches[k], Step(checks, Run(checks, es), e).fetches[k];
             f.phase != g.phase && g.phase == Collected(Failure(Timeout))
    ensures var s := Run(checks, es);
            && e == Caller(CheckDeadline) && k == |s.fetches| - 1
            && s.fetches[k].phase.PolledEmpty? && s.fetches[k].phase.deadline <= s.now
            && s.fetches[k].polls != [] && !s.fetches[k].polls[|s.fetches[k].polls| - 1]
  {
    RunKeeps(checks, es);
    var f := Run(checks, es).fetches[k];
    assert FetchOk(f, Run(checks, es).errors);
    StoredReadable(f, Run(checks, es).errors);
  }

  /** No error is charged to two fetches, and later fetches are charged later errors. */
  lemma ChargedOnce(checks: bool, es: seq<Event>, j: nat, k: nat)
    requires j < k < |Run(checks, es).fetches|
    requires var p := Run(checks, es).fetches[j].phase; p.Returned? && Run(checks, es).fetches[j].outerMark < p.seen
    ensures Run(checks, es).fetches[j].outerMark < Run(checks, es).fetches[k].outerMark
  {
    RunKeeps(checks, es);
    assert Before(Run(checks, es).fetches[j], Run(checks, es).fetches[k]);
  }

  /** Attribution is by time: whoever caused it, an error reported after the wait and before
      the check is the answer of a fetch that was clean until then. */
  lemma LateErrorCharged(checks: bool, s: State, message: string)
    requires s.fetches != []
    requires var f := s.fetches[|s.fetches| - 1]; f.phase.Collected? && f.outerMark == |s.errors|
    ensures var n := |s.fetches|;
            var quiet := Step(checks, s, Caller(CheckObserver));
            var late := Step(checks, Step(checks, s, Report(message)), Caller(CheckObserver));
            && quiet.fetches[n - 1].phase.Returned? && late.fetches[n - 1].phase.Returned?
            && quiet.fetches[n - 1].phase.answer == s.fetches[n - 1].phase.result
            && late.fetches[n - 1].phase.answer == Failure(Replayer(message))
  {
    MarkAttributes(s.errors, [message], |s.errors|);
  }

  lemma Then(checks: bool, es: seq<Event>, s: State, e: Event) returns (es': seq<Event>, t: State)
    requires Run(checks, es) == s
    ensures Run(checks, es') == t == Step(checks, s, e)
  {
    es', t := es + [e], Step(checks, s, e);
    assert es'[..|es'| - 1] == es;
  }

  /** The check is not unconditional: an error reported before `-fetch:` gives no token goes
      unanswered. */
  lemma NoTokenSkipsCheck(checks: bool, message: string) returns (es: seq<Event>)
    ensures Run(checks, es)
         == State([message], 0, [Fetch(0, 0, Returned(Failure(NoToken), None, 1), Held, None, [], [])])
  {
    var s;
    es, s := [], INITIAL;
    es, s := Then(checks, es, s, Begin);
    es, s := Then(checks, es, s, Caller(MarkInner));
    es, s := Then(checks, es, s, Caller(Arm));
    es, s := Then(checks, es, s, Report(message));
    es, s := Then(checks, es, s, Caller(Dispatch(false)));
  }

  /** So there is a run in which an error reported after a fetch has timed out is charged to
      the next one, which had collected a clean reply of its own. */
  lemma TimedOutErrorChargedToNext(checks: bool, message: string, reply: RawReply) returns (es: seq<Event>)
    ensures var s := Run(checks, es);
            && |s.fetches| == 2
            && s.fetches[0].phase == Returned(Failure(Timeout), Some(Failure(Timeout)), 0)
            && s.fetches[1].phase == Returned(Failure(Replayer(message)), Some(Success(reply)), 1)
  {
    var s;
    es, s := SecondCollects(checks, reply);
    es, s := Then(checks, es, s, Report(message));
    MarkAttributes(s.errors, [], 0);
    es, s := Then(checks, es, s, Caller(CheckObserver));
  }

  /** A first fetch has timed out in silence and a second has collected a clean reply. */
  lemma SecondCollects(checks: bool, reply: RawReply) returns (es: seq<Event>, s: State)
    ensures Run(checks, es) == s
    ensures s.errors == [] && |s.fetches| == 2
    ensures s.fetches[0].phase == Returned(Failure(Timeout), Some(Failure(Timeout)), 0)
    ensures s.fetches[1].outerMark == 0 && s.fetches[1].phase == Collected(Success(reply))
  {
    es, s := SecondWaits(checks);
    es, s := Then(checks, es, s, Block(1, Enter(Success(reply))));
    MarkAttributes(s.errors, [], 0);
    es, s := Then(checks, es, s, Block(1, CheckBlock(0)));
    es, s := Then(checks, es, s, Block(1, TakeHandler(0)));
    es, s := Then(checks, es, s, Block(1, StoreOutcome(0)));
    es, s := Then(checks, es, s, Caller(Poll));
  }

  /** A first fetch has timed out in silence and a second waits. */
  lemma SecondWaits(checks: bool) returns (es: seq<Event>, s: State)
    ensures Run(checks, es) == s
    ensures s == State([], 0, [
                   Fetch(0, 0, Returned(Failure(Timeout), Some(Failure(Timeout)), 0), Held, None, [], [false]),
                   Fetch(0, 0, Pumping(0), Held, None, [], [])])
  {
    s, es := INITIAL, [];
    es, s := Then(checks, es, s, Begin);
    es, s := Pumped(checks, es, s, 0);
    es, s := Then(checks, es, s, Caller(Poll));
    es, s := Then(checks, es, s, Caller(CheckDeadline));
    MarkAttributes(s.errors, [], 0);
    es, s := Then(checks, es, s, Caller(CheckObserver));
    var first := Fetch(0, 0, Returned(Failure(Timeout), Some(Failure(Timeout)), 0), Held, None, [], [false]);
    assert s.fetches[0].polls == [false];
    assert s.fetches == [first];
    es, s := Then(checks, es, s, Begin);
    es, s := Pumped(checks, es, s, 0);
    assert s.fetches == [first, Fetch(0, 0, Pumping(0), Held, None, [], [])];
  }

  /** A fetch that has just begun is dispatched and waits. */
  lemma Pumped(checks: bool, es: seq<Event>, s: State, timeout: nat) returns (es': seq<Event>, t: State)
    requires Run(checks, es) == s && s.fetches != [] && s.fetches[|s.fetches| - 1] == Fresh(|s.errors|)
    ensures Run(checks, es') == t
    ensures t == s.(fetches := s.fetches[|s.fetches| - 1 :=
                      Fetch(|s.errors|, |s.errors|, Pumping(s.now + timeout), Held, None, [], [])])
  {
    es', t := Then(checks, es, s, Caller(MarkInner));
    es', t := Then(checks, es', t, Caller(Arm));
    es', t := Then(checks, es', t, Caller(Dispatch(true)));
    es', t := Then(checks, es', t, Caller(StartPump(timeout)));
  }

  // ---------------------------------------------------------------------------
  // At most once
  // ---------------------------------------------------------------------------

  /** How far the slot has come: never filled, full, emptied. */
  ghost function SlotAge(f: Fetch): nat {
    if !HasStored(f) then 0 else if f.slot.Some? then 1 else 2
  }

  lemma SlotAgesInStep(checks: bool, s: State, e: Event, k: nat)
    requires Inv(s) && k < |s.fetches|
    ensures var f, g := s.fetches[k], Step(checks, s, e).fetches[k];
            && SlotAge(f) <= SlotAge(g)
            && (SlotAge(f) == 1 && SlotAge(g) == 1 ==> f.slot == g.slot)
            && (f.handler.Spent? ==> g.handler == f.handler)
  {
    var f := s.fetches[k];
    assert FetchOk(f, s.errors);
    if e.Caller? {
      CallAges(f, e.call, s.errors, s.now);
    } else if e.Block? {
      BlockAges(checks, f, e.step, s.errors);
    }
  }

  lemma CallAges(f: Fetch, call: Call, errors: seq<string>, now: nat)
    requires SlotOk(f) && TakenOnce(f)
    ensures var g := CallStep(f, call, errors, now);
            && SlotAge(f) <= SlotAge(g)
            && (SlotAge(f) == 1 && SlotAge(g) == 1 ==> f.slot == g.slot)
            && (f.handler.Spent? ==> g.handler == f.handler)
  {
  }

  lemma BlockAges(checks: bool, f: Fetch, step: BlockStep, errors: seq<string>)
    requires SlotOk(f) && TakenOnce(f)
    ensures var g := BlockStepped(checks, f, step, errors);
            && SlotAge(f) <= SlotAge(g)
            && (SlotAge(f) == 1 && SlotAge(g) == 1 ==> f.slot == g.slot)
            && (f.handler.Spent? ==> g.handler == f.handler)
  {
  }

  /** Over any run on from any reachable state the slot goes empty, full, empty at most once,
      holds one value while full, and the handler stays with the firing that took it. */
  lemma {:induction false} SlotAges(checks: bool, es: seq<Event>, more: seq<Event>, k: nat)
    requires k < |Run(checks, es).fetches|
    ensures k < |RunFrom(checks, Run(checks, es), more).fetches|
    ensures var f, g := Run(checks, es).fetches[k], RunFrom(checks, Run(checks, es), more).fetches[k];
            && SlotAge(f) <= SlotAge(g)
            && (SlotAge(f) == 1 && SlotAge(g) == 1 ==> f.slot == g.slot)
            && (f.handler.Spent? ==> g.handler == f.handler)
    decreases |more|
  {
    if more != [] {
      var init, last := more[..|more| - 1], more[|more| - 1];
      SlotAges(checks, es, init, k);
      RunFromJoins(checks, INITIAL, es, init);
      RunKeeps(checks, es + init);
      SlotAgesInStep(checks, Run(checks, es + init), last, k);
    }
  }

  lemma {:induction false} RunFromJoins(checks: bool, s: State, es: seq<Event>, more: seq<Event>)
    ensures RunFrom(checks, RunFrom(checks, s, es), more) == RunFrom(checks, s, es + more)
    decreases |more|
  {
    if more == [] {
      assert es + more == es;
    } else {
      RunFromJoins(checks, s, es, more[..|more| - 1]);
      assert (es + more)[..|es + more| - 1] == es + more[..|more| - 1];
    }
  }

  /** At most one firing of a fetch ever has the handler. */
  lemma HandlerOnce(checks: bool, es: seq<Event>, k: nat, i: nat, j: nat)
    requires k < |Run(checks, es).fetches|
    requires var f := Run(checks, es).fetches[k];
             i < |f.firings| && j < |f.firings| && HasTaken(f.firings[i]) && HasTaken(f.firings[j])
    ensures i == j
  {
    RunKeeps(checks, es);
    assert FetchOk(Run(checks, es).fetches[k], Run(checks, es).errors);
  }
}
