/** Every blocking fetch is a run of the fetch protocol, with the same answer. */
module BlockingRuns {
  import opened Wrappers
  import opened Fetch
  import opened FetchLaws
  import opened Blocking

  /** A session between fetches. */
  predicate Idle(s: State) {
    s.fetches == [] || s.fetches[|s.fetches| - 1].phase.Returned?
  }

  /** `t` has one fetch more than `s`, at `phase`, and is otherwise the given world. */
  ghost predicate Stands(s: State, t: State, w: World, mark: nat, phase: Phase, now: nat) {
    && |t.fetches| == |s.fetches| + 1
    && (forall k | 0 <= k < |s.fetches| :: t.fetches[k] == s.fetches[k])
    && t.errors == w.errors && t.now == now
    && FetchStands(t.fetches[|s.fetches|], w, |s.errors|, mark, phase)
  }

  ghost predicate FetchStands(f: Fetch, w: World, outerMark: nat, mark: nat, phase: Phase) {
    && f.outerMark == outerMark && f.innerMark == mark && f.phase == phase
    && f.slot == w.slot && f.handler.Held? == w.held && f.handler != Absent
  }

  // ---------------------------------------------------------------------------
  // The framework's part
  // ---------------------------------------------------------------------------

  /** One entry of the block, step by step. */
  function Fired(f: Fetch, read: Outcome, errors: seq<string>): Fetch {
    var i := |f.firings|;
    var entered := BlockStepped(true, f, Enter(read), errors);
    var checked := BlockStepped(true, entered, CheckBlock(i), errors);
    var took := BlockStepped(true, checked, TakeHandler(i), errors);
    BlockStepped(true, took, StoreOutcome(i), errors)
  }

  lemma FiredStands(f: Fetch, w: World, outerMark: nat, mark: nat, phase: Phase, read: ReadOutcome)
    requires FetchStands(f, w, outerMark, mark, phase)
    ensures FetchStands(Fired(f, read, w.errors), Acted(w, mark, Fires(read)), outerMark, mark, phase)
  {
  }

  lemma FourSteps(t: State, k: nat, read: Outcome) returns (es: seq<Event>)
    requires k < |t.fetches|
    ensures RunFrom(true, t, es) == t.(fetches := t.fetches[k := Fired(t.fetches[k], read, t.errors)])
  {
    var i := |t.fetches[k].firings|;
    es := NextBlock(t, [], k, t.fetches[k], Enter(read));
    var entered := BlockStepped(true, t.fetches[k], Enter(read), t.errors);
    es := NextBlock(t, es, k, entered, CheckBlock(i));
    var checked := BlockStepped(true, entered, CheckBlock(i), t.errors);
    es := NextBlock(t, es, k, checked, TakeHandler(i));
    var took := BlockStepped(true, checked, TakeHandler(i), t.errors);
    es := NextBlock(t, es, k, took, StoreOutcome(i));
  }

  lemma NextBlock(t: State, es: seq<Event>, k: nat, f: Fetch, step: BlockStep) returns (more: seq<Event>)
    requires k < |t.fetches| && RunFrom(true, t, es) == t.(fetches := t.fetches[k := f])
    ensures RunFrom(true, t, more) == t.(fetches := t.fetches[k := BlockStepped(true, f, step, t.errors)])
  {
    more := Next(t, es, Block(k, step));
    var g := BlockStepped(true, f, step, t.errors);
    assert t.fetches[k := f][k := g] == t.fetches[k := g];
  }

  lemma ActIsRun(s: State, t: State, w: World, mark: nat, phase: Phase, now: nat, act: Act) returns (es: seq<Event>)
    requires Stands(s, t, w, mark, phase, now)
    ensures Stands(s, RunFrom(true, t, es), Acted(w, mark, act), mark, phase, now)
  {
    var k := |s.fetches|;
    match act
    case Reports(message) =>
      es := [Report(message)];
      assert es[..0] == [];
    case Fires(read) =>
      es := FourSteps(t, k, read);
      FiredStands(t.fetches[k], w, |s.errors|, mark, phase, read);
  }

  lemma {:induction false} ActsAreRun(s: State, t: State, w: World, mark: nat, phase: Phase, now: nat, acts: seq<Act>)
    returns (es: seq<Event>)
    requires Stands(s, t, w, mark, phase, now)
    ensures Stands(s, RunFrom(true, t, es), Performed(w, mark, acts), mark, phase, now)
    decreases |acts|
  {
    es := [];
    if acts != [] {
      var init, last := acts[..|acts| - 1], acts[|acts| - 1];
      es := ActsAreRun(s, t, w, mark, phase, now, init);
      var more := ActIsRun(s, RunFrom(true, t, es), Performed(w, mark, init), mark, phase, now, last);
      RunFromJoins(true, t, es, more);
      es := es + more;
    }
  }

  /** One more event of the caller or the clock. */
  lemma Next(t: State, es: seq<Event>, e: Event) returns (more: seq<Event>)
    ensures more == es + [e] && RunFrom(true, t, more) == Step(true, RunFrom(true, t, es), e)
  {
    more := es + [e];
    assert more[..|es|] == es;
  }

  lemma NextActs(s: State, t: State, es: seq<Event>, w: World, mark: nat, phase: Phase, now: nat, acts: seq<Act>)
    returns (more: seq<Event>)
    requires Stands(s, RunFrom(true, t, es), w, mark, phase, now)
    ensures Stands(s, RunFrom(true, t, more), Performed(w, mark, acts), mark, phase, now)
  {
    var tail := ActsAreRun(s, RunFrom(true, t, es), w, mark, phase, now, acts);
    RunFromJoins(true, t, es, tail);
    more := es + tail;
  }

  // ---------------------------------------------------------------------------
  // The wait
  // ---------------------------------------------------------------------------

  function Deadline(wait: Wait): nat {
    wait.start + wait.timeout
  }

  /** From the beginning of a wait to any poll it reaches. */
  lemma {:induction false} TurnsAreRun(s: State, t: State, wait: Wait, n: nat) returns (es: seq<Event>)
    requires Stands(s, t, wait.world, wait.mark, Pumping(Deadline(wait)), wait.start)
    requires forall m: nat | m < n :: GoesOn(wait, m)
    ensures Stands(s, RunFrom(true, t, es), WorldAt(wait, n), wait.mark, Pumping(Deadline(wait)), PolledAt(wait, n))
    decreases n
  {
    es := [];
    if n > 0 {
      var m := n - 1;
      es := TurnsAreRun(s, t, wait, m);
      es := TurnIsRun(s, t, es, wait, m);
    }
  }

  lemma TurnIsRun(s: State, t: State, es: seq<Event>, wait: Wait, m: nat) returns (more: seq<Event>)
    requires GoesOn(wait, m)
    requires Stands(s, RunFrom(true, t, es), WorldAt(wait, m), wait.mark, Pumping(Deadline(wait)), PolledAt(wait, m))
    ensures Stands(s, RunFrom(true, t, more), WorldAt(wait, m + 1), wait.mark, Pumping(Deadline(wait)),
                   PolledAt(wait, m + 1))
  {
    var early := Performed(WorldAt(wait, m), wait.mark, wait.turns(m).early);
    more := EmptyPoll(s, t, es, wait, m);
    more := Next(t, more, Caller(CheckDeadline));
    more := NextActs(s, t, more, early, wait.mark, Pumping(Deadline(wait)), CheckedAt(wait, m), wait.turns(m).late);
    more := Next(t, more, Tick(1 + wait.turns(m).extra));
  }

  /** A poll of an empty slot, and all that happens up to the deadline check. */
  lemma EmptyPoll(s: State, t: State, es: seq<Event>, wait: Wait, m: nat) returns (more: seq<Event>)
    requires WorldAt(wait, m).slot.None?
    requires Stands(s, RunFrom(true, t, es), WorldAt(wait, m), wait.mark, Pumping(Deadline(wait)), PolledAt(wait, m))
    ensures Stands(s, RunFrom(true, t, more), Performed(WorldAt(wait, m), wait.mark, wait.turns(m).early), wait.mark,
                   PolledEmpty(Deadline(wait)), CheckedAt(wait, m))
  {
    more := Next(t, es, Caller(Poll));
    more := NextActs(s, t, more, WorldAt(wait, m), wait.mark, PolledEmpty(Deadline(wait)), PolledAt(wait, m),
                     wait.turns(m).early);
    more := Next(t, more, Tick(wait.turns(m).before));
  }

  /** Every execution of the wait is a run, and collects what the wait gives. */
  lemma WaitIsRun(s: State, t: State, wait: Wait, n: nat) returns (es: seq<Event>, now: nat)
    requires Stands(s, t, wait.world, wait.mark, Pumping(Deadline(wait)), wait.start)
    requires EndsAt(wait, n)
    ensures Stands(s, RunFrom(true, t, es), Left(wait, n), wait.mark, Collected(Waited(wait, n)), now)
  {
    es := TurnsAreRun(s, t, wait, n);
    if WorldAt(wait, n).slot.Some? {
      now := PolledAt(wait, n);
      es := Next(t, es, Caller(Poll));
    } else {
      now := CheckedAt(wait, n);
      es := EmptyPoll(s, t, es, wait, n);
      es := Next(t, es, Caller(CheckDeadline));
    }
  }

  // ---------------------------------------------------------------------------
  // The whole fetch
  // ---------------------------------------------------------------------------

  lemma {:induction false} ReportsAreRun(t: State, es: seq<Event>, messages: seq<string>) returns (more: seq<Event>)
    ensures var u := RunFrom(true, t, es);
            RunFrom(true, t, more) == u.(errors := u.errors + messages)
    decreases |messages|
  {
    more := es;
    if messages != [] {
      var init, last := messages[..|messages| - 1], messages[|messages| - 1];
      more := ReportsAreRun(t, es, init);
      more := Next(t, more, Report(last));
      assert messages == init + [last];
      assert RunFrom(true, t, es).errors + init + [last] == RunFrom(true, t, es).errors + messages;
    } else {
      assert RunFrom(true, t, es).errors + messages == RunFrom(true, t, es).errors;
    }
  }

  /** From the outer mark to the answer of `-fetch:`. */
  lemma DispatchIsRun(s: State, script: Script) returns (es: seq<Event>)
    requires Idle(s) && s.now <= script.start
    ensures var wait := WaitOf(s.errors, script);
            Stands(s, RunFrom(true, s, es), wait.world, wait.mark, Armed, script.start)
  {
    var marked := s.errors + script.marking;
    es := Next(s, [], Begin);
    es := ReportsAreRun(s, es, script.marking);
    es := Next(s, es, Caller(MarkInner));
    es := Next(s, es, Caller(Arm));
    es := Next(s, es, Tick(script.start - s.now));
    es := NextActs(s, s, es, World(marked, true, None), |marked|, Armed, script.start, script.dispatching);
  }

  /** Every blocking fetch is a run of the protocol from the session it finds, with the same
      answer and the same errors: so all that holds of every run holds of it. */
  lemma FetchIsRun(s: State, script: Script, n: nat) returns (es: seq<Event>)
    requires Idle(s) && s.now <= script.start
    requires script.token ==> EndsAt(WaitOf(s.errors, script), n)
    ensures var t := RunFrom(true, s, es);
            && |t.fetches| == |s.fetches| + 1
            && (forall k | 0 <= k < |s.fetches| :: t.fetches[k] == s.fetches[k])
            && t.fetches[|s.fetches|].outerMark == |s.errors|
            && t.fetches[|s.fetches|].phase.Returned?
            && t.fetches[|s.fetches|].phase.answer
               == (if script.token then Answer(s.errors, script, n) else Failure(NoToken))
            && t.errors
               == (if script.token then ErrorsAtCheck(s.errors, script, n) else WaitOf(s.errors, script).world.errors)
  {
    es := DispatchIsRun(s, script);
    es := Next(s, es, Caller(Dispatch(script.token)));
    if script.token {
      var wait := WaitOf(s.errors, script);
      es := Next(s, es, Caller(StartPump(script.timeout)));
      var now;
      es, now := CheckIsRun(s, es, script, wait, n);
    }
  }

  /** The wait, what happens after it, and the check. */
  lemma CheckIsRun(s: State, es: seq<Event>, script: Script, wait: Wait, n: nat) returns (more: seq<Event>, now: nat)
    requires wait == WaitOf(s.errors, script) && EndsAt(wait, n)
    requires Stands(s, RunFrom(true, s, es), wait.world, wait.mark, Pumping(Deadline(wait)), wait.start)
    ensures var closed := Performed(Left(wait, n), wait.mark, script.closing);
            Stands(s, RunFrom(true, s, more), closed, wait.mark,
                   Returned(Answer(s.errors, script, n), Some(Waited(wait, n)), |closed.errors|), now)
  {
    var tail;
    tail, now := WaitIsRun(s, RunFrom(true, s, es), wait, n);
    RunFromJoins(true, s, es, tail);
    more := es + tail;
    more := NextActs(s, s, more, Left(wait, n), wait.mark, Collected(Waited(wait, n)), now, script.closing);
    more := Checked(s, more, Performed(Left(wait, n), wait.mark, script.closing), wait.mark, Waited(wait, n), now);
  }

  lemma Checked(s: State, es: seq<Event>, w: World, mark: nat, outcome: Outcome, now: nat) returns (more: seq<Event>)
    requires Stands(s, RunFrom(true, s, es), w, mark, Collected(outcome), now)
    ensures Stands(s, RunFrom(true, s, more), w, mark,
                   Returned(Verdict(w.errors, |s.errors|, outcome), Some(outcome), |w.errors|), now)
  {
    more := Next(s, es, Caller(CheckObserver));
  }
}
