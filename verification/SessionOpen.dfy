/**
  Concurrent calls of `Session::open`: the checks before the one-shot flag, the swap, the
  bootstrap behind it, and the observer that must be registered before the load.
 */
module SessionOpen {
  import opened Wrappers

  datatype SessionError =
    | BadBundle
    | UnlockEnv
    | AlreadyOpen
    | Apr(code: int)
    | Replayer(message: string)
    | LoadFailed

  /** Where a call is. An ended one that got as far as the load remembers its report and how
      many errors had been reported when it checked. */
  datatype Point =
    | AtShape
    | AtPath
    | AtEnv
    | AtSwap
    | AtApr
    | AtPool
    | AtClient
    | AtObserver
    | AtClass
    | AtService
    | AtLoad
    | AtVerdict(loaded: bool)
    | Ended(result: Result<(), SessionError>, load: Option<bool>, checkedAt: nat)

  /** A call, what its observer has recorded, the number of reports before that was registered,
      and what the world has answered the call so far. */
  datatype Opening = Opening(point: Point, errors: seq<string>, registeredAt: nat, answers: seq<World>)

  /** What the world answers at the current point of a call. */
  datatype World = World(ok: bool, code: int, loadError: Option<string>)

  /** The process: the flag, the call that found it clear, the call whose observer the
      framework holds, every report so far, and the calls. */
  datatype Process = Process(
    bootstrapped: bool, winner: Option<nat>, observer: Option<nat>, reports: seq<string>, calls: seq<Opening>)

  datatype Event =
    | OpenCalled
    | Advance(call: nat, world: World)
    | Report(message: string)

  const START := Process(false, None, None, [], [])

  const NOT_REGISTERED := "the GTMTLReplayService class is not registered; GPUToolsReplay did not load"
  const NOT_CONSTRUCTED := "GTMTLReplayService could not be constructed"

  /** A call that ends before its final check. */
  function Rejected(c: Opening, error: SessionError): Opening {
    c.(point := Ended(Failure(error), None, 0))
  }

  /** The steps of one call that touch nothing shared. */
  function Locally(c: Opening, world: World, reported: nat): Opening {
    match c.point
    case AtShape => if world.ok then c.(point := AtPath) else Rejected(c, BadBundle)
    case AtPath => if world.ok then c.(point := AtEnv) else Rejected(c, BadBundle)
    case AtEnv => if world.ok then c.(point := AtSwap) else Rejected(c, UnlockEnv)
    case AtApr => if world.code != 0 then Rejected(c, Apr(world.code)) else c.(point := AtPool)
    case AtPool => if world.code != 0 || !world.ok then Rejected(c, Apr(world.code)) else c.(point := AtClient)
    case AtClient => c.(point := AtObserver)
    case AtClass => if world.ok then c.(point := AtService) else Rejected(c, Replayer(NOT_REGISTERED))
    case AtService => if world.ok then c.(point := AtLoad) else Rejected(c, Replayer(NOT_CONSTRUCTED))
    case AtLoad =>
      if world.loadError.Some? then Rejected(c, Replayer(world.loadError.value))
      else c.(point := AtVerdict(world.ok))
    case AtVerdict(loaded) =>
      var result :=
        if c.errors != [] then Failure(Replayer(c.errors[0]))
        else if !loaded then Failure(LoadFailed)
        else Success(());
      c.(point := Ended(result, Some(loaded), reported))
    case _ => c
  }

  function Step(s: Process, e: Event): Process {
    match e
    case OpenCalled => s.(calls := s.calls + [Opening(AtShape, [], 0, [])])
    case Report(message) =>
      var heard := s.(reports := s.reports + [message]);
      if s.observer.Some? && s.observer.value < |s.calls| then
        var k := s.observer.value;
        heard.(calls := s.calls[k := s.calls[k].(errors := s.calls[k].errors + [message])])
      else heard
    case Advance(k, world) =>
      if k >= |s.calls| || s.calls[k].point.Ended? then s
      else
        var c := s.calls[k].(answers := s.calls[k].answers + [world]);
        if c.point.AtSwap? then
          if s.bootstrapped then s.(calls := s.calls[k := Rejected(c, AlreadyOpen)])
          else s.(bootstrapped := true, winner := Some(k), calls := s.calls[k := c.(point := AtApr)])
        else if c.point.AtObserver? then
          s.(observer := Some(k), calls := s.calls[k := c.(point := AtClass, registeredAt := |s.reports|)])
        else s.(calls := s.calls[k := Locally(c, world, |s.reports|)])
  }

  function Run(es: seq<Event>): Process {
    if es == [] then START else Step(Run(es[..|es| - 1]), es[|es| - 1])
  }

  // ---------------------------------------------------------------------------
  // The invariant
  // ---------------------------------------------------------------------------

  /** The call has not come past the swap, or was turned away at or before it. */
  predicate Outside(p: Point) {
    || p.AtShape? || p.AtPath? || p.AtEnv? || p.AtSwap?
    || (p.Ended? && p.result.Failure? && p.result.error in {BadBundle, UnlockEnv, AlreadyOpen})
  }

  /** The call's observer is with the framework. */
  predicate Watched(p: Point) {
    || p.AtClass? || p.AtService? || p.AtLoad? || p.AtVerdict?
    || (p.Ended? && p.load.Some?)
  }

  ghost predicate CallOk(s: Process, k: nat)
    requires k < |s.calls|
  {
    var c := s.calls[k];
    && (s.winner == Some(k) <==> !Outside(c.point))
    && (Watched(c.point) ==> s.observer == Some(k))
    && (s.observer == Some(k) ==>
          && !Outside(c.point) && !Early(c.point)
          && c.registeredAt <= |s.reports| && c.errors == s.reports[c.registeredAt..])
    && (s.observer != Some(k) ==> c.errors == [])
    && (c.point.Ended? ==> EndOk(c, s.reports))
    && (c.point.Ended? && c.point.result == Failure(AlreadyOpen) ==> s.bootstrapped)
  }

  /** Past the swap but before the observer. */
  predicate Early(p: Point) {
    p.AtApr? || p.AtPool? || p.AtClient? || p.AtObserver?
  }

  /** A final check answers with the first report since registration, else with the load. */
  ghost predicate EndOk(c: Opening, reports: seq<string>)
    requires c.point.Ended?
  {
    var p := c.point;
    && (p.result.Success? ==> p.load.Some?)
    && (p.load.Some? ==>
          && c.registeredAt <= p.checkedAt <= |reports|
          && p.result == (if c.registeredAt < p.checkedAt then Failure(Replayer(reports[c.registeredAt]))
                          else if p.load.value then Success(()) else Failure(LoadFailed)))
  }

  ghost predicate Inv(s: Process) {
    && (s.bootstrapped <==> s.winner.Some?)
    && (s.winner.Some? ==> s.winner.value < |s.calls|)
    && (s.observer.Some? ==> s.observer == s.winner)
    && forall k | 0 <= k < |s.calls| :: CallOk(s, k)
  }

  lemma ReportKeeps(s: Process, message: string, k: nat)
    requires Inv(s) && k < |s.calls|
    ensures CallOk(Step(s, Report(message)), k)
  {
    assert CallOk(s, k);
    var c := s.calls[k];
    if s.observer == Some(k) {
      assert (s.reports + [message])[c.registeredAt..] == s.reports[c.registeredAt..] + [message];
    }
  }

  lemma AdvanceKeeps(s: Process, call: nat, world: World, k: nat)
    requires Inv(s) && k < |s.calls|
    ensures CallOk(Step(s, Advance(call, world)), k)
  {
    assert CallOk(s, k);
    if call < |s.calls| {
      assert CallOk(s, call);
      if call != k {
        AdvanceKeepsOther(s, call, world, k);
      } else if s.calls[k].point.AtSwap? || s.calls[k].point.AtObserver? {
        assert s.observer == Some(k) ==> !Early(s.calls[k].point);
      } else {
        LocallyKeeps(s, world, k);
      }
    }
  }

  lemma AdvanceKeepsOther(s: Process, call: nat, world: World, k: nat)
    requires Inv(s) && call < |s.calls| && k < |s.calls| && call != k
    ensures CallOk(Step(s, Advance(call, world)), k)
  {
    assert CallOk(s, k) && CallOk(s, call);
  }

  lemma LocallyKeeps(s: Process, world: World, k: nat)
    requires Inv(s) && k < |s.calls| && !s.calls[k].point.AtSwap? && !s.calls[k].point.AtObserver?
    ensures CallOk(Step(s, Advance(k, world)), k)
  {
    assert CallOk(s, k);
    var c := s.calls[k];
    var asked := c.(answers := c.answers + [world]);
    assert Outside(Locally(asked, world, |s.reports|).point) <==> Outside(c.point);
  }

  lemma StepKeeps(s: Process, e: Event)
    requires Inv(s)
    ensures Inv(Step(s, e))
  {
    var t := Step(s, e);
    if e.Advance? && e.call < |s.calls| {
      assert CallOk(s, e.call);
    }
    forall k | 0 <= k < |t.calls| ensures CallOk(t, k) {
      if k < |s.calls| {
        match e
        case OpenCalled => assert CallOk(s, k);
        case Report(message) => ReportKeeps(s, message, k);
        case Advance(call, world) => AdvanceKeeps(s, call, world, k);
      }
    }
  }

  lemma {:induction false} RunKeeps(es: seq<Event>)
    ensures Inv(Run(es))
    decreases |es|
  {
    if es != [] {
      RunKeeps(es[..|es| - 1]);
      StepKeeps(Run(es[..|es| - 1]), es[|es| - 1]);
    }
  }

  // ---------------------------------------------------------------------------
  // What every interleaving keeps
  // ---------------------------------------------------------------------------

  /** At most one call passes the swap, the flag is set exactly when one has, and the calls
      turned away by the checks before it are not the one. */
  lemma OneShot(es: seq<Event>)
    ensures forall j, k | 0 <= j < |Run(es).calls| && 0 <= k < |Run(es).calls| ::
              !Outside(Run(es).calls[j].point) && !Outside(Run(es).calls[k].point) ==> j == k
    ensures Run(es).bootstrapped <==> exists k :: 0 <= k < |Run(es).calls| && !Outside(Run(es).calls[k].point)
  {
    RunKeeps(es);
    var s := Run(es);
    forall k | 0 <= k < |s.calls| ensures s.winner == Some(k) <==> !Outside(s.calls[k].point) {
      assert CallOk(s, k);
    }
    if s.bootstrapped {
      assert !Outside(s.calls[s.winner.value].point);
    }
  }

  /** A step never clears the flag, and sets it only for a call at the swap. */
  lemma FlagMonotone(s: Process, e: Event)
    ensures s.bootstrapped ==> Step(s, e).bootstrapped
    ensures !s.bootstrapped && Step(s, e).bootstrapped ==>
              && e.Advance? && e.call < |s.calls| && s.calls[e.call].point.AtSwap?
              && Step(s, e).calls[e.call].point.AtApr?
  {
  }

  /** A call is told the session is already open only when another has passed the swap. */
  lemma AlreadyOpenBlames(es: seq<Event>, k: nat) returns (j: nat)
    requires k < |Run(es).calls|
    requires Run(es).calls[k].point.Ended? && Run(es).calls[k].point.result == Failure(AlreadyOpen)
    ensures j < |Run(es).calls| && j != k && !Outside(Run(es).calls[j].point)
  {
    RunKeeps(es);
    var s := Run(es);
    assert CallOk(s, k);
    j := s.winner.value;
    assert CallOk(s, j);
  }

  /** Whenever a call is about to load, or to give its verdict on the load, the framework
      holds its observer, and that has recorded every report since it was registered. */
  lemma ObserverBeforeLoad(es: seq<Event>, k: nat)
    requires k < |Run(es).calls| && (Run(es).calls[k].point.AtLoad? || Run(es).calls[k].point.AtVerdict?)
    ensures var s := Run(es);
            && s.observer == Some(k)
            && s.calls[k].registeredAt <= |s.reports|
            && s.calls[k].errors == s.reports[s.calls[k].registeredAt..]
  {
    RunKeeps(es);
    assert CallOk(Run(es), k);
  }

  /** A session opens exactly when the final check is reached after a true load with nothing
      reported since the observer was registered; otherwise that check answers with the first
      such report, before it looks at the load. */
  lemma OpensExactly(es: seq<Event>, k: nat)
    requires k < |Run(es).calls| && Run(es).calls[k].point.Ended?
    ensures var c := Run(es).calls[k];
            && (c.point.result.Success? <==> c.point.load == Some(true) && c.point.checkedAt == c.registeredAt)
            && (c.point.load.Some? && c.registeredAt < c.point.checkedAt ==>
                  c.point.checkedAt <= |Run(es).reports|
                  && c.point.result == Failure(Replayer(Run(es).reports[c.registeredAt])))
            && (c.point.load == Some(false) && c.point.checkedAt == c.registeredAt ==>
                  c.point.result == Failure(LoadFailed))
  {
    RunKeeps(es);
    assert CallOk(Run(es), k);
  }

  /** At most one session in the life of the process: and none, once a call has passed the
      swap and failed. */
  lemma AtMostOneSession(es: seq<Event>, j: nat, k: nat)
    requires j < |Run(es).calls| && k < |Run(es).calls|
    requires Run(es).calls[j].point.Ended? && Run(es).calls[j].point.result.Success?
    requires !Outside(Run(es).calls[k].point)
    ensures j == k
  {
    RunKeeps(es);
    assert CallOk(Run(es), j) && CallOk(Run(es), k);
  }

  // ---------------------------------------------------------------------------
  // Every call by its answers
  // ---------------------------------------------------------------------------

  /** How many answers a call has had that stands there. */
  ghost function Place(p: Point): nat {
    match p
    case AtShape => 0
    case AtPath => 1
    case AtEnv => 2
    case AtSwap => 3
    case AtApr => 4
    case AtPool => 5
    case AtClient => 6
    case AtObserver => 7
    case AtClass => 8
    case AtService => 9
    case AtLoad => 10
    case AtVerdict(_) => 11
    case Ended(_, _, _) => 12
  }

  /** The answer lets a call past its place. The swap is decided by the flag alone. */
  ghost predicate Passes(i: nat, w: World) {
    match i
    case 0 => w.ok                 // the bundle has the shape of one
    case 1 => w.ok                 // its path is text
    case 2 => w.ok                 // the environment unlocks the framework
    case 4 => w.code == 0          // the runtime initialises
    case 5 => w.code == 0 && w.ok  // and gives a pool
    case 8 => w.ok                 // the service class is registered
    case 9 => w.ok                 // and can be constructed
    case 10 => w.loadError == None
    case _ => true
  }

  /** The error a refusing answer ends a call with. */
  ghost function Refusal(i: nat, w: World): SessionError {
    match i
    case 0 => BadBundle
    case 1 => BadBundle
    case 2 => UnlockEnv
    case 3 => AlreadyOpen
    case 4 => Apr(w.code)
    case 5 => Apr(w.code)
    case 8 => Replayer("the GTMTLReplayService class is not registered; GPUToolsReplay did not load")
    case 9 => Replayer("GTMTLReplayService could not be constructed")
    case _ => if w.loadError.Some? then Replayer(w.loadError.value) else LoadFailed
  }

  ghost predicate AllPass(answers: seq<World>, n: nat) {
    n <= |answers| && forall i | 0 <= i < n :: Passes(i, answers[i])
  }

  /** A call that has not ended has passed every place before its own. One that ended before the
      verdict passed all but the last, and ended with that one's refusal. */
  ghost predicate ByAnswers(c: Opening) {
    var n := |c.answers|;
    if c.point.Ended? then
      && 0 < n <= 12 && AllPass(c.answers, n - 1)
      && (n == 12 ==> c.point.load == Some(c.answers[10].ok))
      && (n < 12 ==>
            && c.point.load == None && c.point.result == Failure(Refusal(n - 1, c.answers[n - 1]))
            && (n == 4 || !Passes(n - 1, c.answers[n - 1])))
    else
      && n == Place(c.point) && AllPass(c.answers, n)
      && (c.point.AtVerdict? ==> c.point.loaded == c.answers[10].ok)
  }

  lemma AdvanceByAnswers(s: Process, k: nat, world: World)
    requires k < |s.calls| && ByAnswers(s.calls[k])
    ensures ByAnswers(Step(s, Advance(k, world)).calls[k])
  {
    var c := s.calls[k];
    if !c.point.Ended? {
      OneMorePasses(c.answers, world);
      if !c.point.AtSwap? && !c.point.AtObserver? {
        LocallyByAnswers(c, world, |s.reports|);
      }
    }
  }

  lemma OneMorePasses(answers: seq<World>, world: World)
    requires AllPass(answers, |answers|)
    ensures AllPass(answers + [world], |answers|)
    ensures Passes(|answers|, world) ==> AllPass(answers + [world], |answers| + 1)
  {
    forall i | 0 <= i < |answers| ensures Passes(i, (answers + [world])[i]) {
      assert (answers + [world])[i] == answers[i];
    }
  }

  lemma LocallyByAnswers(c: Opening, world: World, reported: nat)
    requires ByAnswers(c) && !c.point.Ended? && !c.point.AtSwap? && !c.point.AtObserver?
    ensures ByAnswers(Locally(c.(answers := c.answers + [world]), world, reported))
  {
    OneMorePasses(c.answers, world);
  }

  /** In every interleaving each call stands, and ends, exactly where its own answers put it:
      with the error of the first that refuses it, and past the swap only if the bundle, the
      path and the environment were all accepted. */
  lemma {:induction false} EveryCallByAnswers(es: seq<Event>)
    ensures forall k | 0 <= k < |Run(es).calls| :: ByAnswers(Run(es).calls[k])
    decreases |es|
  {
    if es != [] {
      var s, e := Run(es[..|es| - 1]), es[|es| - 1];
      EveryCallByAnswers(es[..|es| - 1]);
      forall k | 0 <= k < |Step(s, e).calls| ensures ByAnswers(Step(s, e).calls[k]) {
        if e.Advance? && e.call == k && k < |s.calls| {
          AdvanceByAnswers(s, k, e.world);
        }
      }
    }
  }

  /** So a call past the swap was accepted by all three checks before it. */
  lemma PastSwapPassedChecks(es: seq<Event>, k: nat)
    requires k < |Run(es).calls| && !Outside(Run(es).calls[k].point)
    ensures var answers := Run(es).calls[k].answers;
            |answers| >= 4 && answers[0].ok && answers[1].ok && answers[2].ok
  {
    EveryCallByAnswers(es);
    var c := Run(es).calls[k];
    assert ByAnswers(c);
    if |c.answers| >= 4 {
      assert Passes(0, c.answers[0]) && Passes(1, c.answers[1]) && Passes(2, c.answers[2]);
    }
  }

  /** In any state, a call that one of the three checks rejects ends with that error, and the
      flag, its winner, the observer, the reports and the other calls are as they were: so the
      caller can try again. */
  lemma RejectedEarly(s: Process, k: nat, world: World)
    requires k < |s.calls| && !world.ok
    requires var p := s.calls[k].point; p.AtShape? || p.AtPath? || p.AtEnv?
    ensures var t := Step(s, Advance(k, world));
            && t.calls[k].point
               == Ended(Failure(if s.calls[k].point.AtEnv? then UnlockEnv else BadBundle), None, 0)
            && t.bootstrapped == s.bootstrapped && t.winner == s.winner
            && t.observer == s.observer && t.reports == s.reports
            && |t.calls| == |s.calls| && forall j | 0 <= j < |s.calls| && j != k :: t.calls[j] == s.calls[j]
  {
  }

  /** In any state, the swap lets a call through exactly when the flag is clear, and leaves it set. */
  lemma SwapExactly(s: Process, k: nat, world: World)
    requires k < |s.calls| && s.calls[k].point.AtSwap?
    ensures var t := Step(s, Advance(k, world));
            && t.bootstrapped
            && t.calls[k].point == (if s.bootstrapped then Ended(Failure(AlreadyOpen), None, 0) else AtApr)
            && t.winner == if s.bootstrapped then s.winner else Some(k)
  {
  }
}
