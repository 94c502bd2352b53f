/**
  The fetch protocol of `fetch.rs`: one caller thread that marks, dispatches, polls and times
  out, and framework threads that report errors and enter completion blocks whenever and as
  often as they like. A run is any sequence of events; an event that is not enabled does
  nothing.
 */
module Fetch {
  import opened Wrappers
  import opened Plist
  import opened Observer
  import opened ReplyEnvelope

  datatype ParseError = NotAPlist | Shape(why: ShapeError)

  datatype FetchError =
    | EmptyBatch
    | NoToken
    | Timeout
    | NoResponse
    | NoData
    | Replayer(message: string)
    | Parse(why: ParseError)
    | Setup(reason: string)

  type Outcome = Result<RawReply, FetchError>

  // ---------------------------------------------------------------------------
  // What a completion block is handed
  // ---------------------------------------------------------------------------

  /** The one argument of a completion block. A reply's bytes stand as the value tree they
      parse to, if any. */
  datatype Response =
    | NoObject
    | Deaf
    | Object(error: Option<string>, data: Option<Option<Value>>)

  /** `read_response`. */
  function ReadResponse(response: Response): Outcome {
    match response
    case NoObject => Failure(NoResponse)
    case Deaf => Failure(NoResponse)
    case Object(error, data) =>
      if error.Some? then Failure(Replayer(error.value))
      else if data.None? then Failure(NoData)
      else if data.value.None? then Failure(Parse(NotAPlist))
      else
        var parsed := ParseReply(data.value.value);
        if parsed.Success? then Success(parsed.value) else Failure(Parse(Shape(parsed.error)))
  }

  /** What `read_response` may give: a reply, or an error of the response itself. */
  predicate Readable(outcome: Outcome) {
    outcome.Failure? ==>
      var e := outcome.error; e.NoResponse? || e.NoData? || e.Replayer? || e.Parse?
  }

  /** A reply is read exactly from a response without error whose data parses to it; a read
      error is never one of the fetch's own. */
  lemma ReadExactly(response: Response, reply: RawReply)
    ensures Readable(ReadResponse(response))
    ensures ReadResponse(response) == Success(reply)
       <==> && response.Object? && response.error == None
            && response.data.Some? && response.data.value.Some?
            && ParseReply(response.data.value.value) == Success(reply)
  {
  }

  /** Every other response, exactly: no usable object, then the response's own error whatever
      data comes with it, then no data, then data that does not parse. */
  lemma ReadFailsExactly(response: Response)
    ensures ReadResponse(response) == Failure(NoResponse) <==> response.NoObject? || response.Deaf?
    ensures forall message :: ReadResponse(response) == Failure(Replayer(message))
                         <==> response.Object? && response.error == Some(message)
    ensures ReadResponse(response) == Failure(NoData)
       <==> response.Object? && response.error == None && response.data == None
    ensures ReadResponse(response) == Failure(Parse(NotAPlist))
       <==> response.Object? && response.error == None && response.data == Some(None)
    ensures forall why :: ReadResponse(response) == Failure(Parse(Shape(why)))
                     <==> && response.Object? && response.error == None
                          && response.data.Some? && response.data.value.Some?
                          && ParseReply(response.data.value.value) == Failure(why)
  {
  }

  // ---------------------------------------------------------------------------
  // One fetch
  // ---------------------------------------------------------------------------

  /** Where the caller is. A returned fetch remembers what it collected, if it got so far,
      and how many errors it saw. */
  datatype Phase =
    | Marked
    | InnerMarked
    | Armed
    | Dispatched
    | Pumping(deadline: nat)
    | PolledEmpty(deadline: nat)
    | Collected(result: Outcome)
    | Returned(answer: Outcome, collected: Option<Outcome>, seen: nat)

  /** One entry of the completion block: what it read, and how far it has come. */
  datatype Firing = Firing(read: Outcome, stage: Stage)

  datatype Stage =
    | Entered
    | Checked(result: Outcome)
    | Took(result: Outcome)
    | Done(result: Outcome, took: bool)

  /** The take-once handler; a spent one remembers the firing that took it. */
  datatype Handler = Absent | Held | Spent(taker: nat)

  datatype Fetch = Fetch(
    outerMark: nat, innerMark: nat, phase: Phase, handler: Handler, slot: Option<Outcome>,
    firings: seq<Firing>, polls: seq<bool>)

  datatype Call =
    | MarkInner
    | Arm
    | Dispatch(token: bool)
    | StartPump(timeout: nat)
    | Poll
    | CheckDeadline
    | CheckObserver

  datatype BlockStep =
    | Enter(read: Outcome)
    | CheckBlock(i: nat)
    | TakeHandler(i: nat)
    | StoreOutcome(i: nat)

  /** The observer's verdict over an outcome. */
  function Verdict(errors: seq<string>, mark: nat, outcome: Outcome): Outcome {
    var message := FirstSince(errors, mark);
    if message.Some? then Failure(Replayer(message.value)) else outcome
  }

  /** One step of the caller's thread. */
  function CallStep(f: Fetch, call: Call, errors: seq<string>, now: nat): Fetch {
    match (f.phase, call)
    case (Marked, MarkInner) => f.(phase := InnerMarked, innerMark := |errors|)
    case (InnerMarked, Arm) => f.(phase := Armed, handler := Held)
    case (Armed, Dispatch(token)) =>
      if token then f.(phase := Dispatched) else f.(phase := Returned(Failure(NoToken), None, |errors|))
    case (Dispatched, StartPump(timeout)) => f.(phase := Pumping(now + timeout))
    case (Pumping(deadline), Poll) =>
      if f.slot.Some? then f.(phase := Collected(f.slot.value), slot := None, polls := f.polls + [true])
      else f.(phase := PolledEmpty(deadline), polls := f.polls + [false])
    case (PolledEmpty(deadline), CheckDeadline) =>
      if now >= deadline then f.(phase := Collected(Failure(Timeout))) else f.(phase := Pumping(deadline))
    case (Collected(result), CheckObserver) =>
      f.(phase := Returned(Verdict(errors, f.outerMark, result), Some(result), |errors|))
    case _ => f
  }

  /** One step of a framework thread inside the completion block. `checks` says whether the
      block consults the observer. */
  function BlockStepped(checks: bool, f: Fetch, step: BlockStep, errors: seq<string>): Fetch {
    match step
    case Enter(read) =>
      if f.handler != Absent && Readable(read) then f.(firings := f.firings + [Firing(read, Entered)]) else f
    case CheckBlock(i) =>
      if i < |f.firings| && f.firings[i].stage.Entered? then
        var read := f.firings[i].read;
        var result := if checks && read.Success? then Verdict(errors, f.innerMark, read) else read;
        f.(firings := f.firings[i := Firing(read, Checked(result))])
      else f
    case TakeHandler(i) =>
      if i < |f.firings| && f.firings[i].stage.Checked? then
        var fi := f.firings[i];
        if f.handler.Held? then
          f.(handler := Spent(i), firings := f.firings[i := fi.(stage := Took(fi.stage.result))])
        else
          f.(firings := f.firings[i := fi.(stage := Done(fi.stage.result, false))])
      else f
    case StoreOutcome(i) =>
      if i < |f.firings| && f.firings[i].stage.Took? then
        var fi := f.firings[i];
        f.(slot := if f.slot.None? then Some(fi.stage.result) else f.slot,
           firings := f.firings[i := fi.(stage := Done(fi.stage.result, true))])
      else f
  }

  // ---------------------------------------------------------------------------
  // The session
  // ---------------------------------------------------------------------------

  datatype State = State(errors: seq<string>, now: nat, fetches: seq<Fetch>)

  datatype Event =
    | Report(message: string)
    | Tick(ticks: nat)
    | Begin
    | Caller(call: Call)
    | Block(fetch: nat, step: BlockStep)

  const INITIAL := State([], 0, [])

  function Fresh(mark: nat): Fetch {
    Fetch(mark, 0, Marked, Absent, None, [], [])
  }

  function Step(checks: bool, s: State, e: Event): State {
    var n := |s.fetches|;
    match e
    case Report(message) => s.(errors := s.errors + [message])
    case Tick(ticks) => s.(now := s.now + ticks)
    case Begin =>
      if n == 0 || s.fetches[n - 1].phase.Returned? then s.(fetches := s.fetches + [Fresh(|s.errors|)]) else s
    case Caller(call) =>
      if n == 0 then s
      else s.(fetches := s.fetches[n - 1 := CallStep(s.fetches[n - 1], call, s.errors, s.now)])
    case Block(k, step) =>
      if k < n then s.(fetches := s.fetches[k := BlockStepped(checks, s.fetches[k], step, s.errors)]) else s
  }

  function RunFrom(checks: bool, s: State, es: seq<Event>): State {
    if es == [] then s else Step(checks, RunFrom(checks, s, es[..|es| - 1]), es[|es| - 1])
  }

  function Run(checks: bool, es: seq<Event>): State {
    RunFrom(checks, INITIAL, es)
  }
}
