/**
  The blocking fetch as the code runs it: the outcome slot, the completion block with its
  take-once handler, the polling loop with its deadline, and the composition that checks the
  observer before it decodes. The framework's part is a script of what it does and when.
 */
module Blocking {
  import opened Wrappers
  import opened Observer
  import opened LittleEndian
  import opened Machine
  import opened ReplyEnvelope
  import opened Records
  import opened RecordTables
  import opened Payloads
  import opened Fetch

  /** The slot a completion handler fills and a waiter empties. */
  class OutcomeCell {
    var slot: Option<Outcome>

    constructor ()
      ensures slot == None
    {
      slot := None;
    }

    /** `store_into`: the first result stays. */
    method StoreInto(result: Outcome)
      modifies this
      ensures slot == FirstOf(old(slot), Some(result))
    {
      if slot.None? {
        slot := Some(result);
      }
    }

    method Take() returns (taken: Option<Outcome>)
      modifies this
      ensures taken == old(slot) && slot == None
    {
      taken := slot;
      slot := None;
    }
  }

  function FirstOf(slot: Option<Outcome>, stored: Option<Outcome>): Option<Outcome> {
    if slot.Some? then slot else stored
  }

  // ---------------------------------------------------------------------------
  // The framework's part
  // ---------------------------------------------------------------------------

  /** What `read_response` can give. */
  type ReadOutcome = o: Outcome | Readable(o) witness Failure(NoData)

  /** One thing the framework does: report an error, or enter the completion block. */
  datatype Act = Reports(message: string) | Fires(read: ReadOutcome)

  /** What the framework and the completion block can change. */
  datatype World = World(errors: seq<string>, held: bool, slot: Option<Outcome>)

  /** The observer is authoritative over a clean reply and silent about a failed one. */
  function BlockResult(errors: seq<string>, mark: nat, read: Outcome): Outcome {
    if read.Success? then Verdict(errors, mark, read) else read
  }

  function Acted(w: World, mark: nat, act: Act): World {
    match act
    case Reports(message) => w.(errors := w.errors + [message])
    case Fires(read) =>
      if w.held then World(w.errors, false, FirstOf(w.slot, Some(BlockResult(w.errors, mark, read)))) else w
  }

  function Performed(w: World, mark: nat, acts: seq<Act>): World {
    if acts == [] then w else Acted(Performed(w, mark, acts[..|acts| - 1]), mark, acts[|acts| - 1])
  }

  /** The completion block: what it captures, and the handler it gives away once. */
  class CompletionBlock {
    const observer: ErrorObserver
    const mark: nat
    const cell: OutcomeCell
    var held: bool

    constructor (observer: ErrorObserver, mark: nat, cell: OutcomeCell)
      ensures this.observer == observer && this.mark == mark && this.cell == cell && held
    {
      this.observer, this.mark, this.cell, held := observer, mark, cell, true;
    }

    ghost function WorldNow(): World
      reads this, observer, cell
    {
      World(observer.errors, held, cell.slot)
    }

    /** One entry: check the observer over a clean reply, take the handler, store through it. */
    method Enter(read: ReadOutcome)
      modifies this, cell
      ensures WorldNow() == Acted(old(WorldNow()), mark, Fires(read))
    {
      var result: Outcome := read;
      if read.Success? {
        var message := observer.FirstErrorSince(mark);
        MarkAttributes(observer.errors, [], mark);
        if message.Some? {
          result := Failure(Replayer(message.value));
        }
      }
      var taken := held;
      held := false;
      if taken {
        cell.StoreInto(result);
      }
    }

    /** The framework does these things, one after the other. */
    method Perform(acts: seq<Act>)
      modifies this, cell, observer
      ensures WorldNow() == Performed(old(WorldNow()), mark, acts)
    {
      for i := 0 to |acts|
        invariant WorldNow() == Performed(old(WorldNow()), mark, acts[..i])
      {
        assert acts[..i + 1][..i] == acts[..i];
        match acts[i]
        case Reports(message) => observer.Record(message);
        case Fires(read) => Enter(read);
      }
      assert acts[..|acts|] == acts;
    }
  }

  // ---------------------------------------------------------------------------
  // The wait
  // ---------------------------------------------------------------------------

  /** What one turn of the wait meets: what happens between the poll and the deadline check,
      the ticks up to that check, what happens while the run loop is pumped, and the ticks
      that takes beyond the first. */
  datatype Turn = Turn(early: seq<Act>, before: nat, late: seq<Act>, extra: nat)

  /** A wait from a given world and clock. */
  datatype Wait = Wait(world: World, mark: nat, start: nat, timeout: nat, turns: nat -> Turn)

  /** The world at poll `n`, were nothing taken. */
  function WorldAt(wait: Wait, n: nat): World {
    if n == 0 then wait.world
    else
      var turn := wait.turns(n - 1);
      Performed(Performed(WorldAt(wait, n - 1), wait.mark, turn.early), wait.mark, turn.late)
  }

  /** The clock at poll `n`. */
  function PolledAt(wait: Wait, n: nat): nat
    decreases n, 0
  {
    if n == 0 then wait.start else CheckedAt(wait, n - 1) + 1 + wait.turns(n - 1).extra
  }

  /** The clock at the deadline check after poll `n`. */
  function CheckedAt(wait: Wait, n: nat): nat
    decreases n, 1
  {
    PolledAt(wait, n) + wait.turns(n).before
  }

  /** The wait goes on past poll `m`. */
  ghost predicate GoesOn(wait: Wait, m: nat) {
    WorldAt(wait, m).slot.None? && CheckedAt(wait, m) < wait.start + wait.timeout
  }

  /** Poll `n` is the last. */
  ghost predicate EndsAt(wait: Wait, n: nat) {
    !GoesOn(wait, n) && forall m: nat | m < n :: GoesOn(wait, m)
  }

  /** What `pump_until` gives when it ends at poll `n`. */
  function Waited(wait: Wait, n: nat): Outcome {
    var slot := WorldAt(wait, n).slot;
    if slot.Some? then slot.value else Failure(Timeout)
  }

  /** The world it leaves. */
  function Left(wait: Wait, n: nat): World {
    var w := WorldAt(wait, n);
    if w.slot.Some? then w.(slot := None) else Performed(w, wait.mark, wait.turns(n).early)
  }

  /** `pump_until`, with the framework's part of each turn. */
  method PumpUntil(block: CompletionBlock, start: nat, timeout: nat, turns: nat -> Turn)
    returns (r: Outcome, ghost n: nat)
    modifies block, block.cell, block.observer
    ensures var wait := Wait(old(block.WorldNow()), block.mark, start, timeout, turns);
            EndsAt(wait, n) && r == Waited(wait, n) && block.WorldNow() == Left(wait, n)
  {
    ghost var wait := Wait(block.WorldNow(), block.mark, start, timeout, turns);
    var deadline := start + timeout;
    var now := start;
    var i := 0;
    while true
      invariant now == PolledAt(wait, i)
      invariant block.WorldNow() == WorldAt(wait, i)
      invariant forall m: nat | m < i :: GoesOn(wait, m)
      decreases deadline - now
    {
      n := i;
      var taken := block.cell.Take();
      if taken.Some? {
        return taken.value, i;
      }
      assert block.WorldNow() == WorldAt(wait, i);
      block.Perform(turns(i).early);
      now := now + turns(i).before;
      if now >= deadline {
        return Failure(Timeout), i;
      }
      block.Perform(turns(i).late);
      now := now + 1 + turns(i).extra;
      i := i + 1;
    }
  }

  /** A wait ends at one poll only, after no more turns than the timeout has ticks. */
  lemma EndsOnce(wait: Wait, n: nat, m: nat)
    requires EndsAt(wait, n) && EndsAt(wait, m)
    ensures n == m && n <= wait.timeout
  {
    if n > 0 {
      assert GoesOn(wait, n - 1);
      ClockAdvances(wait, n - 1);
    }
  }

  lemma {:induction false} ClockAdvances(wait: Wait, n: nat)
    ensures PolledAt(wait, n) >= wait.start + n
  {
    if n > 0 {
      ClockAdvances(wait, n - 1);
    }
  }

  // ---------------------------------------------------------------------------
  // What a wait gives
  // ---------------------------------------------------------------------------

  /** The messages reported, in order. */
  function Messages(acts: seq<Act>): seq<string> {
    if acts == [] then []
    else
      var before, act := Messages(acts[..|acts| - 1]), acts[|acts| - 1];
      if act.Reports? then before + [act.message] else before
  }

  ghost predicate Quiet(acts: seq<Act>) {
    forall i | 0 <= i < |acts| :: acts[i].Reports?
  }

  /** What happens changes nothing but the error list, until the block is entered. */
  lemma {:induction false} OnlyReported(w: World, mark: nat, acts: seq<Act>)
    ensures Performed(w, mark, acts).errors == w.errors + Messages(acts)
    ensures Quiet(acts) ==> Performed(w, mark, acts) == w.(errors := w.errors + Messages(acts))
    ensures !w.held ==> Performed(w, mark, acts) == w.(errors := w.errors + Messages(acts))
    decreases |acts|
  {
    if acts != [] {
      OnlyReported(w, mark, acts[..|acts| - 1]);
    }
  }

  /** The first entry of the block decides: the slot holds what it read, under the errors
      recorded by then, whatever was read later. */
  lemma {:induction false} FirstFiringWins(w: World, mark: nat, acts: seq<Act>, i: nat)
    requires w.held && w.slot == None && i < |acts| && acts[i].Fires? && Quiet(acts[..i])
    ensures Performed(w, mark, acts).slot == Some(BlockResult(w.errors + Messages(acts[..i]), mark, acts[i].read))
    ensures !Performed(w, mark, acts).held
    decreases |acts|
  {
    var n := |acts| - 1;
    if i < n {
      assert acts[..n][..i] == acts[..i];
      FirstFiringWins(w, mark, acts[..n], i);
    } else {
      OnlyReported(w, mark, acts[..n]);
    }
  }

  /** Everything done in the first `n` turns, in order. */
  function Happened(turns: nat -> Turn, n: nat): seq<Act> {
    if n == 0 then [] else Happened(turns, n - 1) + turns(n - 1).early + turns(n - 1).late
  }

  lemma {:induction false} PerformedAfter(w: World, mark: nat, before: seq<Act>, acts: seq<Act>)
    ensures Performed(Performed(w, mark, before), mark, acts) == Performed(w, mark, before + acts)
    decreases |acts|
  {
    if acts == [] {
      assert before + acts == before;
    } else {
      PerformedAfter(w, mark, before, acts[..|acts| - 1]);
      assert (before + acts)[..|before + acts| - 1] == before + acts[..|acts| - 1];
    }
  }

  lemma {:induction false} WorldAfter(wait: Wait, n: nat)
    ensures WorldAt(wait, n) == Performed(wait.world, wait.mark, Happened(wait.turns, n))
  {
    if n > 0 {
      var turn, before := wait.turns(n - 1), Happened(wait.turns, n - 1);
      WorldAfter(wait, n - 1);
      PerformedAfter(wait.world, wait.mark, before, turn.early);
      PerformedAfter(wait.world, wait.mark, before + turn.early, turn.late);
    }
  }

  /** A wait that ends at poll `n`, for a block that was installed when the world was `first` and
      may have been entered among what was done before the wait: it times out exactly when the
      block was not entered by that poll, and then at or past the deadline; otherwise it gives
      what the first entry stored. */
  lemma WaitExactly(wait: Wait, n: nat, first: World, before: seq<Act>)
    requires first.held && first.slot == None && wait.world == Performed(first, wait.mark, before)
    requires EndsAt(wait, n)
    ensures var acts := before + Happened(wait.turns, n);
            && (Quiet(acts) ==>
                  Waited(wait, n) == Failure(Timeout) && CheckedAt(wait, n) >= wait.start + wait.timeout)
            && forall i | 0 <= i < |acts| && acts[i].Fires? && Quiet(acts[..i]) ::
                 Waited(wait, n) == BlockResult(first.errors + Messages(acts[..i]), wait.mark, acts[i].read)
  {
    var acts := before + Happened(wait.turns, n);
    WorldAfter(wait, n);
    PerformedAfter(first, wait.mark, before, Happened(wait.turns, n));
    OnlyReported(first, wait.mark, acts);
    forall i | 0 <= i < |acts| && acts[i].Fires? && Quiet(acts[..i])
      ensures Waited(wait, n) == BlockResult(first.errors + Messages(acts[..i]), wait.mark, acts[i].read)
    {
      FirstFiringWins(first, wait.mark, acts, i);
    }
  }

  // ---------------------------------------------------------------------------
  // The composition
  // ---------------------------------------------------------------------------

  /** What the framework does in the course of one fetch: the reports between the two marks,
      what happens while the fetch is sent and whether that gives a token, the turns of the
      wait, and what happens between its end and the check. */
  datatype Script = Script(
    marking: seq<string>, dispatching: seq<Act>, token: bool, start: nat, timeout: nat, turns: nat -> Turn,
    closing: seq<Act>)

  /** The wait of a fetch that begins with these errors. */
  function WaitOf(errors: seq<string>, script: Script): Wait {
    var marked := errors + script.marking;
    Wait(Performed(World(marked, true, None), |marked|, script.dispatching), |marked|, script.start, script.timeout,
         script.turns)
  }

  /** The errors at the final check, for a wait that ends at poll `n`. */
  function ErrorsAtCheck(errors: seq<string>, script: Script, n: nat): seq<string> {
    var wait := WaitOf(errors, script);
    Performed(Left(wait, n), wait.mark, script.closing).errors
  }

  /** What is decoded: the outcome of the wait, under the observer's verdict. */
  function Answer(errors: seq<string>, script: Script, n: nat): Outcome {
    Verdict(ErrorsAtCheck(errors, script, n), |errors|, Waited(WaitOf(errors, script), n))
  }

  /** What still happens after the last poll, if that found the slot empty. */
  function LastTurn(wait: Wait, n: nat): seq<Act> {
    if WorldAt(wait, n).slot.Some? then [] else wait.turns(n).early
  }

  /** Every message reported in the course of the fetch, in order. */
  function Reported(errors: seq<string>, script: Script, n: nat): seq<string> {
    script.marking + Messages(script.dispatching) + Messages(Happened(script.turns, n))
    + Messages(LastTurn(WaitOf(errors, script), n)) + Messages(script.closing)
  }

  lemma LeftErrors(wait: Wait, n: nat)
    ensures Left(wait, n).errors == wait.world.errors + Messages(Happened(wait.turns, n)) + Messages(LastTurn(wait, n))
  {
    WorldAfter(wait, n);
    OnlyReported(wait.world, wait.mark, Happened(wait.turns, n));
    OnlyReported(WorldAt(wait, n), wait.mark, wait.turns(n).early);
  }

  lemma ErrorsReported(errors: seq<string>, script: Script, n: nat)
    ensures ErrorsAtCheck(errors, script, n) == errors + Reported(errors, script, n)
  {
    var wait := WaitOf(errors, script);
    OnlyReported(World(errors + script.marking, true, None), wait.mark, script.dispatching);
    LeftErrors(wait, n);
    OnlyReported(Left(wait, n), wait.mark, script.closing);
    Regroup(errors, script.marking, Messages(script.dispatching), Messages(Happened(script.turns, n)),
            Messages(LastTurn(wait, n)), Messages(script.closing));
  }

  lemma Regroup<T>(a: seq<T>, b: seq<T>, c: seq<T>, d: seq<T>, e: seq<T>, f: seq<T>)
    ensures a + b + c + d + e + f == a + (b + c + d + e + f)
  {
  }

  lemma VerdictAppended(errors: seq<string>, reported: seq<string>, outcome: Outcome)
    ensures Verdict(errors + reported, |errors|, outcome)
         == if reported != [] then Failure(Replayer(reported[0])) else outcome
  {
    MarkAttributes(errors, reported, |errors|);
    MarkAttributes(errors + reported, [], |errors|);
  }

  /** The first message of all is the answer, over whatever the wait gave; in silence that is
      the answer. */
  lemma AnswerByReports(errors: seq<string>, script: Script, n: nat)
    ensures var reported := Reported(errors, script, n);
            Answer(errors, script, n)
            == if reported != [] then Failure(Replayer(reported[0])) else Waited(WaitOf(errors, script), n)
  {
    ErrorsReported(errors, script, n);
    VerdictAppended(errors, Reported(errors, script, n), Waited(WaitOf(errors, script), n));
  }

  /** `Reply::decode(result?)`. */
  function Decoded(layout: Layout, outcome: Outcome): Result<Reply, FetchError> {
    if outcome.Failure? then Failure(outcome.error)
    else
      var reply := DecodeReply(layout, outcome.value);
      if reply.Success? then Success(reply.value) else Failure(Parse(Shape(reply.error)))
  }

  /** The words at 0x18 and 0x1c of record `i` lie within the blob. */
  ghost predicate FitsAt(raw: RawReply, i: nat) {
    && 80 * i + 80 <= |raw.info|
    && U32At(raw.info, 80 * i + 0x18) + U32At(raw.info, 80 * i + 0x1c) <= |raw.data|
  }

  /** What an outcome is answered with: its own error; or its reply, in records of the layout
      asked for, when 80 divides the table and every range fits; or what is wrong first. */
  lemma DecodedExactly(layout: Layout, outcome: Outcome)
    ensures outcome.Failure? ==> Decoded(layout, outcome) == Failure(outcome.error)
    ensures outcome.Success? ==>
              var raw, answer := outcome.value, Decoded(layout, outcome);
              && (answer.Success? <==> |raw.info| % 80 == 0 && forall i: nat | i < |raw.info| / 80 :: FitsAt(raw, i))
              && (answer.Success? ==>
                    && answer.value.raw == raw && |answer.value.records| == |raw.info| / 80
                    && forall i: nat | i < |raw.info| / 80 ::
                         80 * i + 80 <= |raw.info|
                         && answer.value.records[i] == Records.Decode(layout, raw.info[80 * i..80 * i + 80]))
              && (|raw.info| % 80 != 0 ==> answer == Failure(Parse(Shape(InfoNotMultiple(|raw.info|)))))
  {
    if outcome.Success? {
      var raw := outcome.value;
      if |raw.info| % 80 == 0 {
        AllFitExactly(layout, raw);
        TableInPlace(layout, raw.info);
      }
    }
  }

  lemma ChunkInPlace(info: seq<byte>, i: nat)
    requires 80 * i + 80 <= |info|
    ensures ChunkAt(info, i) == info[80 * i..80 * i + 80]
    ensures U32At(ChunkAt(info, i), 0x18) == U32At(info, 80 * i + 0x18)
    ensures U32At(ChunkAt(info, i), 0x1c) == U32At(info, 80 * i + 0x1c)
  {
  }

  lemma TableInPlace(layout: Layout, info: seq<byte>)
    requires |info| % 80 == 0
    ensures |DecodeTable(layout, info)| == |info| / 80
    ensures forall i: nat | i < |info| / 80 ::
              80 * i + 80 <= |info| && DecodeTable(layout, info)[i] == Records.Decode(layout, info[80 * i..80 * i + 80])
  {
    forall i: nat | i < |info| / 80
      ensures 80 * i + 80 <= |info| && DecodeTable(layout, info)[i] == Records.Decode(layout, info[80 * i..80 * i + 80])
    {
      ChunkInPlace(info, i);
    }
  }

  lemma AllFitExactly(layout: Layout, raw: RawReply)
    requires |raw.info| % 80 == 0
    ensures DecodeReply(layout, raw).Success? <==> forall i: nat | i < |raw.info| / 80 :: FitsAt(raw, i)
    ensures DecodeReply(layout, raw).Success? ==>
              DecodeReply(layout, raw).value == Reply(raw, DecodeTable(layout, raw.info))
  {
    DecodesExactly(layout, raw);
    forall i: nat | i < |raw.info| / 80
      ensures 80 * i + 80 <= |raw.info| && (FitsAt(raw, i) <==> ChunkFits(ChunkAt(raw.info, i), |raw.data|))
    {
      ChunkInPlace(raw.info, i);
    }
  }

  /** The first record whose range does not fit is the parse error. */
  lemma MisfitAnswered(layout: Layout, raw: RawReply, n: nat)
    requires |raw.info| % 80 == 0 && n < |raw.info| / 80 && !FitsAt(raw, n) && forall i: nat | i < n :: FitsAt(raw, i)
    ensures 80 * n + 80 <= |raw.info|
    ensures Decoded(layout, Success(raw))
         == Failure(Parse(Shape(PayloadOutOfRange(U32At(raw.info, 80 * n + 0x18), U32At(raw.info, 80 * n + 0x1c)))))
  {
    var records := DecodeTable(layout, raw.info);
    RangeInPlace(layout, raw, n);
    forall i | 0 <= i < n ensures Fits(records[i], |raw.data|) {
      assert FitsAt(raw, i);
      RangeInPlace(layout, raw, i);
    }
    ValidateExact(records, |raw.data|);
  }

  lemma RangeInPlace(layout: Layout, raw: RawReply, i: nat)
    requires |raw.info| % 80 == 0 && i < |raw.info| / 80
    ensures 80 * i + 80 <= |raw.info|
    ensures var record := DecodeTable(layout, raw.info)[i];
            && record.dataOffset == U32At(raw.info, 80 * i + 0x18) && record.size == U32At(raw.info, 80 * i + 0x1c)
            && (Fits(record, |raw.data|) <==> FitsAt(raw, i))
  {
    ChunkInPlace(raw.info, i);
    RangeWords(layout, ChunkAt(raw.info, i));
  }

  /** The blocking fetch of one table. `setup` is why the batch could not be built, if it could
      not. */
  method FetchTable(layout: Layout, requests: nat, setup: Option<string>, observer: ErrorObserver, script: Script)
    returns (answer: Result<Reply, FetchError>, ghost n: nat)
    modifies observer
    ensures requests == 0 ==> answer == Failure(EmptyBatch) && observer.errors == old(observer.errors)
    ensures requests > 0 && setup.Some? ==>
              answer == Failure(Setup(setup.value)) && observer.errors == old(observer.errors)
    ensures requests > 0 && setup.None? && !script.token ==>
              && answer == Failure(NoToken)
              && observer.errors == WaitOf(old(observer.errors), script).world.errors
    ensures requests > 0 && setup.None? && script.token ==>
              && EndsAt(WaitOf(old(observer.errors), script), n)
              && answer == Decoded(layout, Answer(old(observer.errors), script, n))
              && observer.errors == ErrorsAtCheck(old(observer.errors), script, n)
  {
    n := 0;
    if requests == 0 {
      return Failure(EmptyBatch), n;
    }
    if setup.Some? {
      return Failure(Setup(setup.value)), n;
    }
    var mark := observer.ErrorCount();
    var cell := new OutcomeCell();
    RecordAll(observer, script.marking);
    var inner := observer.ErrorCount();
    var block := new CompletionBlock(observer, inner, cell);
    block.Perform(script.dispatching);
    if !script.token {
      return Failure(NoToken), n;
    }
    var outcome;
    outcome, n := PumpUntil(block, script.start, script.timeout, script.turns);
    block.Perform(script.closing);
    var message := observer.FirstErrorSince(mark);
    MarkAttributes(observer.errors, [], mark);
    if message.Some? {
      return Failure(Replayer(message.value)), n;
    }
    if outcome.Failure? {
      return Failure(outcome.error), n;
    }
    var reply := Payloads.Decode(layout, outcome.value);
    answer := if reply.Success? then Success(reply.value) else Failure(Parse(Shape(reply.error)));
  }

  method RecordAll(observer: ErrorObserver, messages: seq<string>)
    modifies observer
    ensures observer.errors == old(observer.errors) + messages
  {
    for i := 0 to |messages|
      invariant observer.errors == old(observer.errors) + messages[..i]
    {
      observer.Record(messages[i]);
      assert messages[..i + 1] == messages[..i] + [messages[i]];
    }
    assert messages[..|messages|] == messages;
  }
}
