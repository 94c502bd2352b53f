/** The session's error observer: an append-only list and what a mark attributes to it. */
module Observer {
  import opened Wrappers

  /** `get(mark..)?.first()`: a mark past the end finds nothing, and so does one at the end. */
  function FirstSince(errors: seq<string>, mark: nat): Option<string> {
    if mark > |errors| then None
    else
      var rest := errors[mark..];
      if rest == [] then None else Some(rest[0])
  }

  /** A mark is answered exactly by the error at its own index, and stays so for good. */
  lemma MarkAttributes(errors: seq<string>, later: seq<string>, mark: nat)
    ensures FirstSince(errors, mark).Some? <==> mark < |errors|
    ensures mark < |errors| ==> FirstSince(errors, mark) == Some(errors[mark])
    ensures FirstSince(errors, mark).Some? ==> FirstSince(errors + later, mark) == FirstSince(errors, mark)
    ensures mark == |errors| && later != [] ==> FirstSince(errors + later, mark) == Some(later[0])
  {
    if mark < |errors| {
      assert errors[mark..][0] == errors[mark];
      assert (errors + later)[mark..][0] == errors[mark];
    } else if mark == |errors| {
      assert (errors + later)[mark..] == later;
    }
  }

  class ErrorObserver {
    var errors: seq<string>

    constructor ()
      ensures errors == []
    {
      errors := [];
    }

    /** The callback: nothing reported before is ever dropped. */
    method Record(message: string)
      modifies this
      ensures errors == old(errors) + [message]
    {
      errors := errors + [message];
    }

    method ErrorCount() returns (mark: nat)
      ensures mark == |errors|
    {
      mark := |errors|;
    }

    method FirstErrorSince(mark: nat) returns (message: Option<string>)
      ensures message.Some? <==> mark < |errors|
      ensures message.Some? ==> message.value == errors[mark]
    {
      if mark > |errors| {
        return None;
      }
      var rest := errors[mark..];
      message := if rest == [] then None else Some(rest[0]);
    }

    method FirstError() returns (message: Option<string>)
      ensures message.Some? <==> errors != []
      ensures message.Some? ==> message.value == errors[0]
    {
      message := FirstErrorSince(0);
    }
  }
}
