/**
 * `handle_sub_err!`: the policy for an error met while handling one
 * submission. With `abort_on_error` the enclosing function returns the
 * error at once; otherwise the error is appended to the list the caller
 * keeps, and the caller carries on with the next submission.
 */
module Macros {

  /** Where control goes after the macro. */
  datatype Flow = Continue | Return(error: string)

  /** The effect of one use on the collected errors, as a value. */
  function Handled(errs: seq<string>, msg: string, abort: bool): (r: (Flow, seq<string>))
    ensures abort ==> r == (Return(msg), errs)
    ensures !abort ==> r.0 == Continue && |r.1| == |errs| + 1 && r.1[..|errs|] == errs && r.1[|errs|] == msg
  {
    if abort then (Return(msg), errs) else (Continue, errs + [msg])
  }

  /**
   * One use after another for a run of failing submissions, until one of
   * them returns.
   */
  function HandledAll(errs: seq<string>, msgs: seq<string>, abort: bool): (Flow, seq<string>)
    decreases |msgs|
  {
    if msgs == [] then (Continue, errs)
    else
      var h := Handled(errs, msgs[0], abort);
      if h.0.Return? then h else HandledAll(h.1, msgs[1..], abort)
  }

  /** Collecting keeps every error, in the order met, after the earlier ones. */
  lemma {:induction false} CollectingKeepsAll(errs: seq<string>, msgs: seq<string>)
    ensures HandledAll(errs, msgs, false) == (Continue, errs + msgs)
    decreases |msgs|
  {
    if msgs != [] {
      assert Handled(errs, msgs[0], false) == (Continue, errs + [msgs[0]]);
      CollectingKeepsAll(errs + [msgs[0]], msgs[1..]);
      assert errs + [msgs[0]] + msgs[1..] == errs + msgs;
    } else {
      assert errs + msgs == errs;
    }
  }

  /** Aborting returns the first error and records none. */
  lemma AbortingStopsAtFirst(errs: seq<string>, msgs: seq<string>)
    requires msgs != []
    ensures HandledAll(errs, msgs, true) == (Return(msgs[0]), errs)
  {
  }

  /** The error list the caller of the macro keeps. */
  class ErrorList {
    var errs: seq<string>

    constructor ()
      ensures errs == []
    {
      errs := [];
    }

    /**
     * `handle_sub_err!(msg, to_execute, errs, abort)`. The `to_execute`
     * expression is evaluated by the caller before this point and its
     * result discarded.
     */
    method HandleSubErr(msg: string, abort: bool) returns (flow: Flow)
      modifies this
      ensures (flow, errs) == Handled(old(errs), msg, abort)
      ensures abort ==> flow == Return(msg) && errs == old(errs)
      ensures !abort ==> flow == Continue && errs == old(errs) + [msg]
    {
      if abort {
        return Return(msg);
      }
      errs := errs + [msg];
      return Continue;
    }
  }
}
