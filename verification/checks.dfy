/** The early-return validation chains of the handlers: checks run in order and the first one
    that fails decides the error response. */
module Checks {
  import opened Wrappers

  /** One guard of a handler: whether it passes, and the error returned when it does not. */
  datatype Check<+E> = Check(passes: bool, error: E)

  /** The error of the first failing check, or `None` when every check passes. */
  function FirstFailure<E>(checks: seq<Check<E>>): (r: Option<E>)
    ensures r.None? <==> forall k :: 0 <= k < |checks| ==> checks[k].passes
    ensures r.Some? ==> exists k :: 0 <= k < |checks| && !checks[k].passes && checks[k].error == r.value
                                    && forall j :: 0 <= j < k ==> checks[j].passes
  {
    if |checks| == 0 then None
    else if !checks[0].passes then Some(checks[0].error)
    else
      var r := FirstFailure(checks[1..]);
      assert forall k :: 1 <= k < |checks| ==> checks[k] == checks[1..][k - 1];
      r
  }

  /** When the checks before position `k` pass and check `k` fails, its error is the one reported. */
  lemma {:induction false} FirstFailureAt<E>(checks: seq<Check<E>>, k: nat)
    requires k < |checks| && !checks[k].passes
    requires forall j :: 0 <= j < k ==> checks[j].passes
    ensures FirstFailure(checks) == Some(checks[k].error)
  {
    if k > 0 {
      assert forall j :: 0 <= j < k - 1 ==> checks[1..][j] == checks[j + 1];
      FirstFailureAt(checks[1..], k - 1);
    }
  }
}
