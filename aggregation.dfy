/**
 * `generate_overall_practice_feedback`: the overall results of a finished
 * practice session, and how they degrade when the model is missing, there is
 * nothing to evaluate, or the call fails.
 */
module Aggregation {
  import opened Text
  import opened Records
  import opened Provider
  import opened Scan
  import opened OverallParser

  const ServiceNotAvailable := "AI service not available."
  const NoPracticeData := "No practice data to evaluate."
  const TryAgain := "Please try again."
  const TimeoutPrefix := "AI generation timed out for overall feedback: "
  const ApiErrorPrefix := "AI service error for overall feedback: "
  const UnexpectedPrefix := "An unexpected server error occurred: "

  /** `t` ends with `suffix`. */
  predicate EndsWith(t: string, suffix: string)
  {
    |suffix| <= |t| && t[|t| - |suffix|..] == suffix
  }

  lemma EndsWithConcat(prefix: string, detail: string)
    ensures EndsWith(prefix + detail, detail)
  {
    assert (prefix + detail)[|prefix|..] == detail;
  }

  /** A call that did not return text degrades to `N/A` with the error detail and a retry hint. */
  function FromFailure(reply: Reply): (r: OverallResults)
    requires !reply.Text?
    ensures r.hiringPercentage == NotAvailable && r.overallMessage == TryAgain
    ensures EndsWith(r.areasForImprovement, reply.detail)
  {
    var prefix := match reply
      case DeadlineExceeded(_) => TimeoutPrefix
      case ApiError(_) => ApiErrorPrefix
      case Unexpected(_) => UnexpectedPrefix;
    EndsWithConcat(prefix, reply.detail);
    OverallResults(NotAvailable, prefix + reply.detail, TryAgain)
  }

  /**
   * The overall results once the prompt has been built. A score is reported
   * only when the model exists, there is data and the call returned text;
   * every degraded result says `N/A`.
   */
  function Aggregate(data: seq<Entry>, ready: bool, reply: Reply): (r: OverallResults)
    ensures r.hiringPercentage == NotAvailable || IsPercentage(r.hiringPercentage)
    ensures r.hiringPercentage != NotAvailable ==> ready && data != [] && reply.Text?
    ensures !ready ==> r == OverallResults(NotAvailable, ServiceNotAvailable, ServiceNotAvailable)
    ensures ready && data == [] ==> r == OverallResults(NotAvailable, NoPracticeData, NoPracticeData)
    ensures ready && data != [] && reply.Text? ==> r == ParseOverallResults(Strip(reply.raw))
    ensures ready && data != [] && !reply.Text? ==>
      r.overallMessage == TryAgain && EndsWith(r.areasForImprovement, reply.detail)
  {
    if !ready then OverallResults(NotAvailable, ServiceNotAvailable, ServiceNotAvailable)
    else if data == [] then OverallResults(NotAvailable, NoPracticeData, NoPracticeData)
    else if reply.Text? then ParseOverallResults(Strip(reply.raw))
    else FromFailure(reply)
  }

  /** What the function as written hands back: results, or a `KeyError` nothing catches. */
  datatype Outcome = Results(overall: OverallResults) | KeyErrorRaised

  /**
   * The function as it is written: the loop that builds the prompt reads
   * `user_answer` and `ai_feedback` of every entry before the `try`, so an
   * entry that was fetched but never evaluated raises `KeyError`.
   */
  function AggregateAsWritten(data: seq<Entry>, ready: bool, reply: Reply): (o: Outcome)
    ensures o.KeyErrorRaised? <==> ready && data != [] && exists i :: 0 <= i < |data| && !Answered(data[i])
  {
    if !ready then Results(OverallResults(NotAvailable, ServiceNotAvailable, ServiceNotAvailable))
    else if data == [] then Results(OverallResults(NotAvailable, NoPracticeData, NoPracticeData))
    else if exists i :: 0 <= i < |data| && !Answered(data[i]) then KeyErrorRaised
    else if reply.Text? then Results(ParseOverallResults(Strip(reply.raw)))
    else Results(FromFailure(reply))
  }

  /** The corrected function agrees with the written one on every input where the latter returns. */
  lemma AggregateAgrees(data: seq<Entry>, ready: bool, reply: Reply)
    ensures AggregateAsWritten(data, ready, reply).Results? ==>
      AggregateAsWritten(data, ready, reply).overall == Aggregate(data, ready, reply)
    ensures (forall i :: 0 <= i < |data| ==> Answered(data[i])) ==> AggregateAsWritten(data, ready, reply).Results?
  {
  }
}
