/**
 * The step logic of an interview session, away from HTTP, the database and
 * JSON: fetching question `index` (generating it on demand), evaluating the
 * user's answer to one question, and the gate in front of the results page.
 * Each step is first a function from the stored list and the model's reply to
 * a response and the new list; the `Session` class then performs the same
 * step in place.
 */
module Sessions {
  import opened Wrappers
  import opened Text
  import opened Records
  import opened Provider
  import opened QaParser
  import opened OverallParser
  import opened Aggregation

  /** The failures every step that calls the model shares. */
  datatype Failure = ServiceUnavailable | TimedOut | ServiceError(detail: string) | ServerError

  /** The exception a failed call is reported as. */
  function CallFailure(reply: Reply): (f: Failure)
    requires !reply.Text?
    ensures f.TimedOut? <==> reply.DeadlineExceeded?
    ensures f.ServiceError? <==> reply.ApiError?
    ensures f.ServiceError? ==> f.detail == reply.detail
    ensures f.ServerError? <==> reply.Unexpected?
    ensures !f.ServiceUnavailable?
  {
    match reply
    case DeadlineExceeded(_) => TimedOut
    case ApiError(detail) => ServiceError(detail)
    case Unexpected(_) => ServerError
  }

  // ---------------------------------------------------------------- fetch

  datatype FetchResult =
    | Existing(entry: Entry)
    | Generated(entry: Entry)
    | MaxReached
    | Malformed
    | InvalidIndex
    | FetchFailed(failure: Failure)

  datatype Fetched = Fetched(result: FetchResult, questions: seq<Entry>)

  /** A freshly parsed pair, before any answer is recorded. */
  function NewEntry(pair: QA): Entry
  {
    Entry(pair.question, pair.answer, None, None)
  }

  /**
   * `get_question` and `practice_interview_question`: an existing index is
   * served from the list; the next index is generated, parsed and appended,
   * unless the session is full; any index further on is invalid. Only a
   * successful generation changes the list, and by exactly one entry.
   */
  function FetchStep(kind: Kind, qs: seq<Entry>, index: nat, ready: bool, reply: Reply): (f: Fetched)
    ensures f.result.FetchFailed? && f.result.failure.ServiceUnavailable? <==> !ready
    ensures f.result.Existing? <==> ready && index < |qs|
    ensures f.result.Existing? ==> f.result.entry == qs[index]
    ensures f.result.MaxReached? <==> ready && index == |qs| && |qs| >= Max(kind)
    ensures f.result.InvalidIndex? <==> ready && index > |qs|
    ensures ready && index == |qs| < Max(kind) && !reply.Text? ==> f.result == FetchFailed(CallFailure(reply))
    ensures f.result.Malformed? <==>
      ready && index == |qs| < Max(kind) && reply.Text? && ParseAiResponse(Strip(reply.raw)) == []
    ensures ready && index == |qs| < Max(kind) ==>
      (f.result.Generated? <==> reply.Text? && ParseAiResponse(Strip(reply.raw)) != [])
    ensures f.result.Generated? ==>
      ready && index == |qs| < Max(kind) && reply.Text? &&
      ParseAiResponse(Strip(reply.raw)) != [] &&
      f.result.entry == NewEntry(ParseAiResponse(Strip(reply.raw))[0]) &&
      f.questions == qs + [f.result.entry]
    ensures !f.result.Generated? ==> f.questions == qs
    ensures |qs| <= Max(kind) ==> |f.questions| <= Max(kind)
  {
    if !ready then Fetched(FetchFailed(ServiceUnavailable), qs)
    else if index < |qs| then Fetched(Existing(qs[index]), qs)
    else if index > |qs| then Fetched(InvalidIndex, qs)
    else if |qs| >= Max(kind) then Fetched(MaxReached, qs)
    else if !reply.Text? then Fetched(FetchFailed(CallFailure(reply)), qs)
    else
      var pairs := ParseAiResponse(Strip(reply.raw));
      if pairs == [] then Fetched(Malformed, qs)
      else Fetched(Generated(NewEntry(pairs[0])), qs + [NewEntry(pairs[0])])
  }

  /** Asking again for a question that was just generated serves the same question and changes nothing. */
  lemma FetchIdempotent(kind: Kind, qs: seq<Entry>, index: nat, reply: Reply, later: Reply)
    requires FetchStep(kind, qs, index, true, reply).result.Generated?
    ensures var f := FetchStep(kind, qs, index, true, reply);
      FetchStep(kind, f.questions, index, true, later) == Fetched(Existing(f.result.entry), f.questions)
  {
    var f := FetchStep(kind, qs, index, true, reply);
    assert f.questions[index] == f.result.entry;
  }

  // ---------------------------------------------------------------- evaluate

  /** The JSON value under `index`; a JSON boolean is a Python `bool`, which is an `int`. */
  datatype IndexArg = IntArg(n: int) | BoolArg(b: bool) | NoIndex | OtherArg

  /** The integer an index argument stands for, if it is one. */
  function IndexValue(arg: IndexArg): (v: Option<int>)
    ensures v.Some? <==> arg.IntArg? || arg.BoolArg?
  {
    match arg
    case IntArg(n) => Some(n)
    case BoolArg(b) => Some(if b then 1 else 0)
    case _ => None
  }

  /** The first validation: an integer in `[0, MAX_PRACTICE_QUESTIONS)`. */
  predicate ValidIndex(arg: IndexArg)
  {
    IndexValue(arg).Some? && 0 <= IndexValue(arg).value < MaxPracticeQuestions
  }

  /**
   * What passes the index check: an integer in range, and either JSON boolean
   * (`True` is 1 and `False` is 0); a missing index or any other value fails.
   */
  lemma ValidIndexCases(n: int, b: bool)
    ensures ValidIndex(IntArg(n)) <==> 0 <= n < MaxPracticeQuestions
    ensures ValidIndex(BoolArg(b)) && IndexValue(BoolArg(b)).value == (if b then 1 else 0)
    ensures !ValidIndex(NoIndex) && !ValidIndex(OtherArg)
  {
  }

  datatype EvalResult =
    | NotPractice
    | InvalidIndexArg
    | EmptyAnswer
    | NotFound
    | Evaluated(feedback: string, completed: bool)
    | EvalFailed(failure: Failure)

  datatype Evaluation = Evaluation(result: EvalResult, questions: seq<Entry>)

  /** Entry `i` with the user's answer and the feedback recorded, overwriting any earlier ones. */
  function Record(qs: seq<Entry>, i: nat, answer: string, feedback: string): (r: seq<Entry>)
    requires i < |qs|
    ensures |r| == |qs|
    ensures r[i].question == qs[i].question && r[i].answer == qs[i].answer
    ensures r[i].userAnswer == Some(answer) && r[i].aiFeedback == Some(feedback)
    ensures forall j :: 0 <= j < |qs| && j != i ==> r[j] == qs[j]
  {
    qs[i := qs[i].(userAnswer := Some(answer), aiFeedback := Some(feedback))]
  }

  /**
   * `practice_evaluate`: checks the index, then the stripped answer, then that
   * the question exists, then the model; on a reply it records the answer and
   * the stripped feedback on that entry alone, and reports completion exactly
   * when the list holds `MAX_PRACTICE_QUESTIONS` entries.
   */
  function EvaluateStep(kind: Kind, qs: seq<Entry>, arg: IndexArg, userAnswer: string, ready: bool, reply: Reply): (e: Evaluation)
    ensures e.result.NotPractice? <==> kind.Coach?
    ensures e.result.InvalidIndexArg? <==> kind.Practice? && !ValidIndex(arg)
    ensures e.result.EmptyAnswer? <==> kind.Practice? && ValidIndex(arg) && AllSpace(userAnswer)
    ensures e.result.NotFound? <==>
      kind.Practice? && ValidIndex(arg) && !AllSpace(userAnswer) && IndexValue(arg).value >= |qs|
    ensures e.result.Evaluated? <==>
      kind.Practice? && ValidIndex(arg) && !AllSpace(userAnswer) && IndexValue(arg).value < |qs| &&
      ready && reply.Text?
    ensures e.result == EvalFailed(ServiceUnavailable) <==>
      kind.Practice? && ValidIndex(arg) && !AllSpace(userAnswer) && IndexValue(arg).value < |qs| && !ready
    ensures kind.Practice? && ValidIndex(arg) && !AllSpace(userAnswer) && IndexValue(arg).value < |qs| && ready && !reply.Text? ==>
      e.result == EvalFailed(CallFailure(reply))
    ensures e.result.Evaluated? ==>
      e.result.feedback == Strip(reply.raw) &&
      e.questions == Record(qs, IndexValue(arg).value, Strip(userAnswer), Strip(reply.raw)) &&
      (e.result.completed <==> |qs| == MaxPracticeQuestions)
    ensures !e.result.Evaluated? ==> e.questions == qs
  {
    if kind.Coach? then Evaluation(NotPractice, qs)
    else if !ValidIndex(arg) then Evaluation(InvalidIndexArg, qs)
    else
      var answer := Strip(userAnswer);
      var i := IndexValue(arg).value;
      if answer == [] then Evaluation(EmptyAnswer, qs)
      else if i >= |qs| then Evaluation(NotFound, qs)
      else if !ready then Evaluation(EvalFailed(ServiceUnavailable), qs)
      else if !reply.Text? then Evaluation(EvalFailed(CallFailure(reply)), qs)
      else
        var feedback := Strip(reply.raw);
        Evaluation(Evaluated(feedback, |qs| == MaxPracticeQuestions), Record(qs, i, answer, feedback))
  }

  /** Nothing guards an answered question: evaluating it again keeps only the second answer. */
  lemma ReevaluateOverwrites(qs: seq<Entry>, arg: IndexArg, first: string, second: string, r1: Reply, r2: Reply)
    requires EvaluateStep(Practice, qs, arg, first, true, r1).result.Evaluated?
    requires EvaluateStep(Practice, qs, arg, second, true, r2).result.Evaluated?
    ensures EvaluateStep(Practice, EvaluateStep(Practice, qs, arg, first, true, r1).questions, arg, second, true, r2)
         == EvaluateStep(Practice, qs, arg, second, true, r2)
  {
    var i := IndexValue(arg).value;
    var once := EvaluateStep(Practice, qs, arg, first, true, r1).questions;
    var twice := EvaluateStep(Practice, once, arg, second, true, r2).questions;
    var direct := EvaluateStep(Practice, qs, arg, second, true, r2).questions;
    assert |twice| == |direct|;
    forall j | 0 <= j < |direct| ensures twice[j] == direct[j] {
      if j != i { assert twice[j] == once[j] == qs[j]; }
    }
  }

  /** Completion counts entries, not answers: the last evaluation of a full list completes it whatever else is unanswered. */
  lemma CompletionIgnoresOtherAnswers(qs: seq<Entry>, arg: IndexArg, answer: string, reply: Reply)
    requires EvaluateStep(Practice, qs, arg, answer, true, reply).result.Evaluated?
    requires |qs| == MaxPracticeQuestions
    ensures EvaluateStep(Practice, qs, arg, answer, true, reply).result.completed
  {
  }

  // ---------------------------------------------------------------- results

  datatype ResultsOutcome = NoPracticeSession | Incomplete | Shown(overall: OverallResults) | Crashed

  /** `practice_results`: refused unless the list is full; the overall results are aggregated without crashing. */
  function ResultsStep(kind: Kind, qs: seq<Entry>, ready: bool, reply: Reply): (o: ResultsOutcome)
    ensures o.NoPracticeSession? <==> kind.Coach?
    ensures o.Incomplete? <==> kind.Practice? && |qs| < MaxPracticeQuestions
    ensures o.Shown? <==> kind.Practice? && |qs| >= MaxPracticeQuestions
    ensures o.Shown? ==> o.overall == Aggregate(qs, ready, reply)
  {
    if kind.Coach? then NoPracticeSession
    else if qs == [] || |qs| < MaxPracticeQuestions then Incomplete
    else Shown(Aggregate(qs, ready, reply))
  }

  /** The results page as written, where aggregation raises on an entry that was never evaluated. */
  function ResultsAsWritten(kind: Kind, qs: seq<Entry>, ready: bool, reply: Reply): (o: ResultsOutcome)
    ensures o.Crashed? <==>
      kind.Practice? && |qs| >= MaxPracticeQuestions && ready && exists i :: 0 <= i < |qs| && !Answered(qs[i])
  {
    if kind.Coach? then NoPracticeSession
    else if qs == [] || |qs| < MaxPracticeQuestions then Incomplete
    else match AggregateAsWritten(qs, ready, reply)
      case Results(overall) => Shown(overall)
      case KeyErrorRaised => Crashed
  }

  /** Wherever the written page does not crash it shows what the corrected one shows. */
  lemma ResultsAgree(kind: Kind, qs: seq<Entry>, ready: bool, reply: Reply)
    ensures !ResultsAsWritten(kind, qs, ready, reply).Crashed? ==>
      ResultsAsWritten(kind, qs, ready, reply) == ResultsStep(kind, qs, ready, reply)
  {
    AggregateAgrees(qs, ready, reply);
  }

  /**
   * Five fetches and no evaluation pass the results gate, and the page as
   * written then raises `KeyError`: the gate counts entries, the aggregation
   * needs answers.
   */
  lemma UnansweredSessionCrashes(reply: Reply, overall: Reply)
    requires reply.Text? && ParseAiResponse(Strip(reply.raw)) != []
    ensures var q1 := FetchStep(Practice, [], 0, true, reply).questions;
      var q2 := FetchStep(Practice, q1, 1, true, reply).questions;
      var q3 := FetchStep(Practice, q2, 2, true, reply).questions;
      var q4 := FetchStep(Practice, q3, 3, true, reply).questions;
      var q5 := FetchStep(Practice, q4, 4, true, reply).questions;
      ResultsStep(Practice, q5, true, overall).Shown? && ResultsAsWritten(Practice, q5, true, overall).Crashed?
  {
    var q1 := FetchStep(Practice, [], 0, true, reply).questions;
    var q2 := FetchStep(Practice, q1, 1, true, reply).questions;
    var q3 := FetchStep(Practice, q2, 2, true, reply).questions;
    var q4 := FetchStep(Practice, q3, 3, true, reply).questions;
    var q5 := FetchStep(Practice, q4, 4, true, reply).questions;
    assert |q5| == 5;
    assert q5[0] == q1[0] && !Answered(q1[0]);
  }

  // ---------------------------------------------------------------- invariant

  /** What every stored entry satisfies: a parsed pair, and answer and feedback recorded together. */
  predicate ValidEntry(kind: Kind, e: Entry)
  {
    IsWellFormed(QA(e.question, e.answer)) &&
    (e.userAnswer.Some? <==> e.aiFeedback.Some?) &&
    (kind.Coach? ==> e.userAnswer.None?) &&
    (e.userAnswer.Some? ==> e.userAnswer.value != [] && IsStripped(e.userAnswer.value)) &&
    (e.aiFeedback.Some? ==> IsStripped(e.aiFeedback.value))
  }

  /** The session invariant: never more than the limit, every entry valid. */
  predicate ValidSession(kind: Kind, qs: seq<Entry>)
  {
    |qs| <= Max(kind) && forall i :: 0 <= i < |qs| ==> ValidEntry(kind, qs[i])
  }

  lemma FetchPreservesValid(kind: Kind, qs: seq<Entry>, index: nat, ready: bool, reply: Reply)
    requires ValidSession(kind, qs)
    ensures ValidSession(kind, FetchStep(kind, qs, index, ready, reply).questions)
  {
    var f := FetchStep(kind, qs, index, ready, reply);
    if f.result.Generated? {
      var pairs := ParseAiResponse(Strip(reply.raw));
      assert IsWellFormed(pairs[0]);
      AppendValid(kind, qs, NewEntry(pairs[0]));
    }
  }

  /** Appending a fresh, valid entry below the limit keeps the session valid. */
  lemma AppendValid(kind: Kind, qs: seq<Entry>, e: Entry)
    requires ValidSession(kind, qs) && |qs| < Max(kind) && ValidEntry(kind, e)
    ensures ValidSession(kind, qs + [e])
  {
    forall i | 0 <= i < |qs| + 1 ensures ValidEntry(kind, (qs + [e])[i]) {
      if i < |qs| { assert (qs + [e])[i] == qs[i]; }
    }
  }

  lemma EvaluatePreservesValid(kind: Kind, qs: seq<Entry>, arg: IndexArg, userAnswer: string, ready: bool, reply: Reply)
    requires ValidSession(kind, qs)
    ensures ValidSession(kind, EvaluateStep(kind, qs, arg, userAnswer, ready, reply).questions)
  {
    var e := EvaluateStep(kind, qs, arg, userAnswer, ready, reply);
    if e.result.Evaluated? {
      var i := IndexValue(arg).value;
      assert ValidEntry(kind, qs[i]);
      assert ValidEntry(kind, e.questions[i]);
    }
  }

  /** In a valid session the results are shown exactly when the list has reached the limit. */
  lemma ShownOnlyWhenFull(qs: seq<Entry>, ready: bool, reply: Reply)
    requires ValidSession(Practice, qs)
    ensures ResultsStep(Practice, qs, ready, reply).Shown? <==> |qs| == MaxPracticeQuestions
  {
  }

  // ---------------------------------------------------------------- the session object

  /** A stored session: its kind and its `questions_data` list, updated in place by each step. */
  class Session {
    const kind: Kind
    var questions: seq<Entry>

    ghost predicate Valid()
      reads this
    {
      ValidSession(kind, questions)
    }

    /** A new session has no questions yet; they are generated on demand. */
    constructor (kind: Kind)
      ensures this.kind == kind && questions == [] && Valid()
    {
      this.kind := kind;
      questions := [];
    }

    /**
     * `get_question` and `practice_interview_question` on the stored session,
     * in place: the reply and the new question list are exactly those of
     * `FetchStep`, so the lemmas about `FetchStep` (idempotent re-fetch,
     * preserved validity) hold of this method.
     */
    method Fetch(index: nat, ready: bool, reply: Reply) returns (result: FetchResult)
      requires Valid()
      modifies this
      ensures Valid()
      ensures FetchStep(kind, old(questions), index, ready, reply) == Fetched(result, questions)
    {
      FetchPreservesValid(kind, questions, index, ready, reply);
      if !ready {
        return FetchFailed(ServiceUnavailable);
      }
      if index < |questions| {
        return Existing(questions[index]);
      }
      if index > |questions| {
        return InvalidIndex;
      }
      if |questions| >= Max(kind) {
        return MaxReached;
      }
      if !reply.Text? {
        return FetchFailed(CallFailure(reply));
      }
      var pairs := ParseAiResponse(Strip(reply.raw));
      if pairs == [] {
        return Malformed;
      }
      var entry := NewEntry(pairs[0]);
      questions := questions + [entry];
      result := Generated(entry);
    }

    /**
     * `practice_evaluate` on the stored session, in place: the reply and the new
     * question list are exactly those of `EvaluateStep`, so re-evaluation
     * overwrites, other entries are untouched and validity is preserved.
     */
    method Evaluate(arg: IndexArg, userAnswer: string, ready: bool, reply: Reply) returns (result: EvalResult)
      requires Valid()
      modifies this
      ensures Valid()
      ensures EvaluateStep(kind, old(questions), arg, userAnswer, ready, reply) == Evaluation(result, questions)
    {
      EvaluatePreservesValid(kind, questions, arg, userAnswer, ready, reply);
      if kind.Coach? {
        return NotPractice;
      }
      if !ValidIndex(arg) {
        return InvalidIndexArg;
      }
      var answer := Strip(userAnswer);
      var i := IndexValue(arg).value;
      if answer == [] {
        return EmptyAnswer;
      }
      if i >= |questions| {
        return NotFound;
      }
      if !ready {
        return EvalFailed(ServiceUnavailable);
      }
      if !reply.Text? {
        return EvalFailed(CallFailure(reply));
      }
      var feedback := Strip(reply.raw);
      questions := questions[i := questions[i].(userAnswer := Some(answer), aiFeedback := Some(feedback))];
      result := Evaluated(feedback, |questions| == MaxPracticeQuestions);
    }

    /**
     * `practice_results` on the stored session: it reads the question list and
     * changes nothing, and its outcome is that of `ResultsStep`, so results are
     * shown only for a full practice session.
     */
    method Results(ready: bool, reply: Reply) returns (outcome: ResultsOutcome)
      requires Valid()
      ensures outcome == ResultsStep(kind, questions, ready, reply)
      ensures outcome.Shown? ==> |questions| == MaxPracticeQuestions
    {
      if kind.Coach? {
        return NoPracticeSession;
      }
      if questions == [] || |questions| < MaxPracticeQuestions {
        return Incomplete;
      }
      outcome := Shown(Aggregate(questions, ready, reply));
    }
  }
}
