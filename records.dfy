/** The stored question records of a coach or practice session and the session limits. */
module Records {
  import opened Wrappers

  /** Questions generated for one Interview Coach session. */
  const MaxInitialQuestions: nat := 5
  /** Questions asked in one Practice Interview session. */
  const MaxPracticeQuestions: nat := 5

  /** Which feature a session belongs to; each route only accepts its own kind. */
  datatype Kind = Coach | Practice

  /** The limit that applies to a session of the given kind. */
  function Max(kind: Kind): nat
  {
    match kind
    case Coach => MaxInitialQuestions
    case Practice => MaxPracticeQuestions
  }

  /**
   * One element of `questions_data`: the generated question and ideal answer,
   * and, once evaluated, the user's answer and the feedback on it. `None`
   * stands for a key the dictionary does not have yet.
   */
  datatype Entry = Entry(question: string, answer: string, userAnswer: Option<string>, aiFeedback: Option<string>)

  /** Both keys that an evaluation adds are present. */
  predicate Answered(e: Entry)
  {
    e.userAnswer.Some? && e.aiFeedback.Some?
  }
}
