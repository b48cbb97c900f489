# HireCoach-AI core, modelled in Dafny

HireCoach-AI is a Flask application. It asks a generative model for interview
questions, evaluates a user's practice answers, aggregates a hiring
assessment, and rewrites a resume against a job description. Everything it
does with the model's replies runs through two pieces of `app.py`, and this
project models and verifies both.

- **The response parsers.** They turn the model's raw text into records:
  - `parse_ai_response`: `Question:`/`Answer:` pairs;
  - `parse_feedback_response`: the stripped text;
  - `parse_overall_results`: hiring percentage, areas for improvement and
    overall message;
  - `parse_resume_optimization_response` with `clean_asterisks`: match score,
    summary, improvement bullets, optimized resume and change analysis.

  Each regular expression becomes an explicit scan:
  - find the first marker (ASCII case-folded where the pattern is
    `IGNORECASE`);
  - skip whitespace;
  - take the shortest capture up to the next terminator, or to the end where
    `$` allows (at the very end, or before one final newline);
  - trim with Python's `str.strip` whitespace set.

  `re.findall` resumes after each match, and `re.sub` rescans after each
  replacement.
- **The session step logic** of the coach and practice routes:
  - fetching question `index`, generated on demand;
  - evaluating one answer;
  - the gate in front of the practice results page;
  - the overall-feedback aggregation behind that gate.

  Each step is a pure function from the stored `questions_data` list and the
  model's outcome to a response and a new list. The class
  `Sessions.Session` holds the list as a mutable field and performs each step
  in place. Its `ensures` tie it to the step function, and the session
  invariant is proved as lemmas about the functions.

The model stands in for the provider with a value
(`Provider.Reply`: text, deadline exceeded, API error or other exception), plus
a flag that says whether the client was configured.

Modules:
- `Text` (`text.dfy`): whitespace, `strip`, case folding, `"\n".join` and
  `split('\n')`.
- `Scan` (`scan.dfy`): the shared regex search shapes.
- `QaParser`, `OverallParser`, `ResumeParser`: the parsers.
- `ResumeStore`: the improvements column, joined and split.
- `Records`, `Provider`, `Aggregation`, `Sessions`: the session side.

## Model

| member | source | states |
|---|---|---|
| Text.Strip | app.py:164-165 | the result has no leading or trailing whitespace, is empty exactly when the text is all whitespace, and only holds characters of the text |
| Text.SplitLines | app.py:1225 | `split('\n')` always has at least one piece and no piece holds a newline |
| Text.JoinLines | app.py:1167 | joining no items gives `""` and joining one item gives the item |
| QaParser.MatchAt | app.py:149 | a match ends past its `Question:` at a stop (a `Question:` or the end of the text); the question capture is the text from after `Question:` and its whitespace up to the first `Answer:`, and the answer capture the text from after that `Answer:` and its whitespace up to the first stop, where the match ends; so the question capture holds no `Answer:` and the answer capture no `Question:` |
| QaParser.MatchExactlyWithAnswer | app.py:149 | a `Question:` fails to match exactly when no `Answer:` starts anywhere after it |
| QaParser.FindAllFrom | app.py:149 | every hit is the match of the pattern at some `Question:` at or after the start position; the first hit is the match at the first such position that matches, with no match before it; there are no hits exactly when no such position matches; each match consumes at least one character |
| QaParser.FindAllFirst | app.py:149 | when the first matching `Question:` at or after the start is at `q`, the hits are its match followed by the hits from where that match ends, so the scan resumes after each match |
| QaParser.FindAllRest | app.py:149 | the hits after the first are exactly the hits from where the first match ends, which fixes their order and multiplicity |
| QaParser.WellFormedPairs | app.py:152-157 | every kept pair is well formed and is the stripped captures of some hit; every hit whose stripped question and answer are both non-empty is kept |
| QaParser.WellFormedPairsAppend | app.py:152-157 | the pairs of two runs of hits are the pairs of each run, in order |
| QaParser.WellFormedPairsSingle | app.py:152-157 | one hit contributes exactly its stripped pair when both captures are non-empty after stripping, and nothing otherwise |
| QaParser.ParseAiResponse | app.py:145-160 | every returned pair has a non-empty, whitespace-trimmed question and answer |
| QaParser.ParseAiFirstMatch | app.py:145-160 | the pairs are those of the first match followed by those of the matches after it; a kept first match is the first pair, the one the fetch step stores |
| QaParser.NoQuestionMarkerNoPairs | app.py:149-160 | text without `Question:` yields no pairs |
| QaParser.NoAnswerMarkerNoPairs | app.py:149-160 | text without `Answer:` yields no pairs, since a match needs one after its `Question:` |
| QaParser.SinglePair | app.py:149-157 | `Question: q` newline `Answer: a` with trimmed non-empty `q` (no `Answer:`) and `a` (no `Question:`) yields exactly `[(q, a)]` |
| QaParser.PolymorphismExample | app.py:149-157 | the polymorphism question and answer come back as exactly one pair with both texts trimmed |
| QaParser.BareQuestionExample | app.py:149-160 | `"Tell me about yourself."` yields no pairs |
| QaParser.ParseFeedback | app.py:164-165 | the feedback is trimmed and empty exactly when the reply is all whitespace |
| OverallParser.ParseOverallResults | app.py:169-191 | the hiring percentage is `N/A` or 1-3 digits and `%`; without an `Areas for Improvement:` label the areas stay `N/A`, and with one they are the stripped text from after its first occurrence (and the whitespace after it) up to the first message label or the end; without an `Overall Message:`/`Overall Feedback:` label the message is the stripped whole input, and with one it is the stripped rest after the first such label; the message is always trimmed |
| OverallParser.HiringPercentage | app.py:176-179 | `N/A` or 1-3 digits followed by `%`; `N/A`, the default, exactly when the pattern matches nowhere |
| OverallParser.AreasForImprovement | app.py:181-184 | `N/A` when the label is absent; otherwise the stripped text between the first label (and the whitespace after it) and the first following message label or end of text |
| OverallParser.OverallMessage | app.py:186-189 | the stripped input when no message label occurs; otherwise the stripped rest of the text after the first label; always trimmed |
| OverallParser.MessageAfterFirstLabel | app.py:186-189 | when the first message label starts at `p`, the message is the stripped rest of the text after that label |
| OverallParser.HiringFromFirstMatch | app.py:177-179 | when the first `Hiring Percentage: <digits>%` match is at `p`, its digits with `%` are the percentage |
| Scan.Capture | app.py:182 | a section is captured exactly when one of its labels occurs, and the capture is the text from after the first label occurrence and the whitespace that follows it up to the first stop at or after that point (for a capture to the end, the end of the text) |
| Scan.NumberAt | app.py:177 | a number found at a position is 1-3 digits right after the label (letter case folded) and its whitespace, not followed by a further digit when shorter than 3, and followed by `%` when the pattern asks for it |
| Scan.NumberAtMatch | app.py:177 | conversely, any 1-3 digits placed after the label and its whitespace in that way are the number found there |
| Scan.FirstNumber | app.py:177 | the number found is 1-3 digits; it is the number of the first position that matches, with no match before it; nothing is found exactly when no position matches |
| ResumeParser.CleanAsterisks | app.py:205-206 | the result is trimmed and keeps a newline-free text newline-free |
| ResumeParser.Unbold | app.py:206 | the substitution never lengthens the text and only produces characters of the text |
| ResumeParser.UnboldPlain | app.py:205-206 | text without `**` is left unchanged by the substitution, so cleaning it only strips it |
| ResumeParser.UnboldCopies | app.py:206 | a first character that does not start `**`, a lone `*` included, is copied and the substitution continues after it |
| ResumeParser.UnboldFirstSpan | app.py:206 | a leading `**` whose first later `**` comes before any newline opens a span: the text between them, stars included, replaces it, and the substitution continues after the closing `**` |
| ResumeParser.UnboldUnclosed | app.py:206 | a leading `**` with no later `**` before the next newline or the end is no span: its first `*` is copied and the substitution continues at the second |
| ResumeParser.UnboldSpanThen | app.py:206 | a leading `**x**`, where `x` has no `*` and no newline, becomes `x`, and the substitution continues after the closing `**` |
| ResumeParser.UnboldSpan | app.py:205-206 | `**x**`, where `x` has no `*` and no newline, becomes `x`, so cleaning gives `x` stripped |
| ResumeParser.StripBullet | app.py:228 | the result is a suffix of the line; a leading `-` or `*` is removed together with all the whitespace after it and nothing else; any other line is unchanged |
| ResumeParser.Improvement | app.py:228 | an entry is trimmed and has no newline when its line has none |
| ResumeParser.BulletImprovement | app.py:228 | a line `-` or `*`, then whitespace, then text `x` not starting with whitespace, gives `x` stripped and cleaned |
| ResumeParser.LineItems | app.py:228 | a line gives no entry exactly when it is blank, and at most one entry, which is trimmed and has no newline when the line has none |
| ResumeParser.Improvements | app.py:226-228 | no more entries than lines; every entry is trimmed; no entry has a newline when no line has one |
| ResumeParser.ImprovementsAppend | app.py:228 | the entries of two blocks of lines are the entries of each block, in order |
| ResumeParser.ImprovementsSingle | app.py:228 | a blank line contributes nothing and any other line contributes exactly its cleaned entry |
| ResumeParser.BulletLine | app.py:228 | the line `- x` gives `x` |
| ResumeParser.BoldBulletLine | app.py:228 | the line `* **x**` gives `x` |
| ResumeParser.MatchScore | app.py:208-216 | the score is `N/A` or digits and `%`; `N/A`, the default, exactly when neither the bold nor the fallback pattern matches anywhere |
| ResumeParser.BoldScoreFirst | app.py:209-211 | the first bold `**Match Score:**` match decides the score, wherever a fallback match is |
| ResumeParser.FallbackScoreFirst | app.py:212-216 | only when no bold match exists does the first fallback `Match Score:` match decide the score, with `%` added |
| ResumeParser.SummaryMessage | app.py:218-221 | `N/A` unless the summary header occurs; then the text from after its first occurrence and the whitespace that follows, up to the first improvements or optimized-resume header or the end, stripped and cleaned |
| ResumeParser.OriginalImprovements | app.py:223-228 | no entries unless the improvements header occurs; then the entries of the lines of the stripped text from after its first occurrence up to the first optimized-resume header or the end; every entry trimmed and free of newlines |
| ResumeParser.OptimizedResumeText | app.py:230-234 | the default text unless the optimized-resume header occurs; then the stripped text from after its first occurrence up to the first changes header or the end, with its bold markers kept |
| ResumeParser.ChangesAnalysis | app.py:236-239 | the default text unless the changes header occurs; then the stripped and cleaned rest of the text after its first occurrence |
| ResumeParser.ParseResumeOptimization | app.py:195-245 | every field keeps its default unless its header is found, and is the text of that header's section as described for the section functions when it is; the score is `N/A` or digits and `%`; every improvement is trimmed and free of newlines |
| ResumeStore.Store | app.py:1167 | an empty list stores as `""`; splitting a stored newline-free list gives back as many pieces as there were items |
| ResumeStore.Load | app.py:1224-1227 | the items read back have no newline, and there are none exactly when the column is empty |
| ResumeStore.SplitJoin | app.py:1224-1227 | splitting the join of a non-empty newline-free list gives the list |
| ResumeStore.JoinSplit | app.py:1224-1227 | joining the pieces of a split gives the text |
| ResumeStore.StoreLoadRoundTrip | app.py:1224-1227 | a newline-free list stored with `"\n".join` (line 1167) reads back as itself, except `[""]`, which reads back as `[]` |
| ResumeStore.LoadStoreRoundTrip | app.py:1224-1227 | every column reads back to items that store as the same column |
| ResumeStore.StoreParsed | app.py:1157-1170 | nothing is stored exactly when the score is `N/A`, there are no improvements and there is no optimized resume; otherwise score, summary, resume and changes analysis are stored as parsed and the improvements as their `"\n"` join |
| ResumeStore.UnusableReplyRefused | app.py:1157 | a reply with no score match of either pattern, no improvements header and no optimized-resume header is not stored |
| ResumeStore.ScoredReplyStored | app.py:1157 | a reply with a score match of either pattern is stored, whatever else it lacks |
| ResumeStore.ParsedImprovementsSurvive | app.py:1163-1170 | for every stored parse, the results page shows the parsed improvements (an only entry `""` shows as none) |
| Aggregation.FromFailure | app.py:303-312 | a failed call gives hiring `N/A`, message `Please try again.` and areas ending with the error detail |
| Aggregation.Aggregate | app.py:248-312 | the hiring percentage is `N/A` or a percentage, and it is a percentage only when the model exists, there is data and the call returned text; no model and no data give their fixed `N/A` results; a reply is parsed as stripped text; a failure keeps its detail |
| Aggregation.AggregateAsWritten | app.py:248-312 | the function as written raises `KeyError` exactly when the model exists, there is data and some entry lacks `user_answer` or `ai_feedback`, because the loop at lines 271-276 reads both keys outside the `try` |
| Sessions.CallFailure | app.py:698-708 | a deadline gives the timeout error, a service error the service error with its detail, anything else the unexpected-server error; never the unavailable-service error |
| Sessions.FetchStep | app.py:621-712 | no model: service unavailable; an existing index: that entry, list unchanged; the next index below the limit: a valid parsed reply appends exactly one entry, the reply's first pair, at that index, a parsed reply with no pairs is malformed (exactly then), and a failed call gives that call's failure; the next index at the limit: maximum reached; a later index: invalid; every failure leaves the list unchanged; the limit is never exceeded |
| Sessions.FetchIdempotent | app.py:626-634 | fetching a just-generated index again serves the same entry and changes nothing |
| Sessions.FetchPreservesValid | app.py:636-687 | fetching keeps the session invariant: at most `MAX` entries, each a well-formed pair with answer and feedback recorded together |
| Sessions.Record | app.py:991-995 | only entry `i` changes, and only its user answer and feedback; the length is unchanged |
| Sessions.IndexValue | app.py:933 | an index has a value exactly when it is a JSON integer or boolean |
| Sessions.ValidIndexCases | app.py:933 | an integer index passes exactly when it is in `[0, MAX)`; both booleans pass, as 1 and 0; a missing index or any other JSON value fails |
| Sessions.EvaluateStep | app.py:930-1036 | the checks are ordered: index an int (a bool counts) in `[0, MAX)`, then a non-blank answer, then an existing entry, then the model, whose absence gives service unavailable exactly when the earlier checks pass; a failed call gives that call's failure; on a reply only that entry's stripped answer and stripped feedback are recorded; completion is signalled exactly when the list holds `MAX` entries; every rejection leaves the list unchanged |
| Sessions.EvaluatePreservesValid | app.py:991-995 | evaluating keeps the session invariant |
| Sessions.ReevaluateOverwrites | app.py:991-995 | with no guard against re-answering, a second evaluation of the same index ends as if only the second had happened |
| Sessions.CompletionIgnoresOtherAnswers | app.py:1012-1015 | on a full list, every successful evaluation signals completion, whatever other entries are unanswered |
| Sessions.ResultsStep | app.py:1068-1070 | results are refused while fewer than `MAX` entries exist and shown, with the corrected aggregation, otherwise |
| Sessions.ShownOnlyWhenFull | app.py:1068-1070 | in a valid session results are shown exactly when the list holds `MAX` entries |
| Sessions.ResultsAsWritten | app.py:1068-1074 | the page as written crashes exactly when the gate passes, the model exists and some entry is unanswered |
| Sessions.ResultsAgree | app.py:1068-1074 | wherever the page as written does not crash, it shows what the corrected page shows |
| Sessions.UnansweredSessionCrashes | app.py:1068-1074 | five fetches and no evaluation pass the gate, and the page as written then crashes |
| Sessions.Session.constructor | app.py:751 | a new session has no questions and satisfies the invariant |
| Sessions.Session.Fetch | app.py:808-900 | performs the fetch step in place, appending to the list, and keeps the invariant |
| Sessions.Session.Evaluate | app.py:930-1022 | performs the evaluate step in place, updating one entry, and keeps the invariant |
| Sessions.Session.Results | app.py:1068-1074 | changes nothing; the outcome is the results step, and it is shown only on a full list |

## Left out

- Flask plumbing: routing, templates, `flash`, redirects and JSON responses. Responses become datatype constructors.
- Persistence: SQLAlchemy, commits, and the JSON encoding of `questions_data`. The stored list is the session's field.
- The cookie session: finding the active session id, and removing it after the results page. A session's kind stands in for the type check.
- Accounts: registration, login and password hashing. These are foreign library calls.
- The Gemini client: its configuration, prompts, token limits, temperatures and timeouts. The outcome of a call is a parameter; whether the client exists is a flag.
- Logging, including the warning at lines 241-243, which changes no result.
- The first coach question, generated by `interview_coach` at lines 500-545. It is the fetch step at index 0 on a new coach session, with page-level errors instead of JSON.
- The fallback append at lines 996-1004: it cannot be reached, because lines 941-943 already rejected `q_index >= len`.
- A `user_answer` that is not a string, and a request body that is not JSON. Both raise before any check; the model takes the answer as text, with a missing key standing for `""`.
- QaParser.ParseAiResponse: the function's own contract states only the shape of each pair; the order and selection of the pairs are stated by ParseAiFirstMatch, FindAllFirst, FindAllRest, WellFormedPairsAppend and WellFormedPairsSingle.
- The fields of a fetch response: the coach route returns the question and its ideal answer, and the practice route only the question. The model returns the whole stored entry.
- Flask's `<int:index>` converter accepts only non-negative integers, so the fetch index is a `nat`.
- The resume-optimizer route's own input and login checks (lines 1101-1119) and its error pages. Only the parse check and the stored row are modelled.
- `\d` matches ASCII digits only, and `IGNORECASE` folds ASCII letters only. Python also accepts other Unicode digits and special case folds; model replies are assumed not to rely on them.
- Behaviour the code does not have, so the model does not have it either: a guard against answering twice, a completed status, retries, duplicate-question detection, and a parse that keeps a reply with no markers as a partial record.
- ResumeParser.CleanAsterisks: its own contract states only that the result is trimmed and stays newline-free; what the substitution does is stated by Unbold's lemmas (UnboldCopies, UnboldFirstSpan and UnboldUnclosed, which between them cover every non-empty text, plus UnboldPlain, UnboldSpanThen and UnboldSpan), since a closed form for every input would restate the scan.
- ResumeParser.Improvement: its own contract states only that the entry is trimmed and newline-free; its value is stated by StripBullet's contract (which part of the line is kept) and by BulletImprovement, BulletLine and BoldBulletLine.
- ResumeParser.Unbold: its own contract states only the length bound and that characters come from the text; its step-by-step behaviour is stated by three lemmas that between them cover every non-empty text: UnboldCopies (no `**` at the start, a lone `*` included), UnboldFirstSpan (a `**` closed before any newline, stars inside allowed) and UnboldUnclosed (a `**` not closed before a newline or the end).
- Aggregation.Aggregate: the prompt text is not modelled, so this corrected version differs from the written one only in not reading the missing keys.

## Findings

| source | as written | input that shows it | evidently intended | confidence | as-written member | corrected member |
|---|---|---|---|---|---|---|
| app.py:271-276 | the prompt loop reads `data['user_answer']` and `data['ai_feedback']` of every entry before the `try`, while the results gate at line 1068 only checks that five entries exist | five fetched practice questions, none evaluated, then the results page: `KeyError`, an unhandled server error | the overall feedback always returns a result, degraded if need be, for any session that passes the gate | medium, not executed | Sessions.UnansweredSessionCrashes | Sessions.ResultsStep |
