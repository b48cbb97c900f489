/**
 * The question/answer parser (`parse_ai_response`) and the feedback parser
 * (`parse_feedback_response`).
 *
 * `parse_ai_response` runs `re.findall` with the pattern
 *   Question:\s*(.*?)\s*Answer:\s*(.*?)(?=(Question:|$))
 * under DOTALL and case-sensitive matching, and keeps the pairs whose stripped
 * captures are both non-empty.  The pattern is modelled as an explicit scan:
 * find `Question:`, skip whitespace, find the first `Answer:` after it, skip
 * whitespace, and take everything up to the first later `Question:` or the end.
 */
module QaParser {
  import opened Wrappers
  import opened Text

  const QuestionMarker := "Question:"
  const AnswerMarker := "Answer:"

  /** One question with its ideal answer, as the parser hands it to the session. */
  datatype QA = QA(question: string, answer: string)

  /** A match of the pattern: its two captures and the position where the match ends. */
  datatype Hit = Hit(question: string, answer: string, end: nat)

  /** Where the lazy answer capture may stop: the lookahead `(?=(Question:|$))`. */
  predicate StopsAnswer(s: string, k: nat)
  {
    StartsWithAt(s, k, QuestionMarker) || AtEnd(s, k)
  }

  /**
   * The match of the pattern that starts at `p`, if any.  The first capture runs
   * to the first `Answer:` (it may keep trailing whitespace that the pattern's
   * `\s*` would take; the caller strips it either way); the second runs to the
   * first point where the lookahead holds.
   */
  function MatchAt(s: string, p: nat): (h: Option<Hit>)
    requires StartsWithAt(s, p, QuestionMarker)
    ensures h.Some? ==> p < h.value.end <= |s| && StopsAnswer(s, h.value.end)
    ensures h.Some? ==> Lacks(h.value.question, AnswerMarker) && Lacks(h.value.answer, QuestionMarker)
    ensures h.Some? ==> exists j: nat :: CapturedAt(s, p, j, h.value)
  {
    var q := SkipSpace(s, p + |QuestionMarker|);
    var isAnswer := (k: nat) => StartsWithAt(s, k, AnswerMarker);
    var j := First(q, |s|, isAnswer);
    assert forall k :: q <= k < j ==> !StartsWithAt(s, k, AnswerMarker) by {
      forall k | q <= k < j ensures !StartsWithAt(s, k, AnswerMarker) { assert !isAnswer(k); }
    }
    if j == |s| then None
    else
      var a := SkipSpace(s, j + |AnswerMarker|);
      var stops := (k: nat) => StopsAnswer(s, k);
      var e := First(a, |s|, stops);
      assert forall k :: a <= k < e ==> !StopsAnswer(s, k) && !StartsWithAt(s, k, QuestionMarker) by {
        forall k | a <= k < e ensures !StopsAnswer(s, k) && !StartsWithAt(s, k, QuestionMarker) { assert !stops(k); }
      }
      NoMarkerInside(s, q, j, AnswerMarker);
      NoMarkerInside(s, a, e, QuestionMarker);
      CapturedHere(s, p, j, e);
      Some(Hit(s[q..j], s[a..e], e))
  }

  /**
   * The captures of `h` as the pattern takes them from the `Question:` at `p` when
   * the first `Answer:` after it and its whitespace is at `j`: the question runs
   * from the end of that whitespace to `j`, and the answer from after `Answer:` and
   * its whitespace up to the first stop, where the match ends.
   */
  predicate CapturedAt(s: string, p: nat, j: nat, h: Hit)
  {
    p + |QuestionMarker| <= |s| &&
    var q := SkipSpace(s, p + |QuestionMarker|);
    q <= j && StartsWithAt(s, j, AnswerMarker) &&
    (forall k :: q <= k < j ==> !StartsWithAt(s, k, AnswerMarker)) &&
    var a := SkipSpace(s, j + |AnswerMarker|);
    a <= h.end <= |s| && h.question == s[q..j] && h.answer == s[a..h.end] &&
    (forall k :: a <= k < h.end ==> !StopsAnswer(s, k))
  }

  /** The captures the scan takes from the first `Answer:` at `j` and the first stop at `e`. */
  lemma CapturedHere(s: string, p: nat, j: nat, e: nat)
    requires StartsWithAt(s, p, QuestionMarker)
    requires SkipSpace(s, p + |QuestionMarker|) <= j && StartsWithAt(s, j, AnswerMarker)
    requires forall k :: SkipSpace(s, p + |QuestionMarker|) <= k < j ==> !StartsWithAt(s, k, AnswerMarker)
    requires SkipSpace(s, j + |AnswerMarker|) <= e <= |s|
    requires forall k :: SkipSpace(s, j + |AnswerMarker|) <= k < e ==> !StopsAnswer(s, k)
    ensures CapturedAt(s, p, j, Hit(s[SkipSpace(s, p + |QuestionMarker|)..j], s[SkipSpace(s, j + |AnswerMarker|)..e], e))
  {
  }

  /** A `Question:` starts a match exactly when an `Answer:` follows it somewhere. */
  lemma MatchExactlyWithAnswer(s: string, p: nat)
    requires StartsWithAt(s, p, QuestionMarker)
    ensures MatchAt(s, p).None? <==> forall k :: p + |QuestionMarker| <= k < |s| ==> !StartsWithAt(s, k, AnswerMarker)
  {
    var q := SkipSpace(s, p + |QuestionMarker|);
    var isAnswer := (k: nat) => StartsWithAt(s, k, AnswerMarker);
    var j := First(q, |s|, isAnswer);
    forall k | p + |QuestionMarker| <= k < j
      ensures !StartsWithAt(s, k, AnswerMarker)
    {
      if k < q { assert IsSpace(s[k]); } else { assert !isAnswer(k); }
    }
  }

  /** `t` contains no occurrence of `marker`. */
  predicate Lacks(t: string, marker: string)
  {
    forall k :: 0 <= k <= |t| ==> !StartsWithAt(t, k, marker)
  }

  /** When no window of `s` in `[lo, hi)` starts with `marker`, neither does any window of `s[lo..hi]`. */
  lemma NoMarkerInside(s: string, lo: nat, hi: nat, marker: string)
    requires lo <= hi <= |s| && marker != []
    requires forall k :: lo <= k < hi ==> !StartsWithAt(s, k, marker)
    ensures Lacks(s[lo..hi], marker)
  {
    forall k | 0 <= k <= |s[lo..hi]|
      ensures !StartsWithAt(s[lo..hi], k, marker)
    {
      if StartsWithAt(s[lo..hi], k, marker) {
        MarkerWithin(s, s[lo..hi], lo, k, marker);
      }
    }
  }

  /** No `Question:` in `[p, q)` starts a match. */
  predicate NoMatchBetween(s: string, p: nat, q: nat)
  {
    forall r: nat :: p <= r < q && StartsWithAt(s, r, QuestionMarker) ==> MatchAt(s, r).None?
  }

  /** `re.findall` from position `p`: each match is taken, and the scan resumes where it ended. */
  function FindAllFrom(s: string, p: nat): (hits: seq<Hit>)
    requires p <= |s|
    ensures |hits| <= |s| - p
    ensures hits != [] ==> FirstHitFrom(s, p, hits[0])
    ensures forall h :: h in hits ==> exists q: nat :: p <= q && StartsWithAt(s, q, QuestionMarker) && MatchAt(s, q) == Some(h)
    ensures hits == [] <==> forall q: nat :: p <= q && StartsWithAt(s, q, QuestionMarker) ==> MatchAt(s, q).None?
    decreases |s| - p
  {
    if p == |s| then []
    else if StartsWithAt(s, p, QuestionMarker) && MatchAt(s, p).Some? then
      var h := MatchAt(s, p).value;
      var rest := FindAllFrom(s, h.end);
      MatchStep(s, p, h, rest);
      [h] + rest
    else
      var rest := FindAllFrom(s, p + 1);
      SkipStep(s, p, rest);
      rest
  }

  /** The contract of `FindAllFrom` carried over a match at `p`. */
  lemma MatchStep(s: string, p: nat, h: Hit, rest: seq<Hit>)
    requires StartsWithAt(s, p, QuestionMarker) && MatchAt(s, p) == Some(h)
    requires |rest| <= |s| - h.end
    requires forall x :: x in rest ==> exists q: nat :: h.end <= q && StartsWithAt(s, q, QuestionMarker) && MatchAt(s, q) == Some(x)
    ensures |[h] + rest| <= |s| - p
    ensures FirstHitFrom(s, p, ([h] + rest)[0])
    ensures forall x :: x in [h] + rest ==> exists q: nat :: p <= q && StartsWithAt(s, q, QuestionMarker) && MatchAt(s, q) == Some(x)
    ensures !(forall q: nat :: p <= q && StartsWithAt(s, q, QuestionMarker) ==> MatchAt(s, q).None?)
  {
    FirstHitHere(s, p, h);
    forall x | x in [h] + rest
      ensures exists q: nat :: p <= q && StartsWithAt(s, q, QuestionMarker) && MatchAt(s, q) == Some(x)
    {
      if x != h {
        assert x in rest;
      }
    }
  }

  /** The contract of `FindAllFrom` carried back over a position where the pattern does not match. */
  lemma SkipStep(s: string, p: nat, rest: seq<Hit>)
    requires p < |s| && (StartsWithAt(s, p, QuestionMarker) ==> MatchAt(s, p).None?)
    requires |rest| <= |s| - (p + 1)
    requires rest != [] ==> FirstHitFrom(s, p + 1, rest[0])
    requires forall x :: x in rest ==> exists q: nat :: p + 1 <= q && StartsWithAt(s, q, QuestionMarker) && MatchAt(s, q) == Some(x)
    requires rest == [] <==> forall q: nat :: p + 1 <= q && StartsWithAt(s, q, QuestionMarker) ==> MatchAt(s, q).None?
    ensures |rest| <= |s| - p
    ensures rest != [] ==> FirstHitFrom(s, p, rest[0])
    ensures forall x :: x in rest ==> exists q: nat :: p <= q && StartsWithAt(s, q, QuestionMarker) && MatchAt(s, q) == Some(x)
    ensures rest == [] <==> forall q: nat :: p <= q && StartsWithAt(s, q, QuestionMarker) ==> MatchAt(s, q).None?
  {
    if rest != [] {
      FirstHitSkip(s, p, rest[0]);
    }
  }

  /** `h` is the match at the first position from `p` where the pattern matches. */
  ghost predicate FirstHitFrom(s: string, p: nat, h: Hit)
  {
    exists q: nat :: p <= q && StartsWithAt(s, q, QuestionMarker) && MatchAt(s, q) == Some(h) && NoMatchBetween(s, p, q)
  }

  lemma FirstHitHere(s: string, p: nat, h: Hit)
    requires StartsWithAt(s, p, QuestionMarker) && MatchAt(s, p) == Some(h)
    ensures FirstHitFrom(s, p, h)
  {
    assert NoMatchBetween(s, p, p);
  }

  /** A position where the pattern does not match does not change which match comes first. */
  lemma FirstHitSkip(s: string, p: nat, h: Hit)
    requires StartsWithAt(s, p, QuestionMarker) ==> MatchAt(s, p).None?
    requires FirstHitFrom(s, p + 1, h)
    ensures FirstHitFrom(s, p, h)
  {
    var q: nat :| p + 1 <= q && StartsWithAt(s, q, QuestionMarker) && MatchAt(s, q) == Some(h) && NoMatchBetween(s, p + 1, q);
    assert NoMatchBetween(s, p, q);
  }

  /**
   * The hits from `p` are the match at the first matching position `q`, then the
   * hits from where that match ends: this fixes their order and number.
   */
  lemma FindAllFirst(s: string, p: nat, q: nat, h: Hit)
    requires p <= q && StartsWithAt(s, q, QuestionMarker) && MatchAt(s, q) == Some(h) && NoMatchBetween(s, p, q)
    ensures FindAllFrom(s, p) == [h] + FindAllFrom(s, h.end)
  {
    FindAllSkipTo(s, p, q);
    FindAllAt(s, q, h);
  }

  /** Positions where the pattern does not match are passed over. */
  lemma {:induction false} FindAllSkipTo(s: string, p: nat, q: nat)
    requires p <= q <= |s| && NoMatchBetween(s, p, q)
    ensures FindAllFrom(s, p) == FindAllFrom(s, q)
    decreases q - p
  {
    if p < q {
      NoMatchStep(s, p, q);
      FindAllSkip(s, p);
      FindAllSkipTo(s, p + 1, q);
    }
  }

  lemma NoMatchStep(s: string, p: nat, q: nat)
    requires p < q && NoMatchBetween(s, p, q)
    ensures StartsWithAt(s, p, QuestionMarker) ==> MatchAt(s, p).None?
    ensures NoMatchBetween(s, p + 1, q)
  {
  }

  lemma FindAllSkip(s: string, p: nat)
    requires p < |s| && (StartsWithAt(s, p, QuestionMarker) ==> MatchAt(s, p).None?)
    ensures FindAllFrom(s, p) == FindAllFrom(s, p + 1)
  {
  }

  lemma FindAllAt(s: string, p: nat, h: Hit)
    requires StartsWithAt(s, p, QuestionMarker) && MatchAt(s, p) == Some(h)
    ensures FindAllFrom(s, p) == [h] + FindAllFrom(s, h.end)
  {
  }

  /** After the first hit, `re.findall` resumes where that match ended. */
  lemma FindAllRest(s: string, p: nat)
    requires p <= |s| && FindAllFrom(s, p) != []
    ensures FindAllFrom(s, p)[1..] == FindAllFrom(s, FindAllFrom(s, p)[0].end)
  {
    var hits := FindAllFrom(s, p);
    assert FirstHitFrom(s, p, hits[0]);
    var q: nat :| p <= q && StartsWithAt(s, q, QuestionMarker) && MatchAt(s, q) == Some(hits[0]) && NoMatchBetween(s, p, q);
    FindAllFirst(s, p, q, hits[0]);
  }

  /** Strips both captures of every hit and keeps the pairs where neither is empty. */
  function WellFormedPairs(hits: seq<Hit>): (pairs: seq<QA>)
    ensures |pairs| <= |hits|
    ensures forall x :: x in pairs ==> IsWellFormed(x)
    ensures forall h :: h in hits && PairOf(h).question != [] && PairOf(h).answer != [] ==> PairOf(h) in pairs
    ensures forall x :: x in pairs ==> exists h :: h in hits && x == PairOf(h)
  {
    if hits == [] then []
    else
      var q := Strip(hits[0].question);
      var a := Strip(hits[0].answer);
      var rest := WellFormedPairs(hits[1..]);
      var pairs := if q != [] && a != [] then [QA(q, a)] + rest else rest;
      KeepStep(hits, rest, pairs);
      pairs
  }

  /** The pair a hit yields, if it is kept: its two captures, stripped. */
  function PairOf(h: Hit): QA
  {
    QA(Strip(h.question), Strip(h.answer))
  }

  /** One step of the filter: the first hit is kept before the rest exactly when both of its stripped captures are non-empty. */
  lemma KeepStep(hits: seq<Hit>, rest: seq<QA>, pairs: seq<QA>)
    requires hits != []
    requires forall h :: h in hits[1..] && PairOf(h).question != [] && PairOf(h).answer != [] ==> PairOf(h) in rest
    requires forall x :: x in rest ==> exists h :: h in hits[1..] && x == PairOf(h)
    requires pairs == if PairOf(hits[0]).question != [] && PairOf(hits[0]).answer != [] then [PairOf(hits[0])] + rest else rest
    ensures forall h :: h in hits && PairOf(h).question != [] && PairOf(h).answer != [] ==> PairOf(h) in pairs
    ensures forall x :: x in pairs ==> exists h :: h in hits && x == PairOf(h)
  {
    forall x | x in pairs
      ensures exists h :: h in hits && x == PairOf(h)
    {
      if x in rest {
        var h :| h in hits[1..] && x == PairOf(h);
        assert h in hits;
      } else {
        assert x == PairOf(hits[0]) && hits[0] in hits;
      }
    }
  }

  /** The filter keeps a hit exactly when both stripped captures are non-empty. */
  predicate Kept(h: Hit)
  {
    PairOf(h).question != [] && PairOf(h).answer != []
  }

  /** One hit gives its stripped pair if it is kept, and nothing otherwise. */
  lemma WellFormedPairsSingle(h: Hit)
    ensures Kept(h) ==> WellFormedPairs([h]) == [PairOf(h)]
    ensures !Kept(h) ==> WellFormedPairs([h]) == []
  {
    assert [h][1..] == [];
  }

  /** The filter works hit by hit, keeping their order: it distributes over concatenation. */
  lemma {:induction false} WellFormedPairsAppend(xs: seq<Hit>, ys: seq<Hit>)
    ensures WellFormedPairs(xs + ys) == WellFormedPairs(xs) + WellFormedPairs(ys)
  {
    if xs == [] {
      assert xs + ys == ys;
    } else {
      WellFormedPairsAppend(xs[1..], ys);
      ConcatCons(xs, ys);
      WellFormedPairsUnfold(xs + ys);
      WellFormedPairsUnfold(xs);
      ConcatAssoc(WellFormedPairs([xs[0]]), WellFormedPairs(xs[1..]), WellFormedPairs(ys));
    }
  }

  lemma WellFormedPairsUnfold(hits: seq<Hit>)
    requires hits != []
    ensures WellFormedPairs(hits) == WellFormedPairs([hits[0]]) + WellFormedPairs(hits[1..])
  {
    WellFormedPairsSingle(hits[0]);
  }

  /**
   * The pairs of a reply are those of the match at the first matching position,
   * then those of the rest of the text after that match; so when that first
   * match is kept, `parsed_qa[0]` is its stripped pair.
   */
  lemma ParseAiFirstMatch(s: string, q: nat, h: Hit)
    requires StartsWithAt(s, q, QuestionMarker) && MatchAt(s, q) == Some(h) && NoMatchBetween(s, 0, q)
    ensures ParseAiResponse(s) == WellFormedPairs([h]) + WellFormedPairs(FindAllFrom(s, h.end))
    ensures Kept(h) ==> ParseAiResponse(s)[0] == PairOf(h)
    ensures !Kept(h) ==> ParseAiResponse(s) == WellFormedPairs(FindAllFrom(s, h.end))
  {
    FindAllFirst(s, 0, q, h);
    WellFormedPairsAppend([h], FindAllFrom(s, h.end));
    WellFormedPairsSingle(h);
  }

  /** Both texts are non-empty and carry no surrounding whitespace. */
  predicate IsWellFormed(qa: QA)
  {
    qa.question != [] && IsStripped(qa.question) && qa.answer != [] && IsStripped(qa.answer)
  }

  /** `parse_ai_response`: every pair it returns is well formed. */
  function ParseAiResponse(s: string): (pairs: seq<QA>)
    ensures forall i :: 0 <= i < |pairs| ==> IsWellFormed(pairs[i])
  {
    WellFormedPairs(FindAllFrom(s, 0))
  }

  /** `parse_feedback_response`: the feedback is the stripped text. */
  function ParseFeedback(s: string): (feedback: string)
    ensures IsStripped(feedback)
    ensures feedback == [] <==> AllSpace(s)
  {
    Strip(s)
  }

  /** Text with no `Question:` in it has no pairs. */
  lemma {:induction false} NoQuestionMarkerNoPairs(s: string)
    requires forall k :: 0 <= k <= |s| ==> !StartsWithAt(s, k, QuestionMarker)
    ensures ParseAiResponse(s) == []
  {
    NoQuestionMarkerFrom(s, 0);
  }

  lemma {:induction false} NoQuestionMarkerFrom(s: string, p: nat)
    requires p <= |s|
    requires forall k :: p <= k <= |s| ==> !StartsWithAt(s, k, QuestionMarker)
    ensures FindAllFrom(s, p) == []
    decreases |s| - p
  {
    if p < |s| {
      NoQuestionMarkerFrom(s, p + 1);
    }
  }

  /** Text with no `Answer:` in it has no pairs either: a match needs one after its `Question:`. */
  lemma {:induction false} NoAnswerMarkerNoPairs(s: string)
    requires forall k :: 0 <= k <= |s| ==> !StartsWithAt(s, k, AnswerMarker)
    ensures ParseAiResponse(s) == []
  {
    NoAnswerMarkerFrom(s, 0);
  }

  lemma {:induction false} NoAnswerMarkerFrom(s: string, p: nat)
    requires p <= |s|
    requires forall k :: 0 <= k <= |s| ==> !StartsWithAt(s, k, AnswerMarker)
    ensures FindAllFrom(s, p) == []
    decreases |s| - p
  {
    if p < |s| {
      if StartsWithAt(s, p, QuestionMarker) {
        assert MatchAt(s, p).None?;
      }
      NoAnswerMarkerFrom(s, p + 1);
    }
  }

  /**
   * The format the prompt asks for: `Question: <q>` on one line and `Answer: <a>`
   * on the next yields exactly the one pair (q, a), provided q is itself free of
   * `Answer:` and a of `Question:`.
   */
  lemma SinglePair(q: string, a: string)
    requires q != [] && IsStripped(q) && a != [] && IsStripped(a)
    requires forall k :: 0 <= k <= |q| ==> !StartsWithAt(q, k, AnswerMarker)
    requires forall k :: 0 <= k <= |a| ==> !StartsWithAt(a, k, QuestionMarker)
    ensures ParseAiResponse("Question: " + q + "\nAnswer: " + a) == [QA(q, a)]
  {
    var s := "Question: " + q + "\nAnswer: " + a;
    assert s[..10] == "Question: " && s[10..10 + |q|] == q;
    assert s[10 + |q|..19 + |q|] == "\nAnswer: " && s[19 + |q|..] == a;
    SinglePairMatch(s, q, a);
    var h := Hit(q + "\n", a, |s|);
    MatchToEnd(s, h);
    OneHitPair(s, q, a, h);
  }

  /** The single hit `(q + newline, a)` becomes the pair `(q, a)`. */
  lemma OneHitPair(s: string, q: string, a: string, h: Hit)
    requires q != [] && IsStripped(q) && a != [] && IsStripped(a)
    requires h == Hit(q + "\n", a, |s|) && FindAllFrom(s, 0) == [h]
    ensures ParseAiResponse(s) == [QA(q, a)]
  {
    assert AllSpace("\n");
    StripPadded("", q, "\n");
    assert "" + q + "\n" == q + "\n";
    StripStripped(a);
    WellFormedPairsSingle(h);
  }


  /** A match at the start that runs to the end of the text is the only hit. */
  lemma MatchToEnd(s: string, h: Hit)
    requires StartsWithAt(s, 0, QuestionMarker) && MatchAt(s, 0) == Some(h) && h.end == |s|
    ensures FindAllFrom(s, 0) == [h]
  {
    assert FindAllFrom(s, |s|) == [];
  }

  /** The one match in a text laid out as `Question: <q>\nAnswer: <a>`. */
  lemma SinglePairMatch(s: string, q: string, a: string)
    requires q != [] && IsStripped(q) && a != [] && IsStripped(a)
    requires forall k :: 0 <= k <= |q| ==> !StartsWithAt(q, k, AnswerMarker)
    requires forall k :: 0 <= k <= |a| ==> !StartsWithAt(a, k, QuestionMarker)
    requires |s| == 19 + |q| + |a|
    requires s[..10] == "Question: " && s[10..10 + |q|] == q
    requires s[10 + |q|..19 + |q|] == "\nAnswer: " && s[19 + |q|..] == a
    ensures StartsWithAt(s, 0, QuestionMarker)
    ensures MatchAt(s, 0) == Some(Hit(q + "\n", a, |s|))
  {
    var j := 11 + |q|;    // where `Answer:` starts
    var a0 := 19 + |q|;   // where the answer starts
    assert StartsWithAt(s, 0, QuestionMarker) by { assert s[0..9] == s[..10][0..9]; }
    assert SkipSpace(s, 9) == 10 by { assert s[9] == s[..10][9] == ' ' && s[10] == q[0]; }
    FirstAnswerAfterQuestion(s, q);
    assert s[a0 - 1] == s[10 + |q|..a0][8];
    AnswerRunsToEnd(s, a, a0);
    FirstIs(a0, |s|, (k: nat) => StopsAnswer(s, k), |s|);
    assert s[10 + |q|] == s[10 + |q|..a0][0];
    assert s[10..j] == q + "\n";
    assert s[a0..|s|] == a;
    assert |QuestionMarker| == 9 && |AnswerMarker| == 7;
    var h := Hit(s[10..j], s[a0..|s|], |s|);
    assert MatchAt(s, 0) == Some(h);
  }

  /** In that layout the first `Answer:` after the question is the one on the second line. */
  lemma FirstAnswerAfterQuestion(s: string, q: string)
    requires q != [] && forall k :: 0 <= k <= |q| ==> !StartsWithAt(q, k, AnswerMarker)
    requires 19 + |q| <= |s| && s[10..10 + |q|] == q && s[10 + |q|..19 + |q|] == "\nAnswer: "
    ensures First(10, |s|, (k: nat) => StartsWithAt(s, k, AnswerMarker)) == 11 + |q|
  {
    var j := 11 + |q|;
    AnswerLine();
    MarkerWithin(s, "\nAnswer: ", 10 + |q|, 1, AnswerMarker);
    assert s[10 + |q|] == s[10 + |q|..19 + |q|][0];
    NoMarkerBefore(s, q, 10, AnswerMarker);
    FirstIs(10, |s|, (k: nat) => StartsWithAt(s, k, AnswerMarker), j);
  }

  /** The second line of the layout opens with `Answer:`. */
  lemma AnswerLine()
    ensures StartsWithAt("\nAnswer: ", 1, AnswerMarker)
  {
    assert "\nAnswer: "[1..8] == AnswerMarker;
  }

  /** A marker inside a copy of `t` at `off` is a marker of `s`. */
  lemma MarkerWithin(s: string, t: string, off: nat, k: nat, marker: string)
    requires off + |t| <= |s| && s[off..off + |t|] == t
    requires StartsWithAt(t, k, marker)
    ensures StartsWithAt(s, off + k, marker)
  {
    forall i | 0 <= i < |marker|
      ensures s[off + k..off + k + |marker|][i] == marker[i]
    {
      assert s[off + k + i] == s[off..off + |t|][k + i];
      assert t[k + i] == t[k..k + |marker|][i];
    }
  }

  /** In that layout the answer starts after `Answer: ` and no stop occurs before the end of the text. */
  lemma AnswerRunsToEnd(s: string, a: string, a0: nat)
    requires 1 <= a0 && a0 + |a| == |s| && s[a0..] == a && s[a0 - 1] == ' '
    requires a != [] && IsStripped(a) && forall k :: 0 <= k <= |a| ==> !StartsWithAt(a, k, QuestionMarker)
    ensures SkipSpace(s, a0 - 1) == a0
    ensures forall k :: a0 <= k < |s| ==> !StopsAnswer(s, k)
  {
    assert s[a0] == a[0];
    NoStopIn(s, a, a0);
  }

  const ExampleQuestion := "What is polymorphism?"
  const ExampleAnswer := "Ability of one interface " + "to represent different behaviors."

  /** The worked example: a single well-formed pair comes back with both texts trimmed. */
  lemma PolymorphismExample()
    ensures ParseAiResponse("Question: " + ExampleQuestion + "\nAnswer: " + ExampleAnswer)
         == [QA(ExampleQuestion, ExampleAnswer)]
  {
    ExampleTexts();
    MissingFirstChar(ExampleQuestion, AnswerMarker);
    MissingFirstChar(ExampleAnswer, QuestionMarker);
    SinglePair(ExampleQuestion, ExampleAnswer);
  }

  /** A reply with no `Question:`/`Answer:` layout, such as a bare question, yields no pairs. */
  lemma BareQuestionExample()
    ensures ParseAiResponse("Tell me about yourself.") == []
  {
    assert 'Q' !in "Tell me about yourself.";
    MissingFirstChar("Tell me about yourself.", QuestionMarker);
    NoQuestionMarkerNoPairs("Tell me about yourself.");
  }

  lemma ExampleTexts()
    ensures ExampleQuestion != [] && IsStripped(ExampleQuestion) && 'A' !in ExampleQuestion
    ensures ExampleAnswer != [] && IsStripped(ExampleAnswer) && 'Q' !in ExampleAnswer
  {
    ExampleAnswerText();
  }

  lemma ExampleAnswerText()
    ensures ExampleAnswer != [] && IsStripped(ExampleAnswer) && 'Q' !in ExampleAnswer
  {
    var a1, a2 := "Ability of one interface ", "to represent different behaviors.";
    assert 'Q' !in a1 && 'Q' !in a2;
    assert ExampleAnswer[0] == a1[0] == 'A';
    assert ExampleAnswer[|ExampleAnswer| - 1] == a2[|a2| - 1] == '.';
  }

  /** A text that lacks a marker's first character does not contain the marker. */
  lemma MissingFirstChar(t: string, marker: string)
    requires marker != [] && marker[0] !in t
    ensures forall k :: 0 <= k <= |t| ==> !StartsWithAt(t, k, marker)
  {
  }

  /** A window of `s` that lies inside the copy of `t` at `off` is the same window of `t`. */
  lemma StartsWithInside(s: string, t: string, off: nat, k: nat, marker: string)
    requires off + |t| <= |s| && s[off..off + |t|] == t
    requires off <= k && k + |marker| <= off + |t|
    requires StartsWithAt(s, k, marker)
    ensures StartsWithAt(t, k - off, marker)
  {
    forall i | 0 <= i < |marker|
      ensures t[k - off..k - off + |marker|][i] == marker[i]
    {
      calc {
        t[k - off..k - off + |marker|][i];
        t[k - off + i];
        s[off..off + |t|][k - off + i];
        s[k + i];
        s[k..k + |marker|][i];
      }
    }
  }

  /** A marker without a newline cannot start inside `q` when `q` lacks it, nor on the newline after it. */
  lemma NoMarkerBefore(s: string, q: string, off: nat, marker: string)
    requires off + |q| < |s| && s[off..off + |q|] == q && s[off + |q|] == '\n'
    requires NoNewline(marker) && marker != []
    requires forall k :: 0 <= k <= |q| ==> !StartsWithAt(q, k, marker)
    ensures forall k :: off <= k <= off + |q| ==> !StartsWithAt(s, k, marker)
  {
    forall k | off <= k <= off + |q|
      ensures !StartsWithAt(s, k, marker)
    {
      if StartsWithAt(s, k, marker) {
        // a window reaching past `q` would cover the newline, which the marker lacks
        if k + |marker| <= off + |q| {
          StartsWithInside(s, q, off, k, marker);
        }
      }
    }
  }

  /** When the text ends with `a`, and `a` has no `Question:` and no final newline, nothing in it stops the answer. */
  lemma NoStopIn(s: string, a: string, off: nat)
    requires off + |a| == |s| && s[off..] == a && a != [] && a[|a| - 1] != '\n'
    requires forall k :: 0 <= k <= |a| ==> !StartsWithAt(a, k, QuestionMarker)
    ensures forall k :: off <= k < |s| ==> !StopsAnswer(s, k)
  {
    assert s[|s| - 1] == s[off..][|a| - 1];
    assert s[off..off + |a|] == a;
    forall k | off <= k < |s|
      ensures !StopsAnswer(s, k)
    {
      if StartsWithAt(s, k, QuestionMarker) {
        StartsWithInside(s, a, off, k, QuestionMarker);
      }
    }
  }
}
