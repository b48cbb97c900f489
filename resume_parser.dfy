/**
 * `parse_resume_optimization_response` and its helper `clean_asterisks`: the
 * provider's resume analysis, organised under bold `**Header:**` labels, becomes
 * five fields that keep their defaults unless their header is found.
 */
module ResumeParser {
  import opened Wrappers
  import opened Text
  import opened Scan

  const ScoreMarker := "**match score:**"
  const ScoreFallbackMarker := "match score:"
  const SummaryMarker := "**summary message:**"
  const ImprovementsMarker := "**original resume analysis - areas for improvement:**"
  const OptimizedMarker := "**optimized resume:**"
  const ChangesMarker := "**analysis of optimization changes:**"

  const NotAvailable := "N/A"
  const NoOptimizedResume := "Could not generate optimized resume."
  const NoChangesAnalysis := "Could not generate analysis of changes."

  datatype ResumeOptimization = ResumeOptimization(
    matchScore: string,
    summaryMessage: string,
    originalImprovements: seq<string>,
    optimizedResumeText: string,
    changesAnalysis: string)

  /** Where a bold span opened at `i` may close: on `**`; a newline ends the attempt (`.` without DOTALL). */
  predicate ClosesBold(t: string, k: nat)
  {
    StartsWithAt(t, k, "**") || (k < |t| && t[k] == '\n')
  }

  /** Where a bold span opened at the start of `t` closes: the first `**` after it, unless a newline comes first. */
  function BoldClose(t: string): (k: Option<nat>)
    requires StartsWithAt(t, 0, "**")
    ensures k.Some? ==> 2 <= k.value && StartsWithAt(t, k.value, "**")
    ensures k.Some? ==> NoNewline(t[2..k.value])
  {
    var close := (i: nat) => ClosesBold(t, i);
    var k := First(2, |t|, close);
    if k < |t| && StartsWithAt(t, k, "**") then
      assert NoNewline(t[2..k]) by {
        forall m | 0 <= m < k - 2 ensures t[2..k][m] != '\n' { assert !close(m + 2); }
      }
      Some(k)
    else None
  }

  /**
   * `re.sub(r'\*\*(.*?)\*\*', r'\1', t)`: scanning left to right, each `**x**`
   * whose `x` is the shortest run without a newline before the next `**` is
   * replaced by `x`; every other character is copied.
   */
  function Unbold(t: string): (r: string)
    ensures |r| <= |t|
    ensures forall c :: c in r ==> c in t
    decreases |t|
  {
    if t == [] then []
    else if StartsWithAt(t, 0, "**") && BoldClose(t).Some? then
      var k := BoldClose(t).value;
      var rest := Unbold(t[k + 2..]);
      assert forall c :: c in t[2..k] + rest ==> c in t by {
        forall c | c in t[2..k] + rest ensures c in t {
          if c in rest { assert c in t[k + 2..]; } else { assert c in t[2..k]; }
        }
      }
      t[2..k] + rest
    else
      var rest := Unbold(t[1..]);
      assert forall c :: c in [t[0]] + rest ==> c in t by {
        forall c | c in [t[0]] + rest ensures c in t {
          if c in rest { assert c in t[1..]; }
        }
      }
      [t[0]] + rest
  }

  /** `clean_asterisks`: bold spans unwrapped, then stripped. */
  function CleanAsterisks(t: string): (r: string)
    ensures IsStripped(r)
    ensures NoNewline(t) ==> NoNewline(r)
  {
    Strip(Unbold(t))
  }

  /** Text without `**` comes through Unbold unchanged, so cleaning it only strips it. */
  lemma {:induction false} UnboldPlain(t: string)
    requires forall k :: 0 <= k <= |t| ==> !StartsWithAt(t, k, "**")
    ensures Unbold(t) == t
    ensures CleanAsterisks(t) == Strip(t)
    decreases |t|
  {
    if t != [] {
      forall k | 0 <= k <= |t| - 1
        ensures !StartsWithAt(t[1..], k, "**")
      {
        assert !StartsWithAt(t, k + 1, "**");
        assert k + 2 <= |t| - 1 ==> t[1..][k..k + 2] == t[k + 1..k + 3];
      }
      UnboldPlain(t[1..]);
    }
  }

  /** A character that does not start `**`, a lone `*` included, is copied, and the scan goes on after it. */
  lemma UnboldCopies(t: string)
    requires t != [] && !StartsWithAt(t, 0, "**")
    ensures Unbold(t) == [t[0]] + Unbold(t[1..])
  {
  }

  /**
   * A `**` at the start whose first later `**` comes at `k`, with no newline
   * before it, is a bold span: its inside `t[2..k]`, stars and all, replaces it,
   * and the scan goes on after the closing `**`.
   */
  lemma UnboldFirstSpan(t: string, k: nat)
    requires StartsWithAt(t, 0, "**") && 2 <= k && StartsWithAt(t, k, "**")
    requires forall i :: 2 <= i < k ==> !StartsWithAt(t, i, "**") && t[i] != '\n'
    ensures Unbold(t) == t[2..k] + Unbold(t[k + 2..])
  {
    BoldCloseAt(t, k);
  }

  lemma BoldCloseAt(t: string, k: nat)
    requires StartsWithAt(t, 0, "**") && 2 <= k && StartsWithAt(t, k, "**")
    requires forall i :: 2 <= i < k ==> !StartsWithAt(t, i, "**") && t[i] != '\n'
    ensures BoldClose(t) == Some(k)
  {
    FirstIs(2, |t|, (i: nat) => ClosesBold(t, i), k);
  }

  /**
   * A `**` at the start that is not closed before a newline or the end of the
   * text (the first newline or end at `k`, no `**` before it) is not a span:
   * its first star is copied and the scan goes on at the second.
   */
  lemma UnboldUnclosed(t: string, k: nat)
    requires StartsWithAt(t, 0, "**") && 2 <= k <= |t| && (k == |t| || t[k] == '\n')
    requires forall i :: 2 <= i < k ==> !StartsWithAt(t, i, "**") && t[i] != '\n'
    ensures Unbold(t) == [t[0]] + Unbold(t[1..])
  {
    assert !StartsWithAt(t, k, "**");
    FirstIs(2, |t|, (i: nat) => ClosesBold(t, i), k);
  }

  /** A leading bold span `**x**` with no star or newline inside becomes `x`, and the scan goes on after it. */
  lemma UnboldSpanThen(x: string, v: string)
    requires '*' !in x && NoNewline(x)
    ensures Unbold("**" + x + "**" + v) == x + Unbold(v)
  {
    var t := "**" + x + "**" + v;
    var k := |x| + 2;
    assert StartsWithAt(t, 0, "**") by { assert t[0..2] == "**"; }
    assert StartsWithAt(t, k, "**") by { assert t[k..k + 2] == "**"; }
    forall i | 2 <= i < k
      ensures !ClosesBold(t, i)
    {
      assert t[i] == x[i - 2];
    }
    FirstIs(2, |t|, (i: nat) => ClosesBold(t, i), k);
    assert t[2..k] == x;
    assert t[k + 2..] == v;
  }

  /** A lone bold span `**x**` with no star or newline inside is replaced by `x`, and cleaning strips it. */
  lemma UnboldSpan(x: string)
    requires '*' !in x && NoNewline(x)
    ensures Unbold("**" + x + "**") == x
    ensures CleanAsterisks("**" + x + "**") == Strip(x)
  {
    UnboldSpanThen(x, []);
    assert "**" + x + "**" + [] == "**" + x + "**";
    assert x + Unbold([]) == x;
  }

  /** `re.sub(r"^[-\*]\s*", "", line)`: one leading `-` or `*` and the whitespace after it are dropped. */
  function StripBullet(line: string): (r: string)
    ensures |r| <= |line| && r == line[|line| - |r|..]
    ensures line != [] && (line[0] == '-' || line[0] == '*') ==> |r| < |line| && (r == [] || !IsSpace(r[0]))
    ensures line != [] && (line[0] == '-' || line[0] == '*') ==> AllSpace(line[1..|line| - |r|])
    ensures !(line != [] && (line[0] == '-' || line[0] == '*')) ==> r == line
  {
    if line != [] && (line[0] == '-' || line[0] == '*') then line[SkipSpace(line, 1)..] else line
  }

  /** One improvement as the list comprehension builds it from a line. */
  function Improvement(line: string): (item: string)
    ensures IsStripped(item)
    ensures NoNewline(line) ==> NoNewline(item)
  {
    var bare := StripBullet(line);
    SuffixNoNewline(line, |line| - |bare|);
    CleanAsterisks(Strip(bare))
  }

  /** A bullet `-` or `*`, any whitespace, then `x`: the improvement is `x` cleaned; the whitespace is all dropped. */
  lemma BulletImprovement(b: char, w: string, x: string)
    requires b == '-' || b == '*'
    requires AllSpace(w) && (x == [] || !IsSpace(x[0]))
    ensures Improvement([b] + w + x) == CleanAsterisks(Strip(x))
  {
    var line := [b] + w + x;
    forall k | 1 <= k < 1 + |w| ensures IsSpace(line[k]) { assert line[k] == w[k - 1]; }
    assert 1 + |w| < |line| ==> line[1 + |w|] == x[0];
    SkipSpaceTo(line, 1, 1 + |w|);
    assert line[1 + |w|..] == x;
  }

  /** What one line contributes to the list: nothing when it is blank. */
  function LineItems(line: string): (items: seq<string>)
    ensures |items| <= 1
    ensures items == [] <==> AllSpace(line)
    ensures forall x :: x in items ==> IsStripped(x) && (NoNewline(line) ==> NoNewline(x))
  {
    if Strip(line) == [] then [] else [Improvement(line)]
  }

  /** The list comprehension over the lines of the improvements block: blank lines are skipped. */
  function Improvements(lines: seq<string>): (items: seq<string>)
    ensures |items| <= |lines|
    ensures forall x :: x in items ==> IsStripped(x)
    ensures (forall l :: l in lines ==> NoNewline(l)) ==> forall x :: x in items ==> NoNewline(x)
  {
    if lines == [] then []
    else
      assert forall l :: l in lines[1..] ==> l in lines;
      LineItems(lines[0]) + Improvements(lines[1..])
  }

  /** The list is built line by line: the improvements of a concatenation are the concatenation of the improvements. */
  lemma {:induction false} ImprovementsAppend(xs: seq<string>, ys: seq<string>)
    ensures Improvements(xs + ys) == Improvements(xs) + Improvements(ys)
  {
    if xs == [] {
      assert xs + ys == ys;
    } else {
      ImprovementsAppend(xs[1..], ys);
      ConcatCons(xs, ys);
      ImprovementsUnfold(xs + ys);
      ImprovementsUnfold(xs);
      ConcatAssoc(LineItems(xs[0]), Improvements(xs[1..]), Improvements(ys));
    }
  }

  lemma ImprovementsUnfold(lines: seq<string>)
    requires lines != []
    ensures Improvements(lines) == LineItems(lines[0]) + Improvements(lines[1..])
  {
  }

  /** A single line gives one entry, unless it is blank; with the lemma above this determines the whole list. */
  lemma ImprovementsSingle(line: string)
    ensures AllSpace(line) ==> Improvements([line]) == []
    ensures !AllSpace(line) ==> Improvements([line]) == [Improvement(line)]
  {
    assert [line][1..] == [];
  }

  /** A bullet line `- x` gives `x`, when `x` is trimmed and has no star or newline. */
  lemma BulletLine(x: string)
    requires x != [] && IsStripped(x) && '*' !in x && NoNewline(x)
    ensures Improvement("- " + x) == x
  {
    assert "- " + x == ['-'] + " " + x;
    BulletImprovement('-', " ", x);
    StripStripped(x);
    NoStarNoBold(x);
    UnboldPlain(x);
  }

  /** Text without a star has no `**` anywhere. */
  lemma NoStarNoBold(x: string)
    requires '*' !in x
    ensures forall k :: 0 <= k <= |x| ==> !StartsWithAt(x, k, "**")
  {
    forall k | 0 <= k <= |x|
      ensures !StartsWithAt(x, k, "**")
    {
      assert k + 2 <= |x| ==> x[k..k + 2][0] == x[k];
    }
  }

  /** A bold bullet line `* **x**` gives `x` too. */
  lemma BoldBulletLine(x: string)
    requires IsStripped(x) && '*' !in x && NoNewline(x)
    ensures Improvement("* **" + x + "**") == x
  {
    var bold := "**" + x + "**";
    assert "* **" + x + "**" == ['*'] + " " + bold;
    BulletImprovement('*', " ", bold);
    BoldSpanCleaned(x);
  }

  lemma BoldSpanCleaned(x: string)
    requires IsStripped(x) && '*' !in x && NoNewline(x)
    ensures CleanAsterisks(Strip("**" + x + "**")) == x
  {
    var bold := "**" + x + "**";
    assert bold[0] == '*' && bold[|bold| - 1] == '*';
    StripStripped(bold);
    UnboldSpan(x);
    StripStripped(x);
  }

  /** `**Match Score:**\s*(\d{1,3}%)`, or failing that `Match Score:\s*(\d{1,3})`, reported with `%`. */
  function MatchScore(s: string): (r: string)
    ensures r == NotAvailable || IsPercentage(r)
    ensures r == NotAvailable <==>
      forall k :: 0 <= k < |s| ==> NumberAt(s, k, ScoreMarker, true).None? && NumberAt(s, k, ScoreFallbackMarker, false).None?
  {
    assert NotAvailable[2] == 'A';
    var bold := FirstNumber(s, ScoreMarker, true);
    if bold.Some? then PercentOr(bold) else PercentOr(FirstNumber(s, ScoreFallbackMarker, false))
  }

  /** The bold form decides the score whenever it matches anywhere: its first match is the score. */
  lemma BoldScoreFirst(s: string, p: nat)
    requires p < |s| && NumberAt(s, p, ScoreMarker, true).Some?
    requires forall k :: 0 <= k < p ==> NumberAt(s, k, ScoreMarker, true).None?
    ensures MatchScore(s) == NumberAt(s, p, ScoreMarker, true).value + "%"
  {
    FirstIs(0, |s|, (k: nat) => NumberAt(s, k, ScoreMarker, true).Some?, p);
  }

  /** Only when the bold form matches nowhere does the fallback decide the score. */
  lemma FallbackScoreFirst(s: string, p: nat)
    requires forall k :: 0 <= k < |s| ==> NumberAt(s, k, ScoreMarker, true).None?
    requires p < |s| && NumberAt(s, p, ScoreFallbackMarker, false).Some?
    requires forall k :: 0 <= k < p ==> NumberAt(s, k, ScoreFallbackMarker, false).None?
    ensures MatchScore(s) == NumberAt(s, p, ScoreFallbackMarker, false).value + "%"
  {
    FirstIs(0, |s|, (k: nat) => NumberAt(s, k, ScoreFallbackMarker, false).Some?, p);
  }

  /** `**Summary Message:**` up to the improvements or optimized-resume header, cleaned. */
  function SummaryMessage(s: string): (r: string)
    ensures Absent(s, [SummaryMarker]) ==> r == NotAvailable
    ensures !Absent(s, [SummaryMarker]) ==> IsStripped(r)
    ensures forall p: nat, e: nat :: SectionAt(s, [SummaryMarker], UpTo([ImprovementsMarker, OptimizedMarker]), p, e) ==>
      r == CleanAsterisks(Strip(s[ContentStart(s, [SummaryMarker], p)..e]))
  {
    var found := Capture(s, [SummaryMarker], UpTo([ImprovementsMarker, OptimizedMarker]));
    if found.Some? then CleanAsterisks(Strip(found.value)) else NotAvailable
  }

  /** The improvements block up to the optimized-resume header, one entry per non-blank line. */
  function OriginalImprovements(s: string): (items: seq<string>)
    ensures Absent(s, [ImprovementsMarker]) ==> items == []
    ensures forall x :: x in items ==> IsStripped(x) && NoNewline(x)
    ensures forall p: nat, e: nat :: SectionAt(s, [ImprovementsMarker], UpTo([OptimizedMarker]), p, e) ==>
      items == Improvements(SplitLines(Strip(s[ContentStart(s, [ImprovementsMarker], p)..e])))
  {
    var found := Capture(s, [ImprovementsMarker], UpTo([OptimizedMarker]));
    if found.Some? then
      Improvements(SplitLines(Strip(found.value)))
    else []
  }

  /** `**Optimized Resume:**` up to the analysis header, stripped but not cleaned. */
  function OptimizedResumeText(s: string): (r: string)
    ensures Absent(s, [OptimizedMarker]) ==> r == NoOptimizedResume
    ensures !Absent(s, [OptimizedMarker]) ==> IsStripped(r)
    ensures forall p: nat, e: nat :: SectionAt(s, [OptimizedMarker], UpTo([ChangesMarker]), p, e) ==>
      r == Strip(s[ContentStart(s, [OptimizedMarker], p)..e])
  {
    var found := Capture(s, [OptimizedMarker], UpTo([ChangesMarker]));
    if found.Some? then Strip(found.value) else NoOptimizedResume
  }

  /** `**Analysis of Optimization Changes:**` to the end of the text, cleaned. */
  function ChangesAnalysis(s: string): (r: string)
    ensures Absent(s, [ChangesMarker]) ==> r == NoChangesAnalysis
    ensures !Absent(s, [ChangesMarker]) ==> IsStripped(r)
    ensures forall p: nat, e: nat :: SectionAt(s, [ChangesMarker], ToEnd, p, e) ==>
      r == CleanAsterisks(Strip(s[ContentStart(s, [ChangesMarker], p)..e]))
  {
    var found := Capture(s, [ChangesMarker], ToEnd);
    if found.Some? then CleanAsterisks(Strip(found.value)) else NoChangesAnalysis
  }

  /**
   * `parse_resume_optimization_response`: every field keeps its default unless
   * its header occurs; the score is `N/A` or digits with `%`; no improvement is
   * blank-line noise or spans a newline.
   */
  function ParseResumeOptimization(s: string): (r: ResumeOptimization)
    ensures r.matchScore == NotAvailable || IsPercentage(r.matchScore)
    ensures Absent(s, [SummaryMarker]) ==> r.summaryMessage == NotAvailable
    ensures Absent(s, [ImprovementsMarker]) ==> r.originalImprovements == []
    ensures Absent(s, [OptimizedMarker]) ==> r.optimizedResumeText == NoOptimizedResume
    ensures Absent(s, [ChangesMarker]) ==> r.changesAnalysis == NoChangesAnalysis
    ensures forall x :: x in r.originalImprovements ==> IsStripped(x) && NoNewline(x)
    ensures forall p: nat, e: nat :: SectionAt(s, [SummaryMarker], UpTo([ImprovementsMarker, OptimizedMarker]), p, e) ==>
      r.summaryMessage == CleanAsterisks(Strip(s[ContentStart(s, [SummaryMarker], p)..e]))
    ensures forall p: nat, e: nat :: SectionAt(s, [ImprovementsMarker], UpTo([OptimizedMarker]), p, e) ==>
      r.originalImprovements == Improvements(SplitLines(Strip(s[ContentStart(s, [ImprovementsMarker], p)..e])))
    ensures forall p: nat, e: nat :: SectionAt(s, [OptimizedMarker], UpTo([ChangesMarker]), p, e) ==>
      r.optimizedResumeText == Strip(s[ContentStart(s, [OptimizedMarker], p)..e])
    ensures forall p: nat, e: nat :: SectionAt(s, [ChangesMarker], ToEnd, p, e) ==>
      r.changesAnalysis == CleanAsterisks(Strip(s[ContentStart(s, [ChangesMarker], p)..e]))
  {
    ResumeOptimization(MatchScore(s), SummaryMessage(s), OriginalImprovements(s),
                       OptimizedResumeText(s), ChangesAnalysis(s))
  }
}
