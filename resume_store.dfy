/**
 * How the resume optimizer keeps its improvements list in one text column:
 * joined with newlines when the record is stored, split again on newlines
 * (an empty column meaning no improvements) when the results page reads it.
 */
module ResumeStore {
  import opened Text
  import opened ResumeParser
  import opened Scan
  import opened Wrappers

  /** The row stored for a successful optimization; `originalImprovements` is the joined text. */
  datatype StoredResult = StoredResult(
    matchScore: string,
    summaryMessage: string,
    originalImprovements: string,
    optimizedResumeText: string,
    changesAnalysis: string)

  /** `"\n".join(items)` when the record is written. */
  function Store(items: seq<string>): (column: string)
    ensures items == [] ==> column == ""
    ensures (forall x :: x in items ==> NoNewline(x)) ==> |SplitLines(column)| == if items == [] then 1 else |items|
  {
    SplitJoinCount(items);
    JoinLines(items)
  }

  /** Reading the column back: `split('\n')`, except that an empty column gives no items. */
  function Load(column: string): (items: seq<string>)
    ensures forall x :: x in items ==> NoNewline(x)
    ensures items == [] <==> column == ""
  {
    if column == "" then [] else SplitLines(column)
  }

  /** Only the split's length is needed by `Store`'s contract. */
  lemma SplitJoinCount(items: seq<string>)
    ensures (forall x :: x in items ==> NoNewline(x)) ==> |SplitLines(JoinLines(items))| == if items == [] then 1 else |items|
  {
    if items != [] && forall x :: x in items ==> NoNewline(x) {
      SplitJoin(items);
    } else if items == [] {
      assert SplitLines("") == [""];
    }
  }

  /** Splitting a joined list of newline-free pieces gives the pieces back. */
  lemma {:induction false} SplitJoin(items: seq<string>)
    requires items != []
    requires forall x :: x in items ==> NoNewline(x)
    ensures SplitLines(JoinLines(items)) == items
    decreases |items|
  {
    var s := JoinLines(items);
    var isNewline := (j: nat) => j < |s| && s[j] == '\n';
    var x := items[0];
    assert NoNewline(x);
    if |items| == 1 {
      forall j | 0 <= j < |s| ensures !isNewline(j) { assert s[j] == x[j]; }
      FirstIs(0, |s|, isNewline, |s|);
      assert s[..|s|] == s;
    } else {
      var rest := items[1..];
      assert forall y :: y in rest ==> y in items;
      assert s == x + "\n" + JoinLines(rest);
      forall j | 0 <= j < |x| ensures !isNewline(j) { assert s[j] == x[j]; }
      assert isNewline(|x|);
      FirstIs(0, |s|, isNewline, |x|);
      assert s[..|x|] == x;
      assert s[|x| + 1..] == JoinLines(rest);
      SplitJoin(rest);
    }
  }

  /** Joining the pieces of a split gives the text back. */
  lemma {:induction false} JoinSplit(s: string)
    ensures JoinLines(SplitLines(s)) == s
    decreases |s|
  {
    var isNewline := (j: nat) => j < |s| && s[j] == '\n';
    var k := First(0, |s|, isNewline);
    if k < |s| {
      forall j | 0 <= j < k ensures s[j] != '\n' { assert !isNewline(j); }
      JoinSplit(s[k + 1..]);
      SplitAtNewline(s, k);
      JoinCons(s[..k], SplitLines(s[k + 1..]));
    } else {
      assert s[..k] == s;
    }
  }

  /** At the first newline `k`, the split is the piece before it and the split of the rest. */
  lemma SplitAtNewline(s: string, k: nat)
    requires k < |s| && s[k] == '\n' && forall j :: 0 <= j < k ==> s[j] != '\n'
    ensures SplitLines(s) == [s[..k]] + SplitLines(s[k + 1..])
    ensures s == s[..k] + "\n" + s[k + 1..]
  {
    FirstIs(0, |s|, (j: nat) => j < |s| && s[j] == '\n', k);
    AroundNewline(s, k);
  }

  lemma AroundNewline(s: string, k: nat)
    requires k < |s| && s[k] == '\n'
    ensures s == s[..k] + "\n" + s[k + 1..]
  {
  }

  lemma JoinCons(x: string, rest: seq<string>)
    requires rest != []
    ensures JoinLines([x] + rest) == x + "\n" + JoinLines(rest)
  {
    assert ([x] + rest)[1..] == rest;
  }

  /**
   * The round trip the results page relies on: a newline-free list reads back
   * as itself, except `[""]`, whose joined text is empty and reads back as `[]`.
   */
  lemma StoreLoadRoundTrip(items: seq<string>)
    requires forall x :: x in items ==> NoNewline(x)
    ensures Load(Store(items)) == if items == [""] then [] else items
  {
    if items != [] && items != [""] {
      SplitJoin(items);
      if |items| == 1 {
        assert items[0] != "";
      } else {
        assert JoinLines(items) == items[0] + "\n" + JoinLines(items[1..]);
      }
    }
  }

  /** Every column reads back to text that stores as the same column. */
  lemma LoadStoreRoundTrip(column: string)
    ensures Store(Load(column)) == column
  {
    if column != "" {
      JoinSplit(column);
    }
  }

  /** The check after parsing: no score, no improvements and no optimized resume means the reply was not usable. */
  predicate Incomplete(r: ResumeOptimization)
  {
    r.matchScore == ResumeParser.NotAvailable && r.originalImprovements == [] && r.optimizedResumeText == NoOptimizedResume
  }

  /** The row built from a parsed reply, or nothing when the parse is incomplete. */
  function StoreParsed(r: ResumeOptimization): (row: Option<StoredResult>)
    ensures row.None? <==> Incomplete(r)
    ensures row.Some? ==> row.value.matchScore == r.matchScore && row.value.optimizedResumeText == r.optimizedResumeText
    ensures row.Some? ==> row.value.summaryMessage == r.summaryMessage && row.value.changesAnalysis == r.changesAnalysis
    ensures row.Some? ==> row.value.originalImprovements == Store(r.originalImprovements)
  {
    if Incomplete(r) then None
    else Some(StoredResult(r.matchScore, r.summaryMessage, Store(r.originalImprovements),
                                    r.optimizedResumeText, r.changesAnalysis))
  }

  /** A reply with no score in either form and neither the improvements nor the optimized-resume header is refused. */
  lemma UnusableReplyRefused(s: string)
    requires forall k :: 0 <= k < |s| ==> NumberAt(s, k, ScoreMarker, true).None? && NumberAt(s, k, ScoreFallbackMarker, false).None?
    requires Absent(s, [ImprovementsMarker]) && Absent(s, [OptimizedMarker])
    ensures StoreParsed(ParseResumeOptimization(s)).None?
  {
  }

  /** A reply whose score is found, in either form, is never refused, whatever else it lacks. */
  lemma ScoredReplyStored(s: string, p: nat)
    requires p < |s| && (NumberAt(s, p, ScoreMarker, true).Some? || NumberAt(s, p, ScoreFallbackMarker, false).Some?)
    ensures StoreParsed(ParseResumeOptimization(s)).Some?
  {
    var score := MatchScore(s);
    assert score != NotAvailable by {
      if FirstNumber(s, ScoreMarker, true).None? {
        assert FirstNumber(s, ScoreFallbackMarker, false).Some?;
      }
      assert IsPercentage(score);
      assert NotAvailable[2] == 'A';
    }
  }

  /** What the results page shows is what the parser produced, for every reply that was stored. */
  lemma ParsedImprovementsSurvive(reply: string)
    requires StoreParsed(ParseResumeOptimization(reply)).Some?
    ensures var r := ParseResumeOptimization(reply);
      Load(StoreParsed(r).value.originalImprovements) == if r.originalImprovements == [""] then [] else r.originalImprovements
  {
    StoreLoadRoundTrip(ParseResumeOptimization(reply).originalImprovements);
  }
}
