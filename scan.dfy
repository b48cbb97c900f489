/**
 * The shapes of regular expression the result parsers search for, each as an
 * explicit scan under IGNORECASE (markers are written in lower case):
 *
 * - `Marker\s*(\d{1,3})` and `Marker\s*(\d{1,3})%`: a number of one to three digits;
 * - `(?:M1|M2):\s*(.*?)(?=S1|S2|$)` under DOTALL: a section up to the first stop;
 * - `(?:M1|M2):\s*(.*)` under DOTALL: a section that runs to the end of the text.
 *
 * Each is searched with `re.search`, i.e. at the first position where it matches.
 */
module Scan {
  import opened Wrappers
  import opened Text

  /** The length of the first of `markers` found at `s[k..]`; alternation tries them in order. */
  function MarkerAt(s: string, k: nat, markers: seq<string>): (n: Option<nat>)
    ensures n.Some? ==> k + n.value <= |s|
    ensures n.None? <==> forall i :: 0 <= i < |markers| ==> !FoldedAt(s, k, markers[i])
  {
    if markers == [] then None
    else if FoldedAt(s, k, markers[0]) then Some(|markers[0]|)
    else
      var n := MarkerAt(s, k, markers[1..]);
      assert forall i :: 1 <= i < |markers| ==> markers[i] == markers[1..][i - 1];
      n
  }

  /** Nothing in `s` starts with any of `markers`. */
  predicate Absent(s: string, markers: seq<string>)
  {
    forall k :: 0 <= k < |s| ==> MarkerAt(s, k, markers).None?
  }

  /** Where a lazy capture may stop: before one of `stops`, or at `$`. */
  predicate StopsAt(s: string, k: nat, stops: seq<string>)
  {
    MarkerAt(s, k, stops).Some? || AtEnd(s, k)
  }

  /** How far a capture runs: lazily up to the first stop, or greedily to the end (`.*` under DOTALL). */
  datatype Extent = UpTo(stops: seq<string>) | ToEnd

  function CaptureEnd(s: string, a: nat, extent: Extent): (e: nat)
    requires a <= |s|
    ensures a <= e <= |s|
    ensures extent.UpTo? ==> forall k :: a <= k < e ==> !StopsAt(s, k, extent.stops)
    ensures extent.UpTo? && e < |s| ==> StopsAt(s, e, extent.stops)
  {
    match extent
    case ToEnd => |s|
    case UpTo(stops) =>
      var stop := (k: nat) => StopsAt(s, k, stops);
      var e := First(a, |s|, stop);
      assert forall k :: a <= k < e ==> !StopsAt(s, k, stops) by {
        forall k | a <= k < e ensures !StopsAt(s, k, stops) { assert !stop(k); }
      }
      e
  }

  /** The first position where one of `markers` starts, or `|s|` when there is none. */
  function FirstMarker(s: string, markers: seq<string>): (p: nat)
    ensures p <= |s|
    ensures p < |s| ==> MarkerAt(s, p, markers).Some?
    ensures forall k :: 0 <= k < p ==> MarkerAt(s, k, markers).None?
  {
    var found := (k: nat) => MarkerAt(s, k, markers).Some?;
    var p := First(0, |s|, found);
    assert forall k :: 0 <= k < p ==> MarkerAt(s, k, markers).None? by {
      forall k | 0 <= k < p ensures MarkerAt(s, k, markers).None? { assert !found(k); }
    }
    p
  }

  /** `p` is where `re.search` finds the label: one of `markers` starts there and none starts earlier. */
  predicate FirstLabelAt(s: string, markers: seq<string>, p: nat)
  {
    p < |s| && MarkerAt(s, p, markers).Some? && forall k :: 0 <= k < p ==> MarkerAt(s, k, markers).None?
  }

  /** Where the captured text begins: after the label and the whitespace that `\s*` takes. */
  function ContentStart(s: string, markers: seq<string>, p: nat): (a: nat)
    requires p < |s| && MarkerAt(s, p, markers).Some?
    ensures p <= a <= |s|
  {
    SkipSpace(s, p + MarkerAt(s, p, markers).value)
  }

  /** `e` is where a capture begun at `a` ends: the first stop at or after `a`, or the end of the text. */
  predicate EndsAt(s: string, a: nat, extent: Extent, e: nat)
  {
    a <= e <= |s| &&
    match extent
    case ToEnd => e == |s|
    case UpTo(stops) => StopsAt(s, e, stops) && forall k :: a <= k < e ==> !StopsAt(s, k, stops)
  }

  /** The section under `markers` has its first label at `p` and its capture ends at `e`. */
  predicate SectionAt(s: string, markers: seq<string>, extent: Extent, p: nat, e: nat)
  {
    FirstLabelAt(s, markers, p) && EndsAt(s, ContentStart(s, markers, p), extent, e)
  }

  /** A capture to the end, at the first label occurrence `p`, is the rest of the text after the label and its whitespace. */
  lemma CaptureToEnd(s: string, markers: seq<string>, p: nat)
    requires FirstLabelAt(s, markers, p)
    ensures Capture(s, markers, ToEnd) == Some(s[ContentStart(s, markers, p)..])
  {
    assert SectionAt(s, markers, ToEnd, p, |s|);
    assert s[ContentStart(s, markers, p)..|s|] == s[ContentStart(s, markers, p)..];
  }

  /** There is at most one section: the first label and the first stop are unique. */
  lemma SectionUnique(s: string, markers: seq<string>, extent: Extent, p: nat, e: nat)
    requires SectionAt(s, markers, extent, p, e)
    ensures p == FirstMarker(s, markers)
    ensures e == CaptureEnd(s, ContentStart(s, markers, p), extent)
  {
    var a := ContentStart(s, markers, p);
    assert MarkerAt(s, p, markers).Some?;
    assert extent.UpTo? ==> StopsAt(s, e, extent.stops);
  }

  /**
   * The capture group of `(?:markers)\s*(...)` at its first match: the text from
   * after the first label and its whitespace up to the first stop (or the end).
   * None exactly when no marker occurs anywhere.
   */
  function Capture(s: string, markers: seq<string>, extent: Extent): (r: Option<string>)
    ensures r.None? <==> Absent(s, markers)
    ensures forall p: nat, e: nat :: SectionAt(s, markers, extent, p, e) ==> r == Some(s[ContentStart(s, markers, p)..e])
    ensures r.Some? ==> exists p: nat, e: nat :: SectionAt(s, markers, extent, p, e)
  {
    var p := FirstMarker(s, markers);
    if p == |s| then
      assert forall q: nat, e: nat :: !SectionAt(s, markers, extent, q, e);
      None
    else
      var a := ContentStart(s, markers, p);
      var e := CaptureEnd(s, a, extent);
      assert SectionAt(s, markers, extent, p, e);
      assert forall q: nat, f: nat :: SectionAt(s, markers, extent, q, f) ==> q == p && f == e by {
        forall q: nat, f: nat | SectionAt(s, markers, extent, q, f) ensures q == p && f == e {
          SectionUnique(s, markers, extent, q, f);
        }
      }
      Some(s[a..e])
  }

  /**
   * The digits of `marker\s*(\d{1,3})` at `p`, followed by `%` when `percent`.
   * `\d{1,3}` is greedy and a digit is never whitespace or `%`, so no other split is tried.
   */
  function NumberAt(s: string, p: nat, marker: string, percent: bool): (r: Option<string>)
    ensures r.Some? ==> 1 <= |r.value| <= 3 && AllDigits(r.value)
    ensures r.Some? ==> p + |marker| <= |s| && DigitsAt(s, p, marker, percent, SkipSpace(s, p + |marker|), r.value)
  {
    if !FoldedAt(s, p, marker) then None
    else
      var d := SkipSpace(s, p + |marker|);
      var n := DigitRun(s, d, 3);
      if n == 0 then None
      else if percent && !(d + n < |s| && s[d + n] == '%') then None
      else
        NumberFound(s, p, marker, percent, d, n);
        Some(s[d..d + n])
  }

  lemma NumberFound(s: string, p: nat, marker: string, percent: bool, d: nat, n: nat)
    requires FoldedAt(s, p, marker) && d == SkipSpace(s, p + |marker|) && n == DigitRun(s, d, 3) && n != 0
    requires percent ==> d + n < |s| && s[d + n] == '%'
    ensures 1 <= |s[d..d + n]| <= 3 && AllDigits(s[d..d + n])
    ensures p + |marker| <= |s| && DigitsAt(s, p, marker, percent, d, s[d..d + n])
  {
    SkippedIsSpace(s, p + |marker|);
  }

  /**
   * The pattern matches at `p` with `digits` as its group: the marker, then
   * whitespace up to `d`, then the digits, as many as `\d{1,3}` takes, then `%`
   * when `percent`.
   */
  predicate DigitsAt(s: string, p: nat, marker: string, percent: bool, d: nat, digits: string)
  {
    var n := |digits|;
    FoldedAt(s, p, marker) && p + |marker| <= d && d + n <= |s| &&
    AllSpace(s[p + |marker|..d]) && s[d..d + n] == digits &&
    (n < 3 && d + n < |s| ==> !IsDigit(s[d + n])) &&
    (percent ==> d + n < |s| && s[d + n] == '%')
  }

  /** Conversely, wherever the pattern matches with a group of one to three digits, that group is the number found. */
  lemma NumberAtMatch(s: string, p: nat, marker: string, percent: bool, d: nat, digits: string)
    requires DigitsAt(s, p, marker, percent, d, digits) && 1 <= |digits| <= 3 && AllDigits(digits)
    ensures NumberAt(s, p, marker, percent) == Some(digits)
  {
    assert s[d] == digits[0];
    SkipSpaceOver(s, p + |marker|, d);
    DigitRunIs(s, d, 3, |digits|);
    NumberAtFrom(s, p, marker, percent, d, |digits|);
  }

  lemma NumberAtFrom(s: string, p: nat, marker: string, percent: bool, d: nat, n: nat)
    requires FoldedAt(s, p, marker) && SkipSpace(s, p + |marker|) == d && 0 < n && DigitRun(s, d, 3) == n
    requires percent ==> d + n < |s| && s[d + n] == '%'
    ensures NumberAt(s, p, marker, percent) == Some(s[d..d + n])
  {
  }

  /** `p` is where `re.search` finds the number: the pattern matches there and nowhere earlier. */
  predicate FirstNumberAt(s: string, marker: string, percent: bool, p: nat)
  {
    p < |s| && NumberAt(s, p, marker, percent).Some? &&
    forall k :: 0 <= k < p ==> NumberAt(s, k, marker, percent).None?
  }

  /** `re.search` for that number: the digits at the first position where it matches. */
  function FirstNumber(s: string, marker: string, percent: bool): (r: Option<string>)
    ensures r.Some? ==> 1 <= |r.value| <= 3 && AllDigits(r.value)
    ensures r.None? <==> forall k :: 0 <= k < |s| ==> NumberAt(s, k, marker, percent).None?
    ensures forall p: nat :: FirstNumberAt(s, marker, percent, p) ==> r == NumberAt(s, p, marker, percent)
    ensures r.Some? ==> exists p: nat :: FirstNumberAt(s, marker, percent, p)
  {
    var found := (k: nat) => NumberAt(s, k, marker, percent).Some?;
    var p := First(0, |s|, found);
    assert forall k :: 0 <= k < p ==> NumberAt(s, k, marker, percent).None? by {
      forall k | 0 <= k < p ensures NumberAt(s, k, marker, percent).None? { assert !found(k); }
    }
    assert forall q: nat :: FirstNumberAt(s, marker, percent, q) ==> q == p by {
      forall q: nat | FirstNumberAt(s, marker, percent, q) ensures q == p {
        assert q < p ==> !found(q);
        assert p < q ==> found(p);
      }
    }
    if p == |s| then None
    else
      assert FirstNumberAt(s, marker, percent, p);
      NumberAt(s, p, marker, percent)
  }

  /** One to three digits and a percent sign. */
  predicate IsPercentage(t: string)
  {
    2 <= |t| <= 4 && t[|t| - 1] == '%' && AllDigits(t[..|t| - 1])
  }

  /** The text a number search leaves in its field: the digits with `%`, or `N/A`. */
  function PercentOr(found: Option<string>): (r: string)
    requires found.Some? ==> 1 <= |found.value| <= 3 && AllDigits(found.value)
    ensures found.Some? ==> IsPercentage(r) && r[..|r| - 1] == found.value
    ensures found.None? ==> r == "N/A"
  {
    match found
    case Some(d) => d + "%"
    case None => "N/A"
  }
}
