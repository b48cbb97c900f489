/**
 * `parse_overall_results`: the provider's summary of a whole practice interview
 * becomes three fields, each starting from a default and overridden when its
 * labelled section is found (labels are matched ignoring case).
 */
module OverallParser {
  import opened Wrappers
  import opened Text
  import opened Scan

  const HiringMarker := "hiring percentage:"
  const AreasMarker := "areas for improvement:"
  /** `(?:Overall Message|Overall Feedback):`, tried in this order. */
  const MessageMarkers := ["overall message:", "overall feedback:"]
  const NotAvailable := "N/A"

  datatype OverallResults = OverallResults(
    hiringPercentage: string,
    areasForImprovement: string,
    overallMessage: string)

  /**
   * The hiring percentage is `N/A` or one to three digits with `%`; the areas are
   * `N/A` unless their section is found; the message is the whole stripped text
   * unless a message or feedback section is found.
   */
  function ParseOverallResults(s: string): (r: OverallResults)
    ensures r.hiringPercentage == NotAvailable || IsPercentage(r.hiringPercentage)
    ensures Absent(s, [AreasMarker]) ==> r.areasForImprovement == NotAvailable
    ensures forall p: nat, e: nat :: SectionAt(s, [AreasMarker], UpTo(MessageMarkers), p, e) ==>
      r.areasForImprovement == Strip(s[ContentStart(s, [AreasMarker], p)..e])
    ensures Absent(s, MessageMarkers) ==> r.overallMessage == Strip(s)
    ensures forall p: nat, e: nat :: SectionAt(s, MessageMarkers, ToEnd, p, e) ==>
      r.overallMessage == Strip(s[ContentStart(s, MessageMarkers, p)..e])
    ensures IsStripped(r.overallMessage)
  {
    OverallResults(HiringPercentage(s), AreasForImprovement(s), OverallMessage(s))
  }

  /** `Hiring Percentage:\s*(\d{1,3})%`, reported with its `%`. */
  function HiringPercentage(s: string): (r: string)
    ensures r == NotAvailable || IsPercentage(r)
    ensures r == NotAvailable <==> forall k :: 0 <= k < |s| ==> NumberAt(s, k, HiringMarker, true).None?
  {
    assert NotAvailable[2] == 'A';
    PercentOr(FirstNumber(s, HiringMarker, true))
  }

  /** `Areas for Improvement:\s*(.*?)` up to a message label or the end, stripped. */
  function AreasForImprovement(s: string): (r: string)
    ensures Absent(s, [AreasMarker]) ==> r == NotAvailable
    ensures !Absent(s, [AreasMarker]) ==> IsStripped(r)
    ensures forall p: nat, e: nat :: SectionAt(s, [AreasMarker], UpTo(MessageMarkers), p, e) ==>
      r == Strip(s[ContentStart(s, [AreasMarker], p)..e])
  {
    var areas := Capture(s, [AreasMarker], UpTo(MessageMarkers));
    if areas.Some? then Strip(areas.value) else NotAvailable
  }

  /** The stripped text after the first message label, or the whole stripped text. */
  function OverallMessage(s: string): (r: string)
    ensures Absent(s, MessageMarkers) ==> r == Strip(s)
    ensures forall p: nat, e: nat :: SectionAt(s, MessageMarkers, ToEnd, p, e) ==>
      r == Strip(s[ContentStart(s, MessageMarkers, p)..e])
    ensures IsStripped(r)
  {
    var message := Capture(s, MessageMarkers, ToEnd);
    if message.Some? then Strip(message.value) else Strip(s)
  }

  /**
   * When a message or feedback section is found, the message is the stripped
   * rest of the text after the first such label.
   */
  lemma MessageAfterFirstLabel(s: string, p: nat)
    requires p < |s| && MarkerAt(s, p, MessageMarkers).Some?
    requires forall k :: 0 <= k < p ==> MarkerAt(s, k, MessageMarkers).None?
    ensures ParseOverallResults(s).overallMessage == Strip(s[p + MarkerAt(s, p, MessageMarkers).value..])
  {
    MessageFromLabel(s, p);
  }

  lemma MessageFromLabel(s: string, p: nat)
    requires FirstLabelAt(s, MessageMarkers, p)
    ensures OverallMessage(s) == Strip(s[p + MarkerAt(s, p, MessageMarkers).value..])
  {
    CaptureToEnd(s, MessageMarkers, p);
    MessageFromCapture(s, ContentStart(s, MessageMarkers, p));
    StripFromSkip(s, p + MarkerAt(s, p, MessageMarkers).value);
  }

  lemma MessageFromCapture(s: string, c: nat)
    requires c <= |s| && Capture(s, MessageMarkers, ToEnd) == Some(s[c..])
    ensures OverallMessage(s) == Strip(s[c..])
  {
  }

  /** A hiring percentage other than `N/A` is the digits of the first match of its pattern. */
  lemma HiringFromFirstMatch(s: string, p: nat)
    requires p < |s| && NumberAt(s, p, HiringMarker, true).Some?
    requires forall k :: 0 <= k < p ==> NumberAt(s, k, HiringMarker, true).None?
    ensures ParseOverallResults(s).hiringPercentage == NumberAt(s, p, HiringMarker, true).value + "%"
  {
    FirstIs(0, |s|, (k: nat) => NumberAt(s, k, HiringMarker, true).Some?, p);
  }
}
