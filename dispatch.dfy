/**
 * The four analysis modes, their prompts and titles, and the choice of mode from
 * the four buttons of the analysis tab.
 */
module Dispatch {
  import opened Wrappers

  datatype Mode = Comprehensive | MissingKeywords | MatchPercentage | Improvement

  // Stand-ins for the four instruction texts; only their identity matters here.
  const COMPREHENSIVE_PROMPT: string := "comprehensive HR review"
  const MISSING_KEYWORDS_PROMPT: string := "keywords missing from the resume"
  const MATCH_PROMPT: string := "overall match percentage"
  const IMPROVEMENT_PROMPT: string := "actionable improvements"

  /** Every prompt is a non-empty string, so `if selected_prompt:` passes once a mode is chosen. */
  function Prompt(m: Mode): (r: string)
    ensures |r| > 0
  {
    match m
    case Comprehensive => COMPREHENSIVE_PROMPT
    case MissingKeywords => MISSING_KEYWORDS_PROMPT
    case MatchPercentage => MATCH_PROMPT
    case Improvement => IMPROVEMENT_PROMPT
  }

  /** A character of a title after its icon: an ASCII letter or a space. */
  predicate IsTitleWordChar(c: char) {
    'A' <= c <= 'Z' || 'a' <= c <= 'z' || c == ' '
  }

  /**
   * The heading of the results; it also names the export file. A title is one
   * icon, a space, and words of ASCII letters, so ASCII lower-casing is all the
   * case folding the export name needs.
   */
  function Title(m: Mode): (r: string)
    ensures |r| > 2 && r[1] == ' '
    ensures forall i :: 1 <= i < |r| ==> IsTitleWordChar(r[i])
  {
    match m
    case Comprehensive => "\U{1F50D} Comprehensive Analysis"
    case MissingKeywords => "\U{1F511} Missing Keywords Analysis"
    case MatchPercentage => "\U{1F4C8} Match Percentage"
    case Improvement => "\U{2728} Improvement Suggestions"
  }

  /** Which of the four buttons were pressed in this run of the script. */
  datatype Buttons = Buttons(analyzeButton: bool, keywordsButton: bool, matchButton: bool, improveButton: bool)

  function Pressed(b: Buttons, m: Mode): bool {
    match m
    case Comprehensive => b.analyzeButton
    case MissingKeywords => b.keywordsButton
    case MatchPercentage => b.matchButton
    case Improvement => b.improveButton
  }

  /** Position of a mode in the if/elif chain; 0 is tested first. */
  function Priority(m: Mode): nat {
    match m
    case Comprehensive => 0
    case MissingKeywords => 1
    case MatchPercentage => 2
    case Improvement => 3
  }

  predicate AnyPressed(b: Buttons) {
    b.analyzeButton || b.keywordsButton || b.matchButton || b.improveButton
  }

  /** Only the button of mode m is pressed, as after one click in the app. */
  function OnlyPressed(m: Mode): (b: Buttons)
    ensures forall m' :: Pressed(b, m') <==> m' == m
  {
    Buttons(m == Comprehensive, m == MissingKeywords, m == MatchPercentage, m == Improvement)
  }

  /**
   * The if/elif chain that picks the prompt and the title: the first pressed
   * button in the order comprehensive, missing keywords, match percentage,
   * improvement; None when no button is pressed.
   */
  function SelectMode(b: Buttons): (r: Option<Mode>)
    ensures r.None? <==> !AnyPressed(b)
    ensures r.Some? ==> Pressed(b, r.value)
    ensures r.Some? ==> forall m :: Priority(m) < Priority(r.value) ==> !Pressed(b, m)
  {
    if b.analyzeButton then Some(Comprehensive)
    else if b.keywordsButton then Some(MissingKeywords)
    else if b.matchButton then Some(MatchPercentage)
    else if b.improveButton then Some(Improvement)
    else None
  }

  /** The selection is the unique pressed mode that no pressed mode outranks. */
  lemma SelectModeIsFirstPressed(b: Buttons, m: Mode)
    requires Pressed(b, m)
    requires forall m' :: Priority(m') < Priority(m) ==> !Pressed(b, m')
    ensures SelectMode(b) == Some(m)
  {
    var r := SelectMode(b).value;
    assert Priority(r) == Priority(m) ==> r == m;
  }

  /** Every mode is reachable: a click on its button alone selects it. */
  lemma SelectOnlyPressed(m: Mode)
    ensures SelectMode(OnlyPressed(m)) == Some(m)
  {
  }

  /** The four modes send four different prompts under four different titles. */
  lemma ModesDistinct(m: Mode, m': Mode)
    requires m != m'
    ensures Prompt(m) != Prompt(m')
    ensures Title(m) != Title(m')
  {
    assert Prompt(m)[0] != Prompt(m')[0];
    assert Title(m)[0] != Title(m')[0];
  }
}
