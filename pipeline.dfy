/**
 * One run of the analysis tab: the input gate, the choice of mode, the PDF step,
 * the call to the model and what is shown afterwards.
 *
 * Rendering the PDF and asking the hosted model are not modelled; they enter as
 * inputs. `pdfContent` is what the PDF step returned (None when it failed), and
 * `ask` is the model's answer to a request (None when the call raised).
 */
module Pipeline {
  import opened Wrappers
  import opened ScoreExtraction
  import opened Band
  import opened Dispatch
  import opened Export

  /** One entry of the PDF step's result: `{"mime_type": ..., "data": ...}`. */
  datatype ImagePart = ImagePart(mimeType: string, data: string)

  /** What is sent to the model: the prompt, the first image part, the job description. */
  datatype Request = Request(prompt: string, image: ImagePart, jobDescription: string)

  /** The score area above the answer text. */
  datatype ScoreSection =
    | NoScoreSection                          // not the match-percentage button
    | Scored(percentage: nat, band: Band)     // metric and band banner
    | ScoreNotFound(note: string)             // informational note only

  datatype Outcome =
    | NoAction
    | Warned(message: string)
    | PdfFailed(message: string)
    | Shown(request: Request, title: string, score: ScoreSection, text: string, fileName: string)

  const INPUT_WARNING: string := "\U{26A0}\U{FE0F} Please upload your resume AND enter a job description to proceed."
  const PDF_ERROR: string := "Could not process the PDF. Please try another file or check its format."
  const AI_ERROR: string := "Error: Could not get response from AI. Please check API key and network."
  const NO_SCORE_NOTE: string := "Could not extract a specific percentage score from the analysis."

  /** The PDF step produced content: a non-empty list of parts. */
  predicate PdfReady(pdfContent: Option<seq<ImagePart>>) {
    pdfContent.Some? && |pdfContent.value| > 0
  }

  /** The answer text: the model's text, or a fixed error text when the call raised. */
  function ResponseText(reply: Option<string>): (text: string)
    ensures reply.Some? ==> text == reply.value
    ensures reply.None? ==> text == AI_ERROR
  {
    match reply
    case Some(t) => t
    case None => AI_ERROR
  }

  /** The score area of the match-percentage view. */
  function ScoreSectionOf(text: string): (r: ScoreSection)
    ensures r.Scored? <==> HasScoreMark(text)
    ensures r.Scored? ==> ExtractScore(text) == Some(r.percentage) && r.band == Classify(r.percentage)
    ensures r.Scored? ==> r.percentage <= 999
    ensures r.ScoreNotFound? <==> !HasScoreMark(text)
    ensures r.ScoreNotFound? ==> r.note == NO_SCORE_NOTE
  {
    match ExtractScore(text)
    case Some(p) => Scored(p, Classify(p))
    case None => ScoreNotFound(NO_SCORE_NOTE)
  }

  /**
   * One run of the script for the current inputs. The score area is decided by
   * the match-percentage button itself, not by the selected mode.
   */
  function Handle(jobDescription: string, fileUploaded: bool, b: Buttons,
                  pdfContent: Option<seq<ImagePart>>, ask: Request -> Option<string>): (o: Outcome)
    ensures o.Shown? <==> jobDescription != "" && fileUploaded && AnyPressed(b) && PdfReady(pdfContent)
    ensures o.Shown? ==> o.request.image == pdfContent.value[0] && o.request.jobDescription == jobDescription
    ensures o.Shown? ==> o.text == ResponseText(ask(o.request))
  {
    if jobDescription == "" || !fileUploaded then
      if AnyPressed(b) then Warned(INPUT_WARNING) else NoAction
    else
      match SelectMode(b)
      case None => NoAction
      case Some(mode) =>
        if !PdfReady(pdfContent) then PdfFailed(PDF_ERROR)
        else
          var request := Request(Prompt(mode), pdfContent.value[0], jobDescription);
          var text := ResponseText(ask(request));
          var score := if b.matchButton then ScoreSectionOf(text) else NoScoreSection;
          Shown(request, Title(mode), score, text, ExportFileName(Title(mode)))
  }

  /** Missing inputs: a warning when a button was pressed, nothing otherwise, and never a request. */
  lemma GateOnInputs(jobDescription: string, fileUploaded: bool, b: Buttons,
                     pdfContent: Option<seq<ImagePart>>, ask: Request -> Option<string>)
    ensures var o := Handle(jobDescription, fileUploaded, b, pdfContent, ask);
      && (o.Warned? <==> (jobDescription == "" || !fileUploaded) && AnyPressed(b))
      && (o.Warned? ==> o.message == INPUT_WARNING)
      && (o == NoAction <==> !AnyPressed(b))
      && (o.PdfFailed? <==> jobDescription != "" && fileUploaded && AnyPressed(b) && !PdfReady(pdfContent))
      && (o.PdfFailed? ==> o.message == PDF_ERROR)
  {
  }

  /**
   * The prompt and title sent are those of the first pressed button in the order
   * comprehensive, missing keywords, match percentage, improvement, and the
   * export file is named after that title.
   */
  lemma DispatchFirstPressed(jobDescription: string, fileUploaded: bool, b: Buttons,
                             pdfContent: Option<seq<ImagePart>>, ask: Request -> Option<string>)
    requires Handle(jobDescription, fileUploaded, b, pdfContent, ask).Shown?
    ensures var o := Handle(jobDescription, fileUploaded, b, pdfContent, ask);
      exists m :: && Pressed(b, m)
                  && (forall m' :: Priority(m') < Priority(m) ==> !Pressed(b, m'))
                  && o.request.prompt == Prompt(m)
                  && o.title == Title(m)
                  && o.fileName == ExportFileName(Title(m))
  {
    var m := SelectMode(b).value;
    assert Pressed(b, m);
  }

  /** A score and a band are shown only for the match-percentage button and a score found in the answer. */
  lemma ScoreShownOnlyForMatch(jobDescription: string, fileUploaded: bool, b: Buttons,
                               pdfContent: Option<seq<ImagePart>>, ask: Request -> Option<string>)
    requires Handle(jobDescription, fileUploaded, b, pdfContent, ask).Shown?
    ensures var o := Handle(jobDescription, fileUploaded, b, pdfContent, ask);
      && (o.score.Scored? <==> b.matchButton && HasScoreMark(o.text))
      && (o.score.ScoreNotFound? <==> b.matchButton && !HasScoreMark(o.text))
      && (o.score.ScoreNotFound? ==> o.score.note == NO_SCORE_NOTE)
      && (o.score.Scored? ==>
            ExtractScore(o.text) == Some(o.score.percentage) && o.score.band == Classify(o.score.percentage))
  {
  }

  /**
   * After a single click, as in the app, the score area appears exactly for the
   * match-percentage mode.
   */
  lemma SingleClickScoreForMatchMode(jobDescription: string, fileUploaded: bool, m: Mode,
                                     pdfContent: Option<seq<ImagePart>>, ask: Request -> Option<string>)
    requires jobDescription != "" && fileUploaded && PdfReady(pdfContent)
    ensures var o := Handle(jobDescription, fileUploaded, OnlyPressed(m), pdfContent, ask);
      o.Shown? && o.title == Title(m) && (o.score != NoScoreSection <==> m == MatchPercentage)
  {
    SelectOnlyPressed(m);
  }

  /**
   * Two buttons pressed at once: the comprehensive prompt wins the dispatch, yet
   * the match-percentage score area is still computed on its answer.
   */
  lemma MatchButtonOutrankedStillScores(jobDescription: string, pdfContent: Option<seq<ImagePart>>,
                                        ask: Request -> Option<string>)
    requires jobDescription != "" && PdfReady(pdfContent)
    ensures var o := Handle(jobDescription, true, Buttons(true, false, true, false), pdfContent, ask);
      o.Shown? && o.request.prompt == Prompt(Comprehensive) && o.score != NoScoreSection
  {
  }

  /**
   * With all other inputs fixed, the four modes lead to four different requests
   * and four different results: mode selection is wired through to the model.
   */
  lemma ModesGiveDistinctResults(jobDescription: string, m: Mode, m': Mode,
                                 pdfContent: Option<seq<ImagePart>>, ask: Request -> Option<string>)
    requires jobDescription != "" && PdfReady(pdfContent) && m != m'
    ensures var o := Handle(jobDescription, true, OnlyPressed(m), pdfContent, ask);
      var o' := Handle(jobDescription, true, OnlyPressed(m'), pdfContent, ask);
      o.Shown? && o'.Shown? && o.request != o'.request && o != o'
  {
    SelectOnlyPressed(m);
    SelectOnlyPressed(m');
    ModesDistinct(m, m');
  }
}
