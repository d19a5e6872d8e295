# ATS Resume Analyzer — decision logic

The ATS Resume Analyzer is a Streamlit page. A user uploads a resume as a PDF and
pastes a job description. They then press one of four buttons: comprehensive
analysis, missing keywords, match percentage or improvement suggestions. The page
renders the first PDF page to a PNG image and sends it to a hosted Gemini model with
the chosen instruction and the job description. It shows the answer and offers it
for download as a text file. In the match-percentage view, it also pulls a
percentage out of the answer and shows a band beside it.

This project models the deterministic decisions in `app.py` as pure Dafny functions
and proves properties about them:

- `ScoreExtraction` (score.dfy) models the score search `re.search(r'(\d{1,3})%', text)`
  and `int(group(1))`. `SearchFrom` and `MatchAt` follow the regular-expression
  engine. Start positions are tried from the left. At each start the group takes
  up to three digits greedily and gives them back one at a time until a `%`
  follows. The engine is proved equal, in both directions, to a declarative
  definition: the value of the digits just before the first `%` that has a digit
  immediately before it, at most three of them. `score_examples.dfy` checks the
  definition on the prompt's example (app.py:113) and on texts that exercise each
  edge of the search: a digit with no `%` after it, an earlier percentage, four
  digits, leading zeros and a value above 100.
- `Band` (band.dfy) models the three-way split of a score at 80 and 60.
- `Dispatch` (dispatch.dfy) models the four modes, their prompts and titles, and
  how the if/elif chain picks a mode from the pressed buttons.
- `Export` (export.dfy) builds the download file name:
  `title.replace(' ', '_').lower() + "_results.txt"`.
- `Pipeline` (pipeline.dfy) models one run of the analysis tab. It covers the input
  gate, the dispatch, the PDF-step check, the request sent to the model, the score
  area and the export name.

The code does less than its prompt text suggests, and its behaviour differs from a
first reading in a few places:

- MATCH_PROMPT asks for "an overall match percentage (from 0-100%)" (app.py:108),
  but nothing clamps the extracted score (app.py:327-332). `"1234%"` yields 234 and
  `"150%"` yields 150. Every score is at most 999.
- Pressing a button with a missing input produces a warning. With no button pressed,
  nothing happens.
- The caller does not tell the PDF step's failures apart: `input_pdf_setup` reports
  each with its own error and returns None, and the caller then adds one fixed
  message (app.py:313, 356-358).
- The score area is decided by the match-percentage button itself (`app.py:322`), not
  by the selected mode. Streamlit reports one pressed button per run, so in practice
  the two agree (`SingleClickScoreForMatchMode`). With two buttons pressed together,
  the comprehensive prompt is sent and its answer is still scanned for a score
  (`MatchButtonOutrankedStillScores`).

## Model

| member | source | states |
|---|---|---|
| ScoreExtraction.MatchAt | app.py:325 | the greedy `\d{1,3}` group at one start position returns n digits exactly when n digits followed by `%` start there, and no match when no length from 1 to n works |
| ScoreExtraction.SearchFrom | app.py:325 | the leftmost-start search finds nothing exactly when no digit-preceded `%` lies ahead; otherwise its span ends at the first such `%` and starts where the digit run does, cut to three digits |
| ScoreExtraction.ExtractScore | app.py:325-327 | no score exactly when no `%` is immediately preceded by a digit; otherwise the score is the decimal value of the window before the first such `%`, and it is at most 999 |
| ScoreExtraction.ExtractScoreByDefinition | app.py:325-327 | the converse: for the first digit-preceded `%` and its window of at most three digits, the extracted score is that window's value |
| ScoreExtraction.DecimalValue | app.py:327 | `int` of n digits is below 10^n, so a score from at most three digits never exceeds 999 |
| ScoreExtraction.DecimalValueLeadingZero | app.py:327 | `int` ignores a leading zero |
| ScoreExtraction.FirstMatchWins | app.py:325 | once a text holds a digit-preceded `%`, whatever is appended after it leaves the score unchanged |
| ScoreExtraction.SkipsPrefixWithoutMark | app.py:325 | a prefix with no `%` that does not end in a digit does not affect the score, so digits with no `%` after them are skipped |
| ScoreExtraction.WindowUnique | app.py:325 | a `%` has only one score window |
| ScoreExamples.OverallMatch | app.py:113 | the prompt's example "Overall Match: 85%" gives 85 |
| ScoreExamples.NoNumbers | app.py:326 | a text with no digits gives no score |
| ScoreExamples.DigitWithoutPercentSkipped | app.py:325 | "Skills: 3, Match: 72%" gives 72 |
| ScoreExamples.EarlierPercentWins | app.py:325 | "Growth 10%" followed by any text, such as a later "Overall Match: 85%", gives 10 |
| ScoreExamples.FourDigitsTruncated | app.py:325-327 | "1234%" gives 234 |
| ScoreExamples.LeadingZerosDropped | app.py:327 | "007%" gives 7 |
| ScoreExamples.NotClampedToHundred | app.py:327-332 | "Match: 150%" gives 150: nothing clamps the score to 100 |
| Band.Classify | app.py:334-339 | strong exactly when the score is at least 80, good exactly when it is from 60 to 79, significant gaps exactly below 60 |
| Band.ClassifyMonotone | app.py:334-339 | a higher score never falls into a weaker band |
| Band.ClassifyBoundaries | app.py:334-339 | 80 is strong, 79 and 60 are good, 59 is significant gaps |
| Dispatch.Prompt | app.py:79-126 | each mode's prompt is a non-empty string, so the `if selected_prompt:` test at app.py:281 passes whenever a mode was chosen |
| Dispatch.Title | app.py:270-279 | each title is an icon, a space and words of ASCII letters, so ASCII lower-casing is the whole case folding the export name needs |
| Dispatch.SelectMode | app.py:265-281 | no mode exactly when no button is pressed; otherwise the selected mode's button is pressed and no button earlier in the order comprehensive, keywords, match, improvement is |
| Dispatch.SelectModeIsFirstPressed | app.py:268-279 | the converse: the first pressed button in that order is the one selected |
| Dispatch.SelectOnlyPressed | app.py:268-279 | pressing a single button selects its mode, so every mode is reachable |
| Dispatch.ModesDistinct | app.py:79-279 | the four modes have pairwise different prompts (app.py:79-126) and titles (app.py:270-279) |
| Pipeline.ResponseText | app.py:133-139 | the answer is the model's text, or the fixed "Error: Could not get response from AI" text when the call raised |
| Pipeline.ScoreSectionOf | app.py:325-341 | a score with its band is shown exactly when the text holds a digit-preceded `%`; the band is the score's classification; otherwise the note "Could not extract a specific percentage score from the analysis." is shown |
| Pipeline.Handle | app.py:260-358 | the model is called and results are shown exactly when the job description is non-empty, a file is uploaded, a button is pressed and the PDF step produced content; the request carries the first image part and the job description, and the text shown is the model's answer |
| Pipeline.GateOnInputs | app.py:260-358 | a warning exactly when an input is missing and a button was pressed (app.py:260-263); nothing when no button was pressed; the PDF error exactly when the inputs are present, a button was pressed and the PDF step produced nothing (app.py:311-313, 356-358) |
| Pipeline.DispatchFirstPressed | app.py:265-279 | the prompt and title used are those of the first pressed button in priority order, and the export name is derived from that title |
| Pipeline.ScoreShownOnlyForMatch | app.py:322-346 | a score and band appear only when the match-percentage button was pressed and a score was found; with that button and no score, the note appears instead |
| Pipeline.SingleClickScoreForMatchMode | app.py:268-322 | after a single click, the score area appears exactly in the match-percentage mode |
| Pipeline.MatchButtonOutrankedStillScores | app.py:268-322 | with the comprehensive and match buttons both pressed, the comprehensive prompt is sent and its answer is still scanned for a score |
| Pipeline.ModesGiveDistinctResults | app.py:265-314 | with every other input the same, two different single clicks send different requests and give different outcomes |
| Export.UnderscoreSpaces | app.py:352 | same length, every space becomes `_`, every other character is kept |
| Export.Lower | app.py:352 | same length, ASCII upper-case letters become lower-case, every other character is kept |
| Export.ExportFileName | app.py:352 | the name is the title with each character mapped as above, followed by `_results.txt` |
| Export.ExportFileNameClean | app.py:352 | the file name contains no space and no upper-case ASCII letter |

## Left out

- Rendering the PDF (`input_pdf_setup`, app.py:141-183) needs pdf2image, Poppler, PIL and base64, none of which is modelled. Its result is an input to `Pipeline.Handle`: a list of image parts, or None on any failure. The error it shows for each failure (no images, timeout, Poppler not found, any other error; app.py:156, 173, 176-177, 180) is not modelled.
- The `FileNotFoundError` branch of the PDF step (app.py:183, 360-361) cannot be reached after the gate, because a file is always present by then.
- The Gemini call and the API configuration (app.py:12-21, 128-139) are network calls. The model's answer is an input function from request to text, and None stands for an exception.
- The instruction texts (app.py:79-126) are product copy. They become four short, distinct stand-in strings.
- The Streamlit page itself is not modelled: page configuration, CSS, sidebar, tabs, about text, widgets, the upload notice and the placeholders (app.py:23-77, 186-258, 282-307, 366-434).
- The progress-bar loop with `time.sleep` (app.py:301-305) is animation only.
- The `except` clauses around the score block and around the whole run (app.py:342-343, 362-364) are left out. No modelled operation raises.
- sample.py lists the hosted models over the network and is not part of this model.
- ScoreExtraction.ExtractScore: `\d` is restricted to the ASCII digits 0-9, while Python also matches other Unicode decimal digits.
- Export.Lower: lower-casing covers the ASCII letters only, and every other character is kept. Python's `str.lower` also folds non-ASCII letters, but the four titles hold no such letters.
- Dispatch.Title: the titles, and the input warning `Pipeline.INPUT_WARNING`, are written with the emoji that the source's mis-encoded characters stand for. The source text holds UTF-8 emoji read as Mac Roman ("üîç" for U+1F50D, "‚ö†Ô∏è" for U+26A0 U+FE0F), so a name like "🔍_comprehensive_analysis_results.txt" stands where that text, taken literally, would give "üîç_comprehensive_analysis_results.txt". Dispatch.Title's own ensures (a space at index 1, only ASCII letters and spaces after it) and the hint in the proof of Dispatch.ModesDistinct (the titles' first characters differ) rely on reading each icon back as a single emoji character. Export.ExportFileNameClean, and the fact that the four titles and their file names are pairwise different, hold for the literal text as well.
- The three banner texts beside the band (app.py:335-339) are not modelled. The band value names the banner that is shown.
