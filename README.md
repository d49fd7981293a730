# AIResume_Deep in Dafny

A model of the two Streamlit resume matchers of AIResume_Deep: `app.py` and `AIresume.py`.
Each takes an uploaded resume and a job description, extracts text from the file, builds a
prompt, sends it to a DeepSeek chat model, and shows the reply.
- `app.py` also shows the fit score found in the reply, the word count of the resume, the
  reply with its numbered items turned into headings, and a preview of the extracted text.
- `AIresume.py` shows the stripped reply, the word count and, when the reply has one, the
  `Fit Score: <n> out of 100` score.

Both programs are straight-line code over strings. The model is therefore made of datatypes,
functions and lemmas, with no classes and no loops:

- `wrappers.dfy`: `Option` and `Result`. An `Err` stands for a raised Python exception.
- `strings.dfy`: the Python string operations the programs use, each with its laws:
  - `strip`, with `Strip` a slice of its input and idempotent;
  - `split()`, where stripping keeps every word and `" ".join` splits back into the words of its parts;
  - `sep.join`;
  - `find`, which finds the leftmost occurrence;
  - `replace`, which equals `sub.join(s.split(pat))`, where `split` loses nothing.
- `decimal.dfy`: the ASCII `\d` class, `int()` of a digit string, `str()` of a natural number,
  and the greedy digit run.
- `score.dfy`: `re.search(prefix + r"(\d+)" + suffix, reply)` and `int(m.group(1))`.
  - `MatchesWith` states what the regular expression means.
  - `MatchAt` is the greedy scan.
  - The two are proved equivalent for both patterns, and `Score` is the value of the leftmost match.
- `template.dfy`: a two-hole f-string, `Fill`. The inputs can be read back (`Unfill`) and stand
  between the template's markers.
- `extraction.dfy`: the media-type dispatch that both copies of `extract_text_from_file` share.
  - It picks `PdfReader`, `docx2txt.process` or a UTF-8 decode.
  - For a PDF, the page texts are joined with single spaces, and empty pages are left out.
- `app.dfy`: `app.py`:
  - extraction with `strip()` and the `""` fallback;
  - `analyze_resume`'s prompt;
  - the checks of the form;
  - what is shown for a reply.
- `airesume.dfy`: `AIresume.py`:
  - extraction without trimming or a fallback;
  - `evaluate_with_deepseek`'s prompt;
  - the single form check;
  - the evaluation shown.

The PDF reader, the Word-document routine, the UTF-8 decoder and the chat model are foreign
code. Each is a function-typed parameter (`Libraries`, `llm`). A raised exception is `Err`, and
`query_deepseek`'s `None` is `None`.

Points of the code's behaviour that the model keeps:
- **A PDF page that raises.** Only pages whose `extract_text()` is empty are skipped
  (`EmptyPageAddsNothing`). A page whose extraction raises makes the whole extraction raise
  (`PageTexts`, `RawText`).
  - In `app.py` the error is shown and the text is `""` (`App.Run` → `ExtractionFailed`).
  - In `AIresume.py` it ends the script (`AIResume.Run` → `Crashed`).
- **Empty extracted text.** `app.py` stops at `if resume_text:`, so the model is never asked
  (`App.RunAsksIff`). A text that is only whitespace shows nothing at all (`App.RunExtractionIff`). `AIresume.py` does send an empty resume (`AIResume.RunShowsIff`).
- **Trimming.** Only `app.py` trims the extracted text. `AIresume.py` returns the decoded text
  exactly as decoded.
- **Score range.** Neither program checks that the score lies in 0–100. Any digit string that
  `int()` accepts is read as it is (`App.ReplyOpeningWithScore`); the digit limit of `int()` is
  left out (see `ScoreMatch.Group` below).
- **Word count.** `app.py` shows the word count only inside `if score_match:`
  (`App.Display`, `App.ShownWordCount`). `AIresume.py` always shows it.
- **Empty reply.** In `app.py`, an empty reply takes the same path as a failed request
  (`if analysis_result:`) but shows nothing; a failed request shows only `query_deepseek`'s
  error (`App.RunRequestIff`).

## Model

| member | source | states |
|---|---|---|
| Strings.TrimLeft | app.py:49 | `lstrip` drops a whitespace-only prefix and leaves a suffix that does not start with whitespace |
| Strings.TrimRight | app.py:49 | `rstrip` drops a whitespace-only suffix and leaves a prefix that does not end with whitespace |
| Strings.Strip | app.py:49 | `strip()`; specified by `StripIsSlice`, `StripIsTrimmed`, `StripTrimmed`, `StripFixedPoints` and `StripIdempotent` below |
| Strings.StripIsSlice | app.py:49 | `strip()` returns a slice of its input with only whitespace cut off at either end |
| Strings.StripIsTrimmed | app.py:49 | the result of `strip()` has no leading or trailing whitespace |
| Strings.StripTrimmed | app.py:49 | a string with no surrounding whitespace is returned unchanged |
| Strings.StripFixedPoints | app.py:49 | `strip()` leaves `s` unchanged exactly when `s` has no surrounding whitespace |
| Strings.StripEmptyIff | app.py:49 | `s.strip()` is empty exactly when `s` is only whitespace |
| Strings.StripIdempotent | app.py:49 | stripping twice is stripping once |
| Strings.Words | app.py:119 | `split()`; specified by `WordsAreWords`, `AllSpaceHasNoWords`, `WordsAcrossSpace` and `WordsOfJoin` below |
| Strings.WordCount | app.py:119 | `len(s.split())`; the lemmas about `Words` specify it, and `WordsOfStrip` shows that trimming does not change it |
| Strings.WordsAreWords | app.py:119 | every item of `split()` is non-empty and free of whitespace |
| Strings.AllSpaceHasNoWords | app.py:119 | a whitespace-only string splits into no words |
| Strings.WordsAcrossSpace | app.py:119 | a whitespace character separates words: the words of `a + c + b` are those of `a` then those of `b` |
| Strings.WordsOfTrimLeft | app.py:119 | leading whitespace does not change `split()` |
| Strings.WordsOfTrimRight | app.py:119 | trailing whitespace does not change `split()` |
| Strings.WordsOfStrip | app.py:119 | `strip()` keeps every word, so `len(s.split())` is the same before and after trimming |
| Strings.WordsOfEach | AIresume.py:15 | one list of words per page, in page order |
| Strings.WordsOfJoinedTexts | app.py:41 | the words of `" ".join(ts)` are the words of each text in order |
| Strings.WordsOfJoin | app.py:41 | `" ".join(ws).split() == ws` for a list of words |
| Strings.WordsOfWord | app.py:119 | a single word splits into itself |
| Strings.JoinWith | app.py:41 | `sep.join`; specified by `WordsOfJoin`, `WordsOfJoinedTexts` and `SplitJoin` |
| Strings.StartsWithIsPrefix | app.py:112 | a literal matches at a position exactly when it is the prefix there |
| Strings.IndexOf | app.py:122 | `find`; specified by `IndexOfIsLeftmost` |
| Strings.IndexOfIsLeftmost | app.py:122 | `find` answers the leftmost occurrence, and nothing exactly when there is none |
| Strings.ReplaceAbsent | app.py:122-125 | `replace` leaves a string without the pattern unchanged |
| Strings.ReplaceAtFirst | app.py:122 | `replace` keeps the text before the first occurrence, puts `sub` in its place, and goes on after it |
| Strings.ReplaceAtStart | app.py:122 | an occurrence at index 0 is replaced first |
| Strings.Split | app.py:122 | `str.split(pat)` has at least one piece |
| Strings.SplitJoin | app.py:122 | `pat.join(s.split(pat)) == s`: splitting loses nothing |
| Strings.SplitPiecesFree | app.py:122 | no piece of `s.split(pat)` contains `pat` |
| Strings.ReplaceIsJoinOfSplit | app.py:122-125 | `s.replace(pat, sub) == sub.join(s.split(pat))` |
| Strings.Replace | app.py:122-125 | `replace`; specified by `ReplaceAbsent`, `ReplaceAtFirst`, `ReplaceIsJoinOfSplit`, `ReplaceConcat` and `ReplaceOverJoin` |
| Strings.ReplaceConcat | app.py:122-125 | for a two-character pattern, replacing in `a + b` is replacing in `a` and in `b` when no occurrence straddles the seam |
| Strings.ReplaceWithoutFirstChar | app.py:122-125 | a string without the pattern's first character is left unchanged |
| Strings.ReplaceEach | app.py:122-125 | the same `replace` applied to every string of a list, in order |
| Strings.ReplaceOverJoin | app.py:122-125 | replacing in `sep.join(ps)` is joining the replaced pieces, when `sep` is unchanged and does not combine with a piece into an occurrence |
| Decimal.DigitValue | app.py:114 | the value of a decimal digit is below 10 |
| Decimal.DigitChar | app.py:114 | the digit character of a value below 10 reads back as that value |
| Decimal.Value | app.py:114 | `int()` of `n` digits is below `10^n` |
| Decimal.Digits | app.py:112-114 | the decimal digits of a score `n`, as the lemmas about a scored reply write them: a non-empty digit string |
| Decimal.ValueOfDigits | app.py:114 | `int(str(n)) == n` |
| Decimal.DigitsOfValue | app.py:114 | `str(int(s)) == s` for digit strings without a leading zero |
| Decimal.LeadingDigitBound | app.py:114 | a digit string that does not start with `0` has a value of at least 1 |
| Decimal.DigitRun | app.py:112 | how far the greedy `\d+` reaches; specified by `DigitRunIsRun`, `DigitRunIsMaximal` and `DigitRunOfDigits` |
| Decimal.DigitRunIsRun | app.py:112 | the greedy `\d+` covers only digits and stops before a non-digit |
| Decimal.DigitRunIsMaximal | app.py:112 | every run of digits at the start lies inside the greedy run |
| Decimal.DigitRunOfDigits | app.py:112 | digits followed by a non-digit are exactly the greedy run |
| ScoreMatch.MatchesWith | app.py:112 | the regular expression matches at `i` with a digit run of length `m`: prefix, at least one digit, suffix |
| ScoreMatch.MatchAt | app.py:112 | the greedy scan at `i`; `GreedyIsRegex` and `RegexIsGreedy` relate it to `MatchesWith` |
| ScoreMatch.GreedyIsRegex | app.py:112 | where the greedy scan matches, the regular expression matches with the longest digit run |
| ScoreMatch.RegexIsGreedy | AIresume.py:74 | where the regular expression matches with some run, the greedy scan matches with a run at least as long |
| ScoreMatch.FirstMatch | app.py:112 | the index found matches and no earlier index does; no index is found only when none matches |
| ScoreMatch.FirstMatchFinds | app.py:112 | the scan finds the first matching index |
| ScoreMatch.Search | app.py:112 | `re.search`: the index of the leftmost match, by the contract of `FirstMatch` |
| ScoreMatch.Group | app.py:114 | `int(m.group(1))`: the value of the greedy digit run after the prefix; `PartsGroup` and `ScoreOfFirstMatch` state it |
| ScoreMatch.Score | app.py:112-114 | the score of a reply; specified by `NoScoreIffNoMatch`, `ScoreOfFirstMatch` and `ScoreOfReply` |
| ScoreMatch.NoScoreIffNoMatch | app.py:112-113 | there is no score exactly when the regular expression matches nowhere |
| ScoreMatch.ScoreOfFirstMatch | app.py:112-114 | the score is `int()` of the digit run at the leftmost match |
| ScoreMatch.ScoreOfReply | AIresume.py:74-76 | a reply `a + prefix + digits + suffix + rest` with no match inside `a` scores `int(digits)` |
| ScoreMatch.ScoreOfOpening | app.py:112-114 | with an empty suffix, a reply that opens with the prefix and digits scores their value |
| ScoreMatch.ScoreOfLine | AIresume.py:74-76 | a reply that opens with the prefix, digits and the suffix scores the value of the digits |
| ScoreMatch.ReplyMatches | app.py:112-114 | the scan matches right after `a` and captures the given digits |
| ScoreMatch.PartsMatch | app.py:112 | the scan matches where the prefix, the digits and the suffix stand |
| ScoreMatch.PartsGroup | app.py:114 | the group captured where the digits stand is their value |
| ScoreMatch.NoSuffixNoScore | AIresume.py:74-75 | a reply in which the suffix occurs nowhere has no score |
| ScoreMatch.ShortReplyHasNoScore | AIresume.py:74-75 | a reply shorter than the shortest possible match has no score |
| Template.Fill | app.py:56-66 | the f-string with both inputs interpolated; specified by `FillLayout`, `UnfillFill`, `FirstInputBetween`, `SecondInputBetween` and `FillEndsWith` |
| Template.Unfill | app.py:56-66 | reading the inputs back; `UnfillFill` and `FillUnfill` make it the inverse of `Fill` |
| Template.FillLayout | app.py:56-66 | each input is interpolated verbatim at its place between the literal parts |
| Template.UnfillFill | app.py:56-66 | both inputs can be read back from a filled template |
| Template.FillUnfill | app.py:56-66 | what is read back fills the template to that very prompt |
| Template.FirstInputBetween | app.py:64 | the first input stands between the marker that ends `head` and the one that starts `mid` |
| Template.SecondInputBetween | app.py:65 | the second input stands between the marker that ends `mid` and the one that starts `tail` |
| Template.FillEndsWith | AIresume.py:30-35 | a filled template ends with the end of its tail |
| Extraction.RouteOf | app.py:39-48 | PDF exactly for `application/pdf`; Word exactly for the two Word types; UTF-8 for every other type |
| Extraction.PageTexts | app.py:41 | Ok exactly when every page gives its text, and then those texts in order; otherwise the first page that raised |
| Extraction.NonEmpty | app.py:41 | the filter `if page.extract_text()`; specified by `NonEmptyKeepsNoEmpty` and `NonEmptyOfConcat` |
| Extraction.NonEmptyKeepsNoEmpty | app.py:41 | the filter `if page.extract_text()` keeps no empty text |
| Extraction.NonEmptyOfConcat | AIresume.py:15 | the filter works page by page and keeps page order |
| Extraction.PdfText | app.py:41 | the space-joined non-empty page texts; specified by `EmptyPageAddsNothing` and `PdfTextWords` |
| Extraction.EmptyPageAddsNothing | app.py:41 | a page with empty text adds nothing to the joined text, wherever it stands |
| Extraction.PdfTextWords | app.py:41 | the words of a PDF's text are the words of its pages, page after page |
| Extraction.EmptyTextsHaveNoWords | AIresume.py:15 | leaving out the empty pages leaves out no word |
| Extraction.RawText | AIresume.py:12-20 | the text of the routine the media type selects, or the exception it raised; a PDF succeeds exactly when every page does |
| Extraction.RawTextOfPdf | app.py:40-41 | a PDF whose pages all give their text yields the space-joined non-empty page texts |
| App.ExtractText | app.py:36-52 | the result has no surrounding whitespace and is `""` when any routine raised |
| App.ExtractTrimmedText | app.py:49 | already-trimmed text comes back unchanged |
| App.ExtractKeepsWords | app.py:49 | extraction keeps every word of the raw text |
| App.ExtractIsSlice | app.py:49 | the extracted text is the raw text with only whitespace cut off at either end |
| App.AnalysisPrompt | app.py:54-66 | `analyze_resume`'s prompt; specified by `JobDescriptionInPrompt`, `ResumeInPrompt` and `AnalysisPromptInputs` |
| App.JobDescriptionInPrompt | app.py:64 | the job description stands verbatim between `---JOB DESCRIPTION---\n` and `\n---` |
| App.ResumeInPrompt | app.py:65 | the resume comes after the job description, verbatim between `---RESUME---\n` and `\n---` |
| App.AnalysisPromptInputs | app.py:54-66 | the job description and the resume can be read back from the prompt |
| App.Headings | app.py:122-125 | the four `replace` calls; specified by `HeadingsAbsent`, `FirstHeadingRewrite` and `HeadingsOfPieces` |
| App.HeadingsAbsent | app.py:122-125 | a reply without `1.` to `4.` is displayed as it is |
| App.FirstHeadingRewrite | app.py:122 | the first rewrite keeps the text between the occurrences of `1.` and puts `### 1.` at each |
| App.LaterHeadings | app.py:123-125 | the rewrites of `2.`, `3.` and `4.`, applied to each piece |
| App.HeadingMarkKept | app.py:123-125 | the inserted `### 1.` holds none of `2.`, `3.` and `4.`, so the later rewrites leave it as it is |
| App.HeadingsOfPieces | app.py:122-125 | the whole chain: the reply split at `1.`, each piece rewritten for `2.`, `3.` and `4.`, and the pieces joined with `### 1.` |
| App.Preview | app.py:129 | a text of at most 2000 characters is shown whole; a longer one as its first 2000 characters and `...`; at most 2003 characters |
| App.PreviewStartsWithText | app.py:129 | the preview starts with a prefix of the text of up to 2000 characters |
| App.PreviewIdempotent | app.py:129 | previewing a preview changes nothing |
| App.GateOf | app.py:93-98 | proceed exactly with a submission, a job description and a file; the missing job description is reported before the missing file |
| App.Display | app.py:112-129 | metrics exactly when the reply has a score, and then that score and the word count; the reply with headings; the preview |
| App.Run | app.py:93-129 | one submission of the form; specified by `GateOf`, `RunAsksIff`, `RunExtractionIff`, `RunRequestIff`, `MissingJobDescriptionFirst`, `ReplyWithoutScoreShown`, `ShownIsDisplay` and `ShownWordCount` |
| App.Analyse | app.py:100-104 | a submission that passed the checks: an error exactly when extraction raised, nothing for a text that is empty once trimmed, and otherwise the answer to the prompt built from that text |
| App.Answer | app.py:102-104 | `query_deepseek`'s answer: the request error exactly for `None`, nothing exactly for an empty reply, and the display of any other reply |
| App.RunAsksIff | app.py:93-104 | the model is asked (its reply is then shown, or nothing when it fails or is empty) exactly when the form was submitted with a job description and a file whose extracted text is not empty |
| App.RunExtractionIff | app.py:98-101 | an error is shown for the file exactly when its extraction raised; a text that is only whitespace shows nothing |
| App.RunRequestIff | app.py:102-104 | once the model is asked, an error is shown exactly when the request failed; an empty reply shows nothing |
| App.MissingJobDescriptionFirst | app.py:94-95 | with no job description, the warning is for the job description, whether or not a file was given |
| App.ReplyWithoutScoreShown | app.py:104-125 | a reply that matches the score pattern nowhere is shown with its headings and without metrics |
| App.ShownIsDisplay | app.py:100-129 | what is shown is the display of the model's non-empty reply to the prompt built from the extracted text |
| App.ShownWordCount | app.py:119 | the word count shown is that of the file's text before trimming |
| App.ReplyOpeningWithScore | app.py:112-114 | a reply opening with `1. Fit Score: ` and the digits of any `n` scores `n`, with no range check |
| AIResume.EvaluationPrompt | AIresume.py:22-35 | `evaluate_with_deepseek`'s prompt; specified by `JobDescriptionInPrompt`, `ResumeInPrompt`, `InstructionsCloseThePrompt` and `EvaluationPromptInputs` |
| AIResume.JobDescriptionInPrompt | AIresume.py:23-26 | the job description stands verbatim after `Job Description:`, followed by a blank line |
| AIResume.ResumeInPrompt | AIresume.py:27-30 | the resume comes after it, verbatim after `Candidate Resume:`, followed by a blank line that is followed only by the instructions |
| AIResume.InstructionsCloseThePrompt | AIresume.py:30-35 | the prompt ends with the instructions |
| AIResume.EvaluationPromptInputs | AIresume.py:22-35 | both inputs can be read back from the prompt |
| AIResume.Evaluate | AIresume.py:43 | the output keeps the words of the reply but no surrounding whitespace; the word count of the resume text; the score of the output |
| AIResume.EvaluateIsSlice | AIresume.py:43 | the output is the reply with only whitespace cut off at either end |
| AIResume.Run | AIresume.py:57-79 | one submission of the form; specified by `RunShowsIff`, `MissingInputIff` and `ShownEvaluation` |
| AIResume.RunShowsIff | AIresume.py:57-64 | an evaluation is shown exactly when the form was submitted with a job description and a file, the file was read and the model answered, even if the text is empty |
| AIResume.MissingInputIff | AIresume.py:58 | the single error message is shown exactly for a submission missing the job description, the file or both |
| AIResume.ShownEvaluation | AIresume.py:59-76 | what is shown is the stripped reply to the prompt built from the untrimmed text, that text's word count, and the score of the reply |
| AIResume.ScoreLineScores | AIresume.py:74-76 | a reply opening with `Fit Score: <n> out of 100` scores `n` |
| AIResume.NoScoreWithoutOutOf100 | AIresume.py:74-75 | a reply that never says ` out of 100` has no score, even if it says `Fit Score: <n>` |

## Left out

- The network call, the API key, the model name, `max_tokens`, `temperature` and the timeout are not modelled. The chat model is the parameter `llm`. In `app.py` it answers `None` where `query_deepseek` catches a `RequestException`. In `AIresume.py` it answers `Err` where `deepseek.generate` raises or where the reply's `content` is missing.
- `query_deepseek`'s uncaught exceptions are not modelled, because they end the script outside the model: a missing key in the JSON reply. Whether a body that is not JSON is caught depends on the version of `requests` (from 2.27 its decoding error is a `RequestException`, so the answer is `None`); the model does not choose between the versions.
- `PyPDF2.PdfReader`, `page.extract_text()`, `docx2txt.process` and `bytes.decode("utf-8")` are foreign code, so they are the parameters in `Libraries`. A page whose `extract_text()` answers `None` is represented by `""`, which the filter skips in the same way. `extract_text()` is called twice for every page that is kept, once in the filter and once for the value; one `Result` per page assumes that both calls give the same answer, which holds for PyPDF2.
- The Streamlit calls are not modelled, because they are UI: page layout, `st.spinner`, `st.success`, `st.metric` formatting such as `f"{score}/100"`, and the text of `st.error` for extraction and request failures. Whether an error is shown is modelled (`App.RunExtractionIff`, `App.RunRequestIff`), and so are the warning and error messages that decide what a submission shows.
- Whitespace for `strip()` and `split()` is Python's ASCII whitespace: space, `\t` through `\r`, and `\x1c` through `\x1f`. The non-ASCII Unicode whitespace is left out. `\d` is the ASCII digits only, whereas Python's `\d` also matches other Unicode decimal digits.
- ScoreMatch.Group: the digit limit of `int()` is not modelled. From CPython 3.11 (and 3.10.7, 3.9.14, 3.8.14), `int()` raises `ValueError` on a decimal string longer than 4300 digits. Neither `int(score_match.group(1))` (app.py:114) nor `int(match.group(1))` (AIresume.py:76) is inside a `try`, so such a reply would end the script, whereas `Group` returns its value. The `max_tokens` that makes such a reply practically impossible is also left out.
- Strings.Replace: the length of the result is not stated.
- The model does not re-read a reply after `strip()` to compare scores. `AIResume.Evaluate` takes the score of the stripped reply, as the source does, and no lemma relates it to the score of the raw reply.
