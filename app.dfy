/**
 * `app.py`: extraction with trimming and an empty-text fallback, the
 * analysis prompt, the gating of a submission, and what is displayed for a
 * reply: the score, the word count, the reply with headings, and a preview
 * of the resume text.
 */
module App {
  import opened Wrappers
  import opened Strings
  import opened Decimal
  import opened ScoreMatch
  import opened Template
  import opened Extraction

  // ---------------------------------------------------------------- extraction

  /** `extract_text_from_file`: the text stripped of surrounding whitespace, or `""` if anything raised. */
  function ExtractText(u: Upload, libs: Libraries): (r: string)
    ensures Trimmed(r)
    ensures RawText(u, libs).Err? ==> r == ""
  {
    match RawText(u, libs)
    case Err(_) => ""
    case Ok(t) =>
      StripIsTrimmed(t);
      Strip(t)
  }

  /** Text that is already trimmed comes back unchanged. */
  lemma ExtractTrimmedText(u: Upload, libs: Libraries, t: string)
    requires RawText(u, libs) == Ok(t) && Trimmed(t)
    ensures ExtractText(u, libs) == t
  {
    StripTrimmed(t);
  }

  /** Extraction keeps every word of the text, so the word count is that of the raw text. */
  lemma ExtractKeepsWords(u: Upload, libs: Libraries, t: string)
    requires RawText(u, libs) == Ok(t)
    ensures Words(ExtractText(u, libs)) == Words(t)
  {
    WordsOfStrip(t);
  }

  /** The result is the raw text with only whitespace cut off at either end. */
  lemma ExtractIsSlice(u: Upload, libs: Libraries, t: string) returns (i: nat, j: nat)
    requires RawText(u, libs) == Ok(t)
    ensures i <= j <= |t| && ExtractText(u, libs) == t[i..j]
    ensures AllSpace(t[..i]) && AllSpace(t[j..])
  {
    i, j := StripIsSlice(t);
  }

  // ---------------------------------------------------------------- prompt

  /** The instructions at the head of the prompt of `analyze_resume`. */
  const AnalysisInstructions: string :=
    "\n    Analyze this resume against the job description and provide:\n    \n"
    + "    1. Fit Score (0-100) with brief justification\n"
    + "    2. Top 3 matching skills with experience evidence\n"
    + "    3. Top 3 missing qualifications\n"
    + "    4. Summary (3-4 sentences) with overall assessment\n    \n    "

  const JobDescriptionMarker: string := "---JOB DESCRIPTION---\n"
  const ResumeMarker: string := "---RESUME---\n"
  const BlockEnd: string := "\n---"

  /** The f-string of `analyze_resume`: instructions, then the job description, then the resume. */
  const AnalysisTemplate: Template := Template(
    AnalysisInstructions + JobDescriptionMarker,
    BlockEnd + "\n    " + ResumeMarker,
    BlockEnd + "\n    ")

  function AnalysisPrompt(resumeText: string, jdText: string): string {
    Fill(AnalysisTemplate, jdText, resumeText)
  }

  /** The job description stands verbatim between `---JOB DESCRIPTION---\n` and `\n---` ... */
  lemma JobDescriptionInPrompt(resumeText: string, jdText: string)
    ensures var p := AnalysisPrompt(resumeText, jdText);
      var i := |AnalysisTemplate.head|;
      && i + |jdText| + |BlockEnd| <= |p|
      && p[i - |JobDescriptionMarker|..i] == JobDescriptionMarker
      && p[i..i + |jdText|] == jdText
      && p[i + |jdText|..i + |jdText| + |BlockEnd|] == BlockEnd
  {
    assert AnalysisTemplate.mid == BlockEnd + ("\n    " + ResumeMarker);
    FirstInputBetween(AnalysisTemplate, jdText, resumeText, AnalysisInstructions, JobDescriptionMarker, BlockEnd, "\n    " + ResumeMarker);
  }

  /**
   * ... and the resume comes after it, verbatim between `---RESUME---\n`
   * and `\n---`.
   */
  lemma ResumeInPrompt(resumeText: string, jdText: string)
    ensures var p := AnalysisPrompt(resumeText, jdText);
      var k := |AnalysisTemplate.head| + |jdText| + |AnalysisTemplate.mid|;
      && |AnalysisTemplate.head| + |jdText| + |BlockEnd| <= k - |ResumeMarker|
      && k + |resumeText| + |BlockEnd| <= |p|
      && p[k - |ResumeMarker|..k] == ResumeMarker
      && p[k..k + |resumeText|] == resumeText
      && p[k + |resumeText|..k + |resumeText| + |BlockEnd|] == BlockEnd
  {
    SecondInputBetween(AnalysisTemplate, jdText, resumeText, BlockEnd + "\n    ", ResumeMarker, BlockEnd, "\n    ");
  }

  /** Both inputs can be read back from the prompt. */
  lemma AnalysisPromptInputs(resumeText: string, jdText: string)
    ensures Unfill(AnalysisTemplate, AnalysisPrompt(resumeText, jdText), |jdText|) == Some((jdText, resumeText))
  {
    UnfillFill(AnalysisTemplate, jdText, resumeText);
  }

  // ---------------------------------------------------------------- display

  /** `r"1\. Fit Score: (\d+)"`. */
  const ScorePattern: Pattern := Pattern("1. Fit Score: ", "")

  /** The reply with each of `1.` to `4.` turned into a heading, in that order. */
  function Headings(reply: string): string {
    Replace(Replace(Replace(Replace(reply, "1.", "### 1."), "2.", "### 2."), "3.", "### 3."), "4.", "### 4.")
  }

  /** A reply without any of `1.`, `2.`, `3.`, `4.` is shown as it is. */
  lemma HeadingsAbsent(reply: string)
    requires forall k: nat :: !OccursAt(reply, k, "1.") && !OccursAt(reply, k, "2.")
                              && !OccursAt(reply, k, "3.") && !OccursAt(reply, k, "4.")
    ensures Headings(reply) == reply
  {
    ReplaceAbsent(reply, "1.", "### 1.");
    ReplaceAbsent(reply, "2.", "### 2.");
    ReplaceAbsent(reply, "3.", "### 3.");
    ReplaceAbsent(reply, "4.", "### 4.");
  }

  /**
   * The first rewrite keeps the text between the occurrences of `1.` and
   * puts `### 1.` in the place of each.
   */
  lemma FirstHeadingRewrite(reply: string)
    ensures JoinWith(Split(reply, "1."), "1.") == reply
    ensures Replace(reply, "1.", "### 1.") == JoinWith(Split(reply, "1."), "### 1.")
  {
    SplitJoin(reply, "1.");
    ReplaceIsJoinOfSplit(reply, "1.", "### 1.");
  }

  /** The rewrites of `2.`, `3.` and `4.`, applied to each piece of a list. */
  function LaterHeadings(ps: seq<string>): seq<string> {
    ReplaceEach(ReplaceEach(ReplaceEach(ps, "2.", "### 2."), "3.", "### 3."), "4.", "### 4.")
  }

  /** `### 1.` contains none of `2.`, `3.` and `4.`, so the later rewrites leave it as it is. */
  lemma HeadingMarkKept(d: char, sub: string)
    requires '2' <= d <= '4'
    ensures Replace("### 1.", [d, '.'], sub) == "### 1."
  {
    ReplaceWithoutFirstChar("### 1.", [d, '.'], sub);
  }

  /**
   * The whole chain of rewrites: every occurrence of `1.` becomes `### 1.`,
   * and the text between them goes through the rewrites of `2.`, `3.` and
   * `4.` piece by piece. No occurrence of those straddles an inserted `### 1.`.
   */
  lemma HeadingsOfPieces(reply: string)
    ensures Headings(reply) == JoinWith(LaterHeadings(Split(reply, "1.")), "### 1.")
  {
    var mark := "### 1.";
    var ps := Split(reply, "1.");
    ReplaceIsJoinOfSplit(reply, "1.", mark);
    HeadingMarkKept('2', "### 2.");
    ReplaceOverJoin(ps, mark, "2.", "### 2.");
    var ps2 := ReplaceEach(ps, "2.", "### 2.");
    HeadingMarkKept('3', "### 3.");
    ReplaceOverJoin(ps2, mark, "3.", "### 3.");
    var ps3 := ReplaceEach(ps2, "3.", "### 3.");
    HeadingMarkKept('4', "### 4.");
    ReplaceOverJoin(ps3, mark, "4.", "### 4.");
  }

  /** `resume_text[:2000] + ("..." if len(resume_text) > 2000 else "")`. */
  function Preview(s: string): (r: string)
    ensures |s| <= 2000 ==> r == s
    ensures |s| > 2000 ==> r == s[..2000] + "..."
    ensures |r| <= 2003
    ensures |r| >= 2000 || r == s
  {
    s[..if |s| < 2000 then |s| else 2000] + (if |s| > 2000 then "..." else "")
  }

  /** A preview always starts with a prefix of the text, at most 2000 characters of it. */
  lemma PreviewStartsWithText(s: string)
    ensures var n := if |s| < 2000 then |s| else 2000;
      |Preview(s)| >= n && Preview(s)[..n] == s[..n]
  {
  }

  /** Previewing a preview changes nothing. */
  lemma PreviewIdempotent(s: string)
    ensures Preview(Preview(s)) == Preview(s)
  {
    if |s| > 2000 {
      var r := Preview(s);
      assert r[..2000] == s[..2000];
    }
  }

  // ---------------------------------------------------------------- submission

  datatype Gate = Idle | WarnNoJobDescription | WarnNoResumeFile | Proceed

  /** The checks of a submission, in the order the form makes them. */
  function GateOf(submitted: bool, jdText: string, hasFile: bool): (g: Gate)
    ensures g == Proceed <==> submitted && jdText != "" && hasFile
    ensures g == WarnNoJobDescription <==> submitted && jdText == ""
    ensures g == WarnNoResumeFile <==> submitted && jdText != "" && !hasFile
    ensures g == Idle <==> !submitted
  {
    if !submitted then Idle
    else if jdText == "" then WarnNoJobDescription
    else if !hasFile then WarnNoResumeFile
    else Proceed
  }

  /** The two metrics, shown only when a score was found. */
  datatype Metrics = Metrics(score: nat, words: nat)

  /** What is shown for a reply. */
  datatype Report = Report(metrics: Option<Metrics>, analysis: string, preview: string)

  /**
   * What a submission ends with. `ExtractionFailed` and `RequestFailed` are
   * the paths on which `st.error` is shown; `NoResumeText` and `EmptyReply`
   * show nothing at all.
   */
  datatype Outcome =
    | NotSubmitted
    | Warning(message: string)
    | ExtractionFailed
    | NoResumeText
    | RequestFailed
    | EmptyReply
    | Shown(report: Report)

  function Display(reply: string, resumeText: string): (r: Report)
    ensures r.metrics.None? <==> Score(reply, ScorePattern).None?
    ensures r.metrics.Some? ==> r.metrics.value == Metrics(Score(reply, ScorePattern).value, WordCount(resumeText))
    ensures r.analysis == Headings(reply) && r.preview == Preview(resumeText)
  {
    var metrics := match Score(reply, ScorePattern)
      case None => None
      case Some(n) => Some(Metrics(n, WordCount(resumeText)));
    Report(metrics, Headings(reply), Preview(resumeText))
  }

  /**
   * One submission of the form. `llm` stands for `query_deepseek`, which
   * answers `None` when the request fails. When extraction raises,
   * `extract_text_from_file` shows its error and answers `""`, so the
   * submission stops there as it does for a text that is empty once trimmed.
   */
  function Run(submitted: bool, jdText: string, file: Option<Upload>, libs: Libraries,
               llm: string -> Option<string>): Outcome
  {
    match GateOf(submitted, jdText, file.Some?)
    case Idle => NotSubmitted
    case WarnNoJobDescription => Warning("Please enter a job description")
    case WarnNoResumeFile => Warning("Please upload a resume file")
    case Proceed => Analyse(jdText, file.value, libs, llm)
  }

  /**
   * A submission that passed the checks: the text is extracted and, unless
   * it is empty, the model is asked about it.
   */
  function Analyse(jdText: string, u: Upload, libs: Libraries, llm: string -> Option<string>): (o: Outcome)
    ensures o == ExtractionFailed <==> RawText(u, libs).Err?
    ensures o == NoResumeText <==> RawText(u, libs).Ok? && ExtractText(u, libs) == ""
    ensures o.RequestFailed? || o.EmptyReply? || o.Shown? <==> ExtractText(u, libs) != ""
    ensures ExtractText(u, libs) != "" ==> o == Answer(llm(AnalysisPrompt(ExtractText(u, libs), jdText)), ExtractText(u, libs))
  {
    if RawText(u, libs).Err? then ExtractionFailed
    else
      var resumeText := ExtractText(u, libs);
      if resumeText == "" then NoResumeText
      else Answer(llm(AnalysisPrompt(resumeText, jdText)), resumeText)
  }

  /** What `query_deepseek`'s answer leads to: an error, nothing, or the display of the reply. */
  function Answer(reply: Option<string>, resumeText: string): (o: Outcome)
    ensures o == RequestFailed <==> reply.None?
    ensures o == EmptyReply <==> reply == Some("")
    ensures o.Shown? <==> reply.Some? && reply.value != ""
    ensures o.Shown? ==> o.report == Display(reply.value, resumeText)
  {
    match reply
    case None => RequestFailed
    case Some(r) => if r == "" then EmptyReply else Shown(Display(r, resumeText))
  }

  /**
   * The model is asked exactly when the form was submitted with a job
   * description and a file from which some text was extracted.
   */
  lemma RunAsksIff(submitted: bool, jdText: string, file: Option<Upload>, libs: Libraries,
                   llm: string -> Option<string>)
    ensures var o := Run(submitted, jdText, file, libs, llm);
      (o.RequestFailed? || o.EmptyReply? || o.Shown?)
      <==> submitted && jdText != "" && file.Some? && ExtractText(file.value, libs) != ""
  {
  }

  /**
   * An error is shown for the file exactly when its extraction raised; a
   * text that is nothing but whitespace shows nothing at all.
   */
  lemma RunExtractionIff(submitted: bool, jdText: string, file: Option<Upload>, libs: Libraries,
                         llm: string -> Option<string>)
    ensures var o := Run(submitted, jdText, file, libs, llm);
      var proceeds := submitted && jdText != "" && file.Some?;
      && (o == ExtractionFailed <==> proceeds && RawText(file.value, libs).Err?)
      && (o == NoResumeText <==> proceeds && RawText(file.value, libs).Ok? && AllSpace(RawText(file.value, libs).value))
  {
    if submitted && jdText != "" && file.Some? && RawText(file.value, libs).Ok? {
      StripEmptyIff(RawText(file.value, libs).value);
    }
  }

  /**
   * Once the model is asked, an error is shown exactly when the request
   * failed; an empty reply shows nothing at all.
   */
  lemma RunRequestIff(submitted: bool, jdText: string, file: Option<Upload>, libs: Libraries,
                      llm: string -> Option<string>)
    ensures var o := Run(submitted, jdText, file, libs, llm);
      var asked := submitted && jdText != "" && file.Some? && ExtractText(file.value, libs) != "";
      && (o == RequestFailed <==> asked && llm(AnalysisPrompt(ExtractText(file.value, libs), jdText)).None?)
      && (o == EmptyReply <==> asked && llm(AnalysisPrompt(ExtractText(file.value, libs), jdText)) == Some(""))
  {
  }

  /** A missing job description is reported first, whether or not a file was given. */
  lemma MissingJobDescriptionFirst(jdText: string, file: Option<Upload>, libs: Libraries,
                                   llm: string -> Option<string>)
    requires jdText == ""
    ensures Run(true, jdText, file, libs, llm) == Warning("Please enter a job description")
  {
  }

  /** A reply without a score is still shown, with its headings, but without metrics. */
  lemma ReplyWithoutScoreShown(jdText: string, u: Upload, libs: Libraries,
                               llm: string -> Option<string>, reply: string)
    requires jdText != "" && ExtractText(u, libs) != ""
    requires llm(AnalysisPrompt(ExtractText(u, libs), jdText)) == Some(reply) && reply != ""
    requires forall i: nat, m: nat :: !MatchesWith(reply, ScorePattern, i, m)
    ensures Run(true, jdText, Some(u), libs, llm)
            == Shown(Report(None, Headings(reply), Preview(ExtractText(u, libs))))
  {
    NoScoreIffNoMatch(reply, ScorePattern);
  }

  /** What is shown is the display of the model's reply to the prompt built from the trimmed text. */
  lemma ShownIsDisplay(submitted: bool, jdText: string, file: Option<Upload>, libs: Libraries,
                       llm: string -> Option<string>)
    ensures Run(submitted, jdText, file, libs, llm).Shown? ==>
      && file.Some? && ExtractText(file.value, libs) != ""
      && var resumeText := ExtractText(file.value, libs);
      && llm(AnalysisPrompt(resumeText, jdText)).Some?
      && llm(AnalysisPrompt(resumeText, jdText)).value != ""
      && Run(submitted, jdText, file, libs, llm).report
         == Display(llm(AnalysisPrompt(resumeText, jdText)).value, resumeText)
  {
  }

  /** The word count shown is that of the extracted text before trimming, too. */
  lemma ShownWordCount(jdText: string, u: Upload, libs: Libraries, llm: string -> Option<string>, t: string)
    requires RawText(u, libs) == Ok(t)
    ensures var o := Run(true, jdText, Some(u), libs, llm);
      o.Shown? && o.report.metrics.Some? ==> o.report.metrics.value.words == WordCount(t)
  {
    ShownIsDisplay(true, jdText, Some(u), libs, llm);
    ExtractKeepsWords(u, libs, t);
  }

  /**
   * A reply that opens with `1. Fit Score: ` and the decimal digits of `n`
   * scores `n`, whatever `n` is: no range is checked.
   */
  lemma ReplyOpeningWithScore(n: nat, rest: string)
    requires rest == [] || !IsDigit(rest[0])
    ensures Score("1. Fit Score: " + Digits(n) + rest, ScorePattern) == Some(n)
  {
    ScoreOfOpening(ScorePattern, Digits(n), rest);
    ValueOfDigits(n);
  }
}
