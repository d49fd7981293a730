/**
 * `AIresume.py`: the media-type dispatch of `RawText` with neither trimming
 * nor a fallback, the evaluation prompt, the form check, and what is shown for an
 * evaluation: the reply stripped, the word count of the resume text, and the
 * score if the reply states one as `Fit Score: <digits> out of 100`.
 */
module AIResume {
  import opened Wrappers
  import opened Strings
  import opened Decimal
  import opened ScoreMatch
  import opened Template
  import opened Extraction

  // ---------------------------------------------------------------- prompt

  const Indent: string := "\n    "
  const Gap: string := "\n\n    "
  const JobDescriptionLabel: string := "Job Description:\n    "
  const ResumeLabel: string := "Candidate Resume:\n    "

  /** The instructions that close the prompt of `evaluate_with_deepseek`. */
  const EvaluationInstructions: string :=
    "Based on the job description and the candidate's resume, provide:\n"
    + "    1. A Fit Score out of 100.\n"
    + "    2. A 3-4 sentence summary highlighting key relevant experience and potential gaps.\n"
    + "    3. Key skills from the resume that match the job description.\n"
    + "    4. Potential concerns or missing qualifications.\n    "

  /** The f-string of `evaluate_with_deepseek`: the job description, the resume, then the instructions. */
  const EvaluationTemplate: Template :=
    Template(Indent + JobDescriptionLabel, Gap + ResumeLabel, Gap + EvaluationInstructions)

  function EvaluationPrompt(resumeText: string, jdText: string): string {
    Fill(EvaluationTemplate, jdText, resumeText)
  }

  /** The job description stands verbatim after `Job Description:`, followed by a blank line ... */
  lemma JobDescriptionInPrompt(resumeText: string, jdText: string)
    ensures var p := EvaluationPrompt(resumeText, jdText);
      var i := |EvaluationTemplate.head|;
      && i + |jdText| + |Gap| <= |p|
      && p[i - |JobDescriptionLabel|..i] == JobDescriptionLabel
      && p[i..i + |jdText|] == jdText
      && p[i + |jdText|..i + |jdText| + |Gap|] == Gap
  {
    FirstInputBetween(EvaluationTemplate, jdText, resumeText, Indent, JobDescriptionLabel, Gap, ResumeLabel);
  }

  /**
   * ... and the resume follows it, verbatim after `Candidate Resume:`,
   * followed by a blank line and then the instructions ...
   */
  lemma ResumeInPrompt(resumeText: string, jdText: string)
    ensures var p := EvaluationPrompt(resumeText, jdText);
      var k := |EvaluationTemplate.head| + |jdText| + |EvaluationTemplate.mid|;
      && |EvaluationTemplate.head| + |jdText| + |Gap| <= k - |ResumeLabel|
      && k + |resumeText| + |Gap| <= |p|
      && p[k - |ResumeLabel|..k] == ResumeLabel
      && p[k..k + |resumeText|] == resumeText
      && p[k + |resumeText|..k + |resumeText| + |Gap|] == Gap
      && |p| - |EvaluationInstructions| == k + |resumeText| + |Gap|
  {
    SecondInputBetween(EvaluationTemplate, jdText, resumeText, Gap, ResumeLabel, Gap, EvaluationInstructions);
  }

  /** ... and the prompt ends with the instructions. */
  lemma InstructionsCloseThePrompt(resumeText: string, jdText: string)
    ensures var p := EvaluationPrompt(resumeText, jdText);
      |EvaluationInstructions| <= |p| && p[|p| - |EvaluationInstructions|..] == EvaluationInstructions
  {
    FillEndsWith(EvaluationTemplate, jdText, resumeText, Gap, EvaluationInstructions);
  }

  /** Both inputs can be read back from the prompt. */
  lemma EvaluationPromptInputs(resumeText: string, jdText: string)
    ensures Unfill(EvaluationTemplate, EvaluationPrompt(resumeText, jdText), |jdText|) == Some((jdText, resumeText))
  {
    UnfillFill(EvaluationTemplate, jdText, resumeText);
  }

  // ---------------------------------------------------------------- evaluation

  /** `r"Fit Score: (\d+) out of 100"`. */
  const ScorePattern: Pattern := Pattern("Fit Score: ", " out of 100")

  /** What is shown for an evaluation. */
  datatype Evaluation = Evaluation(output: string, words: nat, score: Option<nat>)

  /** The reply stripped, the word count of the resume text, and the score found in the stripped reply. */
  function Evaluate(content: string, resumeText: string): (e: Evaluation)
    ensures Trimmed(e.output) && Words(e.output) == Words(content)
    ensures e.words == WordCount(resumeText)
    ensures e.score == Score(e.output, ScorePattern)
  {
    StripIsTrimmed(content);
    WordsOfStrip(content);
    var output := Strip(content);
    Evaluation(output, WordCount(resumeText), Score(output, ScorePattern))
  }

  /** The output is the reply with only whitespace cut off at either end. */
  lemma EvaluateIsSlice(content: string, resumeText: string) returns (i: nat, j: nat)
    ensures i <= j <= |content| && Evaluate(content, resumeText).output == content[i..j]
    ensures AllSpace(content[..i]) && AllSpace(content[j..])
  {
    i, j := StripIsSlice(content);
  }

  datatype Outcome =
    | NotSubmitted
    | Error(message: string)
    | Crashed(message: string)
    | Shown(evaluation: Evaluation)

  const MissingInput: string := "Please upload a resume file and enter a job description."

  /**
   * One submission of the form. `llm` stands for `deepseek.generate` and the
   * `content` of its first choice; an `Err` is an exception it raised, and an
   * exception of the extraction or of the model ends the script.
   */
  function Run(submitted: bool, jdText: string, file: Option<Upload>, libs: Libraries,
               llm: string -> Result<string>): Outcome
  {
    if !submitted then NotSubmitted
    else if jdText == "" || file.None? then Error(MissingInput)
    else
      match RawText(file.value, libs)
      case Err(m) => Crashed(m)
      case Ok(resumeText) =>
        match llm(EvaluationPrompt(resumeText, jdText))
        case Err(m) => Crashed(m)
        case Ok(content) => Shown(Evaluate(content, resumeText))
  }

  /**
   * An evaluation is shown exactly when the form was submitted with a job
   * description and a file, the text was extracted and the model answered;
   * an empty resume text is evaluated too.
   */
  lemma RunShowsIff(submitted: bool, jdText: string, file: Option<Upload>, libs: Libraries,
                    llm: string -> Result<string>)
    ensures var o := Run(submitted, jdText, file, libs, llm);
      o.Shown? <==> submitted && jdText != "" && file.Some? && RawText(file.value, libs).Ok?
                    && llm(EvaluationPrompt(RawText(file.value, libs).value, jdText)).Ok?
  {
  }

  /** One message stands for a missing job description, a missing file, or both. */
  lemma MissingInputIff(submitted: bool, jdText: string, file: Option<Upload>, libs: Libraries,
                        llm: string -> Result<string>)
    ensures Run(submitted, jdText, file, libs, llm) == Error(MissingInput)
            <==> submitted && (jdText == "" || file.None?)
  {
  }

  /**
   * What is shown: the model's stripped reply to the prompt built from the
   * raw text, the word count of that text, and the score in the reply.
   */
  lemma ShownEvaluation(submitted: bool, jdText: string, file: Option<Upload>, libs: Libraries,
                        llm: string -> Result<string>)
    ensures Run(submitted, jdText, file, libs, llm).Shown? ==>
      && file.Some? && RawText(file.value, libs).Ok?
      && var resumeText := RawText(file.value, libs).value;
      var e := Run(submitted, jdText, file, libs, llm).evaluation;
      && llm(EvaluationPrompt(resumeText, jdText)).Ok?
      && e.output == Strip(llm(EvaluationPrompt(resumeText, jdText)).value)
      && e.words == WordCount(resumeText)
      && e.score == Score(e.output, ScorePattern)
  {
  }

  /** A line `Fit Score: <n> out of 100` at the start of the reply gives the score `n`. */
  lemma ScoreLineScores(n: nat, rest: string)
    ensures Score("Fit Score: " + Digits(n) + " out of 100" + rest, ScorePattern) == Some(n)
  {
    ScoreOfLine(ScorePattern, Digits(n), rest);
    ValueOfDigits(n);
  }

  /** A reply that never says ` out of 100` has no score, even if it says `Fit Score: <n>`. */
  lemma NoScoreWithoutOutOf100(reply: string)
    requires forall k: nat :: !OccursAt(reply, k, " out of 100")
    ensures Score(reply, ScorePattern) == None
  {
    NoSuffixNoScore(reply, ScorePattern);
  }
}
