/** The design-spec step as one run: gather the project context, ask the agent,
    split its reply into the specification and the self-review, write the
    cleaned specification, and always record the result and a checklist unless
    the process already ended while reading the context. The agent, the file
    system and the outcome of writing the output file are parameters. */
module Runner {
  import Strings
  import Review
  import Fence
  import Context

  /** The name of the output file, without its `.md` extension. */
  const OutputStem: string := "output-02-feature-spec"

  /** Where the cleaned specification is written, relative to the working directory:
      `path.join` of the log directory and the file name. */
  const OutputFilePath: string := "tdd-automation/logs/" + OutputStem + ".md"

  /** What the agent call gives back: its text, or a thrown error. */
  datatype AgentOutcome = Reply(text: string) | AgentFailed

  /** The result record handed to the checklist recorder. */
  datatype Results = Results(
    success: bool,
    outputFilePath: string,
    rating: nat,
    wellDone: string,
    needsImprovement: string)

  /** How a run ends: the process exits while reading the context, before the
      `finally` block; or the `finally` block runs, records the results and the
      checklist, and the process exits with `status` (0 when nothing failed). */
  datatype Run =
    | Aborted(status: int)
    | Finished(results: Results, checklist: seq<string>, written: Strings.Option<string>, status: int)

  const ScoreItemPrefix: string := "AI 자가 평가 점수: "
  const ScoreItemSuffix: string := "/10점 기록 시도"

  /** The five checklist lines recorded for the run. */
  function ChecklistItems(relativePath: string, rating: nat): (r: seq<string>)
    ensures |r| == 5
    ensures r[3] == "산출물(" + relativePath + ") 생성 시도"
    ensures |r[4]| > |ScoreItemPrefix| + |ScoreItemSuffix|
    ensures r[4][..|ScoreItemPrefix|] == ScoreItemPrefix
    ensures r[4][|r[4]| - |ScoreItemSuffix|..] == ScoreItemSuffix
    ensures Strings.AllDigits(r[4][|ScoreItemPrefix|..|r[4]| - |ScoreItemSuffix|])
  {
    var score := ScoreItemPrefix + Strings.Decimal(rating) + ScoreItemSuffix;
    assert score[..|ScoreItemPrefix|] == ScoreItemPrefix;
    assert score[|score| - |ScoreItemSuffix|..] == ScoreItemSuffix;
    assert score[|ScoreItemPrefix|..|score| - |ScoreItemSuffix|] == Strings.Decimal(rating);
    [ "PRD 및 프로젝트 컨텍스트 분석 수행 시도",
      "질문에 대한 답변을 포함하여 최종 명세서 작성 시도",
      "데이터 모델 변경 섹션에 모든 관련 타입의 완전한 정의 포함 시도",
      "산출물(" + relativePath + ") 생성 시도",
      score ]
  }

  /** The score line of the checklist reads back as the recorded rating. */
  lemma ChecklistScoreReadsBack(relativePath: string, rating: nat)
    ensures var item := ChecklistItems(relativePath, rating)[4];
            Strings.DigitsValue(item[|ScoreItemPrefix|..|item| - |ScoreItemSuffix|]) == rating
  {
    var item := ChecklistItems(relativePath, rating)[4];
    assert item[|ScoreItemPrefix|..|item| - |ScoreItemSuffix|] == Strings.Decimal(rating);
    Strings.DecimalRoundTrip(rating);
  }

  /** The self-review record the run fills in while parsing the reply. */
  class SelfReviewOutput {
    var rating: nat
    var wellDone: string
    var needsImprovement: string

    /** The three fields as one value. */
    function Value(): Review.SelfReview
      reads this
    {
      Review.SelfReview(rating, wellDone, needsImprovement)
    }

    /** A fresh record holds the defaults: rating 0 and "N/A" notes. */
    constructor ()
      ensures Value() == Review.Defaults
    {
      rating := 0;
      wellDone := "N/A";
      needsImprovement := "N/A";
    }

    /** The `if (reviewBlock)` step: a non-empty review part overwrites all three
        fields with what is extracted from it; otherwise nothing changes. */
    method Record(reviewBlock: Strings.Option<string>)
      modifies this
      ensures reviewBlock.Some? && reviewBlock.value != [] ==> Value() == Review.ReviewOf(reviewBlock)
      ensures reviewBlock.None? || reviewBlock.value == [] ==> Value() == old(Value())
    {
      if reviewBlock.Some? && reviewBlock.value != [] {
        var block := reviewBlock.value;
        rating := Review.Rating(block);
        wellDone := Review.WellDone(block);
        needsImprovement := Review.NeedsImprovement(block);
      }
    }
  }

  /** `runCreateSpecification`. A failed read of the context ends the process
      with its status before anything is recorded. Otherwise the run succeeds
      exactly when the agent replies and the output file is written; the
      results and the checklist are recorded either way, and the process exits
      with status 1 on failure. */
  method RunCreateSpecification(
    fs: string -> Context.ReadOutcome,
    fileStructure: string,
    agent: string -> AgentOutcome,
    writeSucceeds: bool)
    returns (run: Run)
    ensures run.Aborted? <==> Context.ProjectContext(fs, fileStructure).Exit?
    ensures run.Aborted? ==> run.status == 1
    ensures run.Finished? ==>
      var outcome := agent(Context.ProjectContext(fs, fileStructure).text);
      var success := outcome.Reply? && writeSucceeds;
      && run.results.success == success
      && run.status == (if success then 0 else 1)
      && run.results.outputFilePath == OutputFilePath
      && Review.SelfReview(run.results.rating, run.results.wellDone, run.results.needsImprovement)
         == (if outcome.Reply? then Review.ReviewOf(Review.SplitResponse(outcome.text).review) else Review.Defaults)
      && run.checklist == ChecklistItems(OutputFilePath, run.results.rating)
      && run.written == (if success then Strings.Some(Fence.CleanText(Review.SpecSource(outcome.text))) else Strings.None)
  {
    var success := false;
    var outputFilePath := OutputFilePath;
    var selfReview := new SelfReviewOutput();
    var written: Strings.Option<string> := Strings.None;

    // try
    var context := Context.ProjectContext(fs, fileStructure);
    if context.Exit? {
      return Aborted(context.status);
    }
    var outcome := agent(context.text);
    if outcome.Reply? {
      var raw := outcome.text;
      var parts := Review.SplitResponse(raw);
      selfReview.Record(parts.review);
      var cleanedSpec := Fence.CleanText(Review.SpecSource(raw));
      if writeSucceeds {
        written := Strings.Some(cleanedSpec);
        success := true;
      }
    }

    // finally
    var results := Results(success, outputFilePath, selfReview.rating, selfReview.wellDone, selfReview.needsImprovement);
    var checklist := ChecklistItems(outputFilePath, selfReview.rating);
    run := Finished(results, checklist, written, if success then 0 else 1);
  }
}
