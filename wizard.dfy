/**
  The three-page wizard `main` runs over `st.session_state`: upload (step 1),
  answering (step 2) and the report (step 3). Each method is one button press or one
  page render. What the outside world supplies comes in as parameters: whether a file
  was uploaded, the text extraction's result, the model's replies, and whether the
  model client could be set up.
 */
module Wizard {
  import opened Wrappers
  import opened Text
  import opened Responses
  import opened Scoring

  /** `st.session_state.step`, which the source keeps as 1, 2 and 3. */
  datatype Step = Upload | Interview | Report

  /** What pressing "Generate Interview Questions" led to, in the order the page checks. */
  datatype UploadOutcome =
    | MissingApiKey
    | MissingResume
    | MissingJobDescription
    | TrainerFailed
    | ExtractionFailed
    | GenerationFailed
    | Started

  /** What pressing "Submit Answer" led to. */
  datatype AnswerOutcome = EmptyAnswer | EvaluationRaised | Recorded

  /** `if resume_text:` holds for a text that is neither missing nor empty. */
  predicate HasText(extracted: Option<string>) {
    extracted.Some? && extracted.value != []
  }

  /** The session keys `main` keeps, one field per key. */
  class Session {
    var step: Step
    var questions: seq<string>
    var currentQuestion: nat
    var answers: seq<string>
    var evaluations: seq<Evaluation>
    var resumeText: string
    var jobDescription: string
    var apiKey: string

    /**
      Answers and evaluations grow in lockstep with the question index, so that
      `answers[i]` and `evaluations[i]` belong to `questions[i]`; questions exist from
      step 2 on, and step 3 is reached only with every question answered.
     */
    ghost predicate Valid()
      reads this
    {
      |answers| == |evaluations| == currentQuestion <= |questions|
      && (step == Upload ==> questions == [] && currentQuestion == 0)
      && (step != Upload ==> questions != [])
      && (step == Report ==> currentQuestion == |questions|)
    }

    /** The defaults a fresh session receives. */
    constructor ()
      ensures Valid()
      ensures step == Upload && questions == [] && currentQuestion == 0
      ensures answers == [] && evaluations == []
      ensures resumeText == [] && jobDescription == [] && apiKey == []
    {
      step := Upload;
      questions := [];
      currentQuestion := 0;
      answers := [];
      evaluations := [];
      resumeText := [];
      jobDescription := [];
      apiKey := [];
    }

    /** The sidebar key field: a non-empty entry replaces the stored key, an empty one is ignored. */
    method SetApiKey(input: string)
      modifies this`apiKey
      ensures apiKey == if input == [] then old(apiKey) else input
    {
      if input != [] {
        apiKey := input;
      }
    }

    /**
      "Generate Interview Questions" on the upload page. The checks run in order; the
      extracted resume and the job description are stored as soon as extraction
      succeeds, but the page moves on only when the reply also yields questions.
     */
    method SubmitUpload(hasResume: bool, jobText: string, trainerReady: bool,
                        extracted: Option<string>, reply: Option<string>)
      returns (outcome: UploadOutcome)
      requires Valid() && step == Upload
      modifies this`step, this`questions, this`resumeText, this`jobDescription
      ensures Valid()
      ensures outcome == MissingApiKey <==> apiKey == []
      ensures outcome == MissingResume <==> apiKey != [] && !hasResume
      ensures outcome == MissingJobDescription <==> apiKey != [] && hasResume && jobText == []
      ensures outcome == TrainerFailed <==> apiKey != [] && hasResume && jobText != [] && !trainerReady
      ensures outcome == ExtractionFailed <==>
        apiKey != [] && hasResume && jobText != [] && trainerReady && !HasText(extracted)
      ensures outcome == GenerationFailed <==>
        apiKey != [] && hasResume && jobText != [] && trainerReady && HasText(extracted)
        && GenerateQuestions(reply) == []
      ensures outcome == Started <==> step == Interview
      ensures outcome == Started ==> questions == GenerateQuestions(reply)
      ensures outcome != Started ==> step == Upload && questions == old(questions)
      ensures outcome in {GenerationFailed, Started} ==> resumeText == extracted.value && jobDescription == jobText
      ensures outcome !in {GenerationFailed, Started} ==>
        resumeText == old(resumeText) && jobDescription == old(jobDescription)
    {
      if apiKey == [] {
        outcome := MissingApiKey;
      } else if !hasResume {
        outcome := MissingResume;
      } else if jobText == [] {
        outcome := MissingJobDescription;
      } else if !trainerReady {
        outcome := TrainerFailed;
      } else if !HasText(extracted) {
        outcome := ExtractionFailed;
      } else {
        resumeText := extracted.value;
        jobDescription := jobText;
        var generated := GenerateQuestions(reply);
        if generated != [] {
          questions := generated;
          step := Interview;
          outcome := Started;
        } else {
          outcome := GenerationFailed;
        }
      }
    }

    /**
      "Submit Answer" on the question `questions[currentQuestion]`. A blank answer is
      refused; when the model client cannot be set up nothing is recorded; otherwise
      the answer and its evaluation are appended and the index advances by one.
     */
    method SubmitAnswer(answer: string, trainerReady: bool, reply: Option<string>)
      returns (outcome: AnswerOutcome)
      requires Valid() && step == Interview && currentQuestion < |questions|
      modifies this`answers, this`evaluations, this`currentQuestion
      ensures Valid()
      ensures outcome == EmptyAnswer <==> IsBlank(answer)
      ensures outcome == Recorded <==> !IsBlank(answer) && trainerReady
      ensures outcome == Recorded ==>
        answers == old(answers) + [answer]
        && evaluations == old(evaluations) + [EvaluateAnswer(reply)]
        && currentQuestion == old(currentQuestion) + 1
      ensures outcome != Recorded ==>
        answers == old(answers) && evaluations == old(evaluations) && currentQuestion == old(currentQuestion)
    {
      if IsBlank(answer) {
        outcome := EmptyAnswer;
      } else if !trainerReady {
        outcome := EvaluationRaised;
      } else {
        var evaluation := EvaluateAnswer(reply);
        answers := answers + [answer];
        evaluations := evaluations + [evaluation];
        currentQuestion := currentQuestion + 1;
        outcome := Recorded;
      }
    }

    /** Rendering the question page: once every question is answered it turns into the report. */
    method ShowInterview()
      requires Valid() && step == Interview
      modifies this`step
      ensures Valid()
      ensures step == (if currentQuestion == |questions| then Report else Interview)
    {
      if currentQuestion >= |questions| {
        step := Report;
      }
    }

    /**
      The report page: every question with its answer, evaluation text and score, and the
      mean score with unparseable scores counted as 0.
     */
    method BuildSessionReport(parseNumber: string -> Option<real>) returns (report: ReportData)
      requires Valid() && step == Report
      ensures report.questions == questions && report.answers == answers
      ensures |report.answers| == |report.evaluations| == |report.scores| == |questions|
      ensures forall i | 0 <= i < |questions| ::
        report.evaluations[i] == evaluations[i].evaluation && report.scores[i] == evaluations[i].score
      ensures report.averageScore == Mean(ScoreValues(evaluations, parseNumber))
    {
      var scores, average := AverageScore(evaluations, parseNumber);
      assert scores == ScoreValues(evaluations, parseNumber);
      report := BuildReport(questions, answers, evaluations, average);
    }

    /**
      "Start New Interview": every key but the API key is deleted, and the next run of the
      page gives the deleted keys their defaults again.
     */
    method Reset()
      modifies this
      ensures Valid()
      ensures step == Upload && questions == [] && currentQuestion == 0
      ensures answers == [] && evaluations == []
      ensures resumeText == [] && jobDescription == [] && apiKey == old(apiKey)
    {
      step := Upload;
      questions := [];
      currentQuestion := 0;
      answers := [];
      evaluations := [];
      resumeText := [];
      jobDescription := [];
    }
  }

  /** The reset loop over a key store: each key other than `keep` is deleted, `keep` is left as it was. */
  method DeleteAllExcept<K, V>(store: map<K, V>, keep: K) returns (kept: map<K, V>)
    ensures kept.Keys == store.Keys * {keep}
    ensures forall k | k in kept :: kept[k] == store[k]
  {
    kept := store;
    var pending := store.Keys;
    while pending != {}
      invariant pending <= store.Keys
      invariant kept.Keys == pending + store.Keys * {keep}
      invariant forall k | k in kept :: kept[k] == store[k]
      decreases pending
    {
      var key :| key in pending;
      if key != keep {
        kept := kept - {key};
      }
      pending := pending - {key};
    }
  }
}
