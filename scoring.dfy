/**
  The report page: one number per evaluation, their mean, and the report record
  projected from the session. Python's `float()` is the parameter `parseNumber`,
  which yields `None` wherever `float()` raises.
 */
module Scoring {
  import opened Wrappers
  import opened Text
  import opened Responses

  /** `float(score.split('/')[0])`, or 0 where that raises. */
  function ScoreValue(score: string, parseNumber: string -> Option<real>): real {
    match parseNumber(Split(score, '/')[0])
    case Some(x) => x
    case None => 0.0
  }

  /** A score `n/...` is worth the number `n` reads as, and 0 when `n` is not a number. */
  lemma ScoreValueOfFraction(numerator: string, denominator: string, parseNumber: string -> Option<real>)
    requires '/' !in numerator
    ensures parseNumber(numerator).Some? ==>
      ScoreValue(numerator + "/" + denominator, parseNumber) == parseNumber(numerator).value
    ensures parseNumber(numerator).None? ==> ScoreValue(numerator + "/" + denominator, parseNumber) == 0.0
  {
    assert numerator + "/" + denominator == numerator + ([ '/' ] + denominator);
    SplitAtFirst(numerator, denominator, '/');
  }

  /** `N/A` is read as the number `N`, which `float()` refuses, so an unscored answer is worth 0. */
  lemma NoScoreIsZero(parseNumber: string -> Option<real>)
    requires parseNumber("N").None?
    ensures ScoreValue(NoScore, parseNumber) == 0.0
  {
    assert NoScore == "N" + "/" + "A";
    ScoreValueOfFraction("N", "A", parseNumber);
  }

  /** The list of numbers the report page builds, one per evaluation. */
  function ScoreValues(evaluations: seq<Evaluation>, parseNumber: string -> Option<real>): seq<real> {
    seq(|evaluations|, i requires 0 <= i < |evaluations| => ScoreValue(evaluations[i].score, parseNumber))
  }

  /** Python's `sum`, adding from the left. */
  function Sum(xs: seq<real>): real {
    if xs == [] then 0.0 else Sum(xs[..|xs| - 1]) + xs[|xs| - 1]
  }

  /** `sum(scores) / len(scores) if scores else 0` */
  function Mean(xs: seq<real>): real {
    if xs == [] then 0.0 else Sum(xs) / |xs| as real
  }

  /** The scores loop and the average of the report page (interview.py:326-335). */
  method AverageScore(evaluations: seq<Evaluation>, parseNumber: string -> Option<real>)
    returns (scores: seq<real>, average: real)
    ensures |scores| == |evaluations|
    ensures forall i | 0 <= i < |evaluations| :: scores[i] == ScoreValue(evaluations[i].score, parseNumber)
    ensures average == Mean(scores)
    ensures evaluations == [] ==> average == 0.0
  {
    scores := [];
    for i := 0 to |evaluations|
      invariant |scores| == i
      invariant forall k | 0 <= k < i :: scores[k] == ScoreValue(evaluations[k].score, parseNumber)
    {
      scores := scores + [ScoreValue(evaluations[i].score, parseNumber)];
    }
    average := if |scores| > 0 then Sum(scores) / |scores| as real else 0.0;
  }

  lemma {:induction false} SumBounds(xs: seq<real>, lo: real, hi: real)
    requires forall i | 0 <= i < |xs| :: lo <= xs[i] <= hi
    ensures |xs| as real * lo <= Sum(xs) <= |xs| as real * hi
  {
    if xs != [] {
      SumBounds(xs[..|xs| - 1], lo, hi);
    }
  }

  /** Scores that all lie in a range average to a number in that range. */
  lemma MeanBounds(xs: seq<real>, lo: real, hi: real)
    requires xs != []
    requires forall i | 0 <= i < |xs| :: lo <= xs[i] <= hi
    ensures lo <= Mean(xs) <= hi
  {
    SumBounds(xs, lo, hi);
    var n := |xs| as real;
    assert Mean(xs) * n == Sum(xs);
  }

  /** Scores `8/10`, `N/A` and `6/10` average to 14/3, the unscored answer counting as 0. */
  lemma MeanOfMixedScores(parseNumber: string -> Option<real>)
    requires parseNumber("8") == Some(8.0) && parseNumber("6") == Some(6.0) && parseNumber("N").None?
    ensures Mean([ScoreValue("8/10", parseNumber), ScoreValue(NoScore, parseNumber), ScoreValue("6/10", parseNumber)])
      == 14.0 / 3.0
  {
    assert "8/10" == "8" + "/" + "10" && "6/10" == "6" + "/" + "10";
    ScoreValueOfFraction("8", "10", parseNumber);
    ScoreValueOfFraction("6", "10", parseNumber);
    NoScoreIsZero(parseNumber);
    var xs := [8.0, 0.0, 6.0];
    assert xs[..2] == [8.0, 0.0] && [8.0, 0.0][..1] == [8.0] && [8.0][..0] == [];
    assert Sum([8.0]) == 8.0;
    assert Sum([8.0, 0.0]) == 8.0;
    assert Sum(xs) == 14.0;
  }

  /** The downloadable report (interview.py:357-364) without its timestamp; the average is unformatted. */
  datatype ReportData = ReportData(
    questions: seq<string>,
    answers: seq<string>,
    evaluations: seq<string>,
    scores: seq<string>,
    averageScore: real)

  /** `evaluations` and `scores` are the two fields of the evaluation records, index by index. */
  function BuildReport(questions: seq<string>, answers: seq<string>, evaluations: seq<Evaluation>, averageScore: real)
    : (r: ReportData)
    ensures r.questions == questions && r.answers == answers && r.averageScore == averageScore
    ensures |r.evaluations| == |r.scores| == |evaluations|
    ensures forall i | 0 <= i < |evaluations| ::
      r.evaluations[i] == evaluations[i].evaluation && r.scores[i] == evaluations[i].score
  {
    ReportData(
      questions,
      answers,
      seq(|evaluations|, i requires 0 <= i < |evaluations| => evaluations[i].evaluation),
      seq(|evaluations|, i requires 0 <= i < |evaluations| => evaluations[i].score),
      averageScore)
  }

  /** Nothing of the evaluation records is lost: pairing the two report lists gives them back. */
  lemma ReportRecoversEvaluations(questions: seq<string>, answers: seq<string>, evaluations: seq<Evaluation>, averageScore: real)
    ensures var r := BuildReport(questions, answers, evaluations, averageScore);
      seq(|r.scores|, i requires 0 <= i < |r.scores| => Evaluation(r.scores[i], r.evaluations[i])) == evaluations
  {
  }
}
