/**
  Reading the language model's replies: the question list of
  `generate_interview_questions` and the score/evaluation record of `evaluate_answer`.
  A model call is an `Option<string>`: `None` when the call raised, otherwise the reply text.
 */
module Responses {
  import opened Wrappers
  import opened Text

  const ScoreMarker: string := "Score:"
  const NoScore: string := "N/A"
  const FailedEvaluation: string := "Error in evaluation"

  /** The record `evaluate_answer` returns, `{'score': ..., 'evaluation': ...}`. */
  datatype Evaluation = Evaluation(score: string, evaluation: string)

  /** A line Python treats as false once stripped (`Strip(line) == []`, see `Strip`). */
  predicate IsBlank(line: string) {
    AllSpace(line)
  }

  /** A line is dropped exactly when `line.strip()` is the empty, false string. */
  lemma IsBlankStripsEmpty(line: string)
    ensures IsBlank(line) <==> Strip(line) == []
  {
  }

  function NonBlankCount(lines: seq<string>): nat {
    if lines == [] then 0 else (if IsBlank(lines[0]) then 0 else 1) + NonBlankCount(lines[1..])
  }

  /** `[q.strip() for q in lines if q.strip()]` */
  function KeepNonBlank(lines: seq<string>): (qs: seq<string>)
    ensures |qs| <= |lines|
  {
    if lines == [] then []
    else if IsBlank(lines[0]) then KeepNonBlank(lines[1..])
    else [Strip(lines[0])] + KeepNonBlank(lines[1..])
  }

  /** Every question the comprehension keeps is a non-empty stripped text. */
  lemma {:induction false} KeepNonBlankStripped(lines: seq<string>)
    ensures forall k | 0 <= k < |KeepNonBlank(lines)| :: IsStripped(KeepNonBlank(lines)[k])
  {
    if lines != [] {
      KeepNonBlankStripped(lines[1..]);
    }
  }

  /** The comprehension distributes over concatenation of line lists. */
  lemma {:induction false} KeepNonBlankAppend(xs: seq<string>, ys: seq<string>)
    ensures KeepNonBlank(xs + ys) == KeepNonBlank(xs) + KeepNonBlank(ys)
  {
    if xs != [] {
      assert (xs + ys)[0] == xs[0] && (xs + ys)[1..] == xs[1..] + ys;
      KeepNonBlankAppend(xs[1..], ys);
    } else {
      assert xs + ys == ys;
    }
  }

  /** Exactly the non-blank lines survive: one question per non-blank line. */
  lemma {:induction false} KeepNonBlankLength(lines: seq<string>)
    ensures |KeepNonBlank(lines)| == NonBlankCount(lines)
  {
    if lines != [] {
      KeepNonBlankLength(lines[1..]);
    }
  }

  /**
    In order: the non-blank line at index `i` becomes question number
    "non-blank lines before it", stripped.
   */
  lemma {:induction false} KeepNonBlankAt(lines: seq<string>, i: nat)
    requires i < |lines| && !IsBlank(lines[i])
    ensures NonBlankCount(lines[..i]) < |KeepNonBlank(lines)|
    ensures KeepNonBlank(lines)[NonBlankCount(lines[..i])] == Strip(lines[i])
  {
    if i == 0 {
      assert lines[..0] == [];
    } else {
      KeepNonBlankAt(lines[1..], i - 1);
      assert lines[..i][0] == lines[0] && lines[..i][1..] == lines[1..][..i - 1];
    }
  }

  lemma {:induction false} KeepNonBlankOfBlanks(lines: seq<string>)
    requires forall k | 0 <= k < |lines| :: AllSpace(lines[k])
    ensures KeepNonBlank(lines) == []
  {
    if lines != [] {
      KeepNonBlankOfBlanks(lines[1..]);
    }
  }

  /** Every piece of a blank text is blank. */
  lemma {:induction false} SplitOfBlank(w: string, sep: char)
    requires AllSpace(w)
    ensures forall k | 0 <= k < |Split(w, sep)| :: AllSpace(Split(w, sep)[k])
  {
    if w != [] {
      assert w == [w[0]] + w[1..];
      AllSpaceConcat([w[0]], w[1..]);
      SplitOfBlank(w[1..], sep);
      var rest := Split(w[1..], sep);
      AllSpaceConcat([w[0]], rest[0]);
    }
  }

  /** Whitespace glued to either end of a line changes neither its blankness nor its stripped text. */
  lemma KeepNonBlankPadded(w: string, p: string, v: string)
    requires AllSpace(w) && AllSpace(v)
    ensures KeepNonBlank([w + p + v]) == KeepNonBlank([p])
  {
    StripPadded(w, p, v);
    AllSpaceConcat(w, p);
    AllSpaceConcat(w + p, v);
    assert [w + p + v][1..] == [] && [p][1..] == [];
  }

  /** Blank lines before, and whitespace glued to the front of the first line, add no question. */
  lemma KeepNonBlankGlueLeft(front: seq<string>, w: string, S: seq<string>)
    requires forall k | 0 <= k < |front| :: AllSpace(front[k])
    requires AllSpace(w) && |S| >= 1
    ensures KeepNonBlank(front + [w + S[0]] + S[1..]) == KeepNonBlank(S)
  {
    var x := w + S[0];
    KeepNonBlankOfBlanks(front);
    var none: string := [];
    KeepNonBlankPadded(w, S[0], none);
    assert w + S[0] + none == x;
    var a := KeepNonBlank([x]);
    KeepNonBlankAppend(front + [x], S[1..]);
    KeepNonBlankAppend(front, [x]);
    assert KeepNonBlank(front + [x]) == a by { assert [] + a == a; }
    KeepNonBlankAppend([S[0]], S[1..]);
    FirstSplit(S);
  }

  /** Whitespace glued to the end of the last line, and lines after it that keep nothing, add no question. */
  lemma KeepNonBlankGlueRight(S: seq<string>, v: string, back: seq<string>)
    requires KeepNonBlank(back) == []
    requires AllSpace(v) && |S| >= 1
    ensures KeepNonBlank(S[..|S| - 1] + [S[|S| - 1] + v] + back) == KeepNonBlank(S)
  {
    var front, last := S[..|S| - 1], S[|S| - 1];
    var y := last + v;
    var A, B, C := KeepNonBlank(front), KeepNonBlank([y]), KeepNonBlank([last]);
    KeepNonBlankDropTail(front + [y], back);
    KeepNonBlankAppend(front, [y]);
    KeepNonBlankTrailing(last, v);
    assert B == C;
    KeepNonBlankAppend(front, [last]);
    LastSplit(S);
    assert KeepNonBlank(S) == A + C;
    assert KeepNonBlank(front + [y]) == A + B;
  }

  lemma KeepNonBlankDropTail(xs: seq<string>, back: seq<string>)
    requires KeepNonBlank(back) == []
    ensures KeepNonBlank(xs + back) == KeepNonBlank(xs)
  {
    KeepNonBlankAppend(xs, back);
    assert KeepNonBlank(xs) + [] == KeepNonBlank(xs);
  }

  lemma KeepNonBlankTrailing(line: string, v: string)
    requires AllSpace(v)
    ensures KeepNonBlank([line + v]) == KeepNonBlank([line])
  {
    var none: string := [];
    assert AllSpace(none) && none + line == line;
    KeepNonBlankPadded(none, line, v);
  }

  /** Leading whitespace before the reply adds no question. */
  lemma KeepNonBlankPadLeft(w: string, s: string)
    requires AllSpace(w)
    ensures KeepNonBlank(Split(w + s, '\n')) == KeepNonBlank(Split(s, '\n'))
  {
    var W := Split(w, '\n');
    SplitConcat(w, s, '\n');
    SplitOfBlank(w, '\n');
    KeepNonBlankGlueLeft(W[..|W| - 1], W[|W| - 1], Split(s, '\n'));
  }

  /** Trailing whitespace after the reply adds no question. */
  lemma KeepNonBlankPadRight(s: string, v: string)
    requires AllSpace(v)
    ensures KeepNonBlank(Split(s + v, '\n')) == KeepNonBlank(Split(s, '\n'))
  {
    var V := Split(v, '\n');
    SplitConcat(s, v, '\n');
    SplitOfBlank(v, '\n');
    KeepNonBlankOfBlanks(V[1..]);
    KeepNonBlankGlueRight(Split(s, '\n'), V[0], V[1..]);
  }

  /** `response.text.strip().split('\n')` followed by the comprehension (interview.py:86-87). */
  function ParseQuestions(reply: string): (qs: seq<string>)
    ensures forall k | 0 <= k < |qs| :: IsStripped(qs[k]) && '\n' !in qs[k]
  {
    var lines := Split(Strip(reply), '\n');
    SplitPieces(Strip(reply), '\n');
    QuestionsFromLines(lines);
    KeepNonBlankStripped(lines);
    KeepNonBlank(lines)
  }

  /** Every question is a stripped piece of some line, so no question spans two lines. */
  lemma {:induction false} QuestionsFromLines(lines: seq<string>)
    requires forall k | 0 <= k < |lines| :: '\n' !in lines[k]
    ensures forall k | 0 <= k < |KeepNonBlank(lines)| :: '\n' !in KeepNonBlank(lines)[k]
  {
    if lines != [] {
      QuestionsFromLines(lines[1..]);
      if '\n' in Strip(lines[0]) {
        StripKeeps(lines[0], '\n');
      }
    }
  }

  /** Stripping the whole reply first changes nothing: the questions are the non-blank lines of the raw reply. */
  lemma ParseQuestionsOfRawLines(reply: string)
    ensures ParseQuestions(reply) == KeepNonBlank(Split(reply, '\n'))
  {
    var i, j := StripSlice(reply);
    var w, m, v := reply[..i], Strip(reply), reply[j..];
    assert ParseQuestions(reply) == KeepNonBlank(Split(m, '\n'));
    SliceParts(reply, i, j);
    KeepNonBlankPadLeft(w, m + v);
    KeepNonBlankPadRight(m, v);
  }

  /** `generate_interview_questions`: the parsed reply, or no questions when the model call raised. */
  function GenerateQuestions(reply: Option<string>): (qs: seq<string>)
    ensures reply.None? ==> qs == []
    ensures reply.Some? ==> qs == KeepNonBlank(Split(reply.value, '\n'))
    ensures forall k | 0 <= k < |qs| :: IsStripped(qs[k]) && '\n' !in qs[k]
  {
    match reply
    case None => []
    case Some(text) =>
      ParseQuestionsOfRawLines(text);
      ParseQuestions(text)
  }

  /** The index of the first line holding `Score:`, if any. */
  function FirstScoreLine(lines: seq<string>): (r: Option<nat>)
    ensures r.None? ==> forall j | 0 <= j < |lines| :: !Contains(lines[j], ScoreMarker)
    ensures r.Some? ==> r.value < |lines| && Contains(lines[r.value], ScoreMarker)
    ensures r.Some? ==> forall j | 0 <= j < r.value :: !Contains(lines[j], ScoreMarker)
  {
    if lines == [] then None
    else if Contains(lines[0], ScoreMarker) then Some(0)
    else match FirstScoreLine(lines[1..])
      case None => None
      case Some(i) => Some(i + 1)
  }

  /** `line.split(':')[1].strip()`, defined because a line holding `Score:` holds a colon. */
  function ScoreField(line: string): (field: string)
    requires Contains(line, ScoreMarker)
    ensures ':' !in field
    ensures '\n' !in line ==> '\n' !in field
    ensures field == [] || IsStripped(field)
  {
    ContainsChar(line, ScoreMarker, 5);
    SplitHasSecond(line, ':');
    ScoreFieldChars(line);
    Strip(Split(line, ':')[1])
  }

  lemma ScoreFieldChars(line: string)
    requires |Split(line, ':')| >= 2
    ensures ':' !in Strip(Split(line, ':')[1])
    ensures '\n' !in line ==> '\n' !in Strip(Split(line, ':')[1])
  {
    var piece := Split(line, ':')[1];
    SplitPieces(line, ':');
    if ':' in Strip(piece) {
      StripKeeps(piece, ':');
    }
    if '\n' in Strip(piece) {
      StripKeeps(piece, '\n');
      SplitKeeps(line, ':', 1, '\n');
    }
  }

  /**
    The score of an evaluation text (interview.py:123-124): the stripped text between the
    first and the second colon of the first line holding `Score:`, or `N/A` when no line does.
   */
  function ExtractScore(evaluation: string): (score: string)
    ensures (forall j | 0 <= j < |Split(evaluation, '\n')| :: !Contains(Split(evaluation, '\n')[j], ScoreMarker))
      ==> score == NoScore
    ensures score == NoScore || (':' !in score && '\n' !in score && (score == [] || IsStripped(score)))
  {
    var lines := Split(evaluation, '\n');
    match FirstScoreLine(lines)
    case None => NoScore
    case Some(i) =>
      SplitPieces(evaluation, '\n');
      ScoreField(lines[i])
  }

  /** The score is read from the first `Score:` line, between its first and second colon. */
  lemma ExtractScoreOfLine(evaluation: string, i: nat, before: string, field: string, after: string)
    requires var lines := Split(evaluation, '\n');
      i < |lines| && Contains(lines[i], ScoreMarker)
      && (forall j | 0 <= j < i :: !Contains(lines[j], ScoreMarker))
      && lines[i] == before + [':'] + field + after
    requires ':' !in before && ':' !in field && (after == [] || after[0] == ':')
    ensures ExtractScore(evaluation) == Strip(field)
  {
    var lines := Split(evaluation, '\n');
    var r := FirstScoreLine(lines);
    assert r.Some?;
    assert r.value == i;
    SplitSecond(before, field, after, ':');
  }

  /** `evaluate_answer` (interview.py:118-132): the record built from the model's reply. */
  function EvaluateAnswer(reply: Option<string>): (e: Evaluation)
    ensures reply.None? ==> e == Evaluation(NoScore, FailedEvaluation)
    ensures reply.Some? ==> e.evaluation == Strip(reply.value) && e.score == ExtractScore(e.evaluation)
    ensures e.evaluation == [] || IsStripped(e.evaluation)
    ensures e.score == NoScore || ':' !in e.score
  {
    match reply
    case None => Evaluation(NoScore, FailedEvaluation)
    case Some(text) =>
      var evaluation := Strip(text);
      Evaluation(ExtractScore(evaluation), evaluation)
  }

  /** A reply that opens with the requested `Score: X` line is scored `X`, whatever follows. */
  lemma ExtractScoreOfRequestedFormat(x: string, rest: string)
    requires IsStripped(x) && ':' !in x && '\n' !in x
    ensures ExtractScore("Score: " + x + "\n" + rest) == x
  {
    var line := "Score: " + x;
    assert "Score: " + x + "\n" + rest == line + ("\n" + rest);
    assert '\n' !in line;
    SplitAtFirst(line, rest, '\n');
    assert line[..6] == ScoreMarker;
    assert line == "Score" + [':'] + ([' '] + x) + [];
    ExtractScoreOfLine("Score: " + x + "\n" + rest, 0, "Score", [' '] + x, []);
    StripOneSpace(x);
  }

  /**
    The score is cut at the first colon of its line, not at `Score:`: on a line
    `heading: Score: ...` the score is the word `Score`.
   */
  lemma ExtractScoreReadsFirstColon(heading: string, tail: string)
    requires ':' !in heading && '\n' !in heading && '\n' !in tail
    ensures ExtractScore(heading + ": Score:" + tail) == "Score"
  {
    var line := heading + ": Score:" + tail;
    assert IsStripped("Score");
    StripOneSpace("Score");
    FirstColonLineShape(heading, tail);
    SplitNoSeparator(line, '\n');
    ContainsAt(line, ScoreMarker, |heading| + 2);
    ExtractScoreOfLine(line, 0, heading, [' '] + "Score", [':'] + tail);
  }

  /** The pieces of a line `heading: Score:tail`: one line, the marker after the first colon. */
  lemma FirstColonLineShape(heading: string, tail: string)
    requires '\n' !in heading && '\n' !in tail
    ensures var line := heading + ": Score:" + tail;
      '\n' !in line
      && |heading| + 8 <= |line| && line[|heading| + 2..|heading| + 8] == ScoreMarker
      && line == heading + [':'] + ([' '] + "Score") + ([':'] + tail)
  {
    var line := heading + ": Score:" + tail;
    assert line[|heading| + 2..|heading| + 8] == ScoreMarker;
    assert line == heading + [':'] + ([' '] + "Score") + ([':'] + tail);
  }
}
