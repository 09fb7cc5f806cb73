# AI Interview Trainer — a Dafny model of its core

AI Interview Trainer is a Streamlit page (`interview.py`). The candidate:

1. uploads a resume and pastes a job description;
2. gets interview questions written by a language model;
3. answers them one at a time, each answer being scored and commented on by the model;
4. reads a report with the average score.

This project models the parts of that page that decide what is stored and shown:

- **Reply parsing** (`responses.dfy`):
  - how a question list is read out of the model's reply;
  - how a score is read out of an evaluation text;
  - the record `evaluate_answer` returns, including its error record.
- **The session wizard** (`wizard.dfy`). The class `Wizard.Session` holds the session keys the page keeps between reruns. Its methods are:
  - the upload step;
  - answer submission;
  - the step-2 page render that moves on to the report;
  - the report;
  - "Start New Interview".

  The invariant `Valid` keeps answers, evaluations and the question index in lockstep.
- **The report numbers** (`scoring.dfy`):
  - the scores loop;
  - the average, with unparseable scores counted as 0;
  - the index-aligned report lists.
- **Python's string operations** that all of the above rests on (`text.dfy`):
  - `str.strip()` with Python's whitespace set;
  - `str.split(sep)`;
  - the substring test `pat in s`.

A model call is an `Option<string>`: `None` when the call raised, the reply text otherwise. Python's `float()` is a parameter `parseNumber: string -> Option<real>`, which yields `None` where `float()` raises; the values it cannot express are listed under "Left out". The outside world reaches `Session` only through method parameters:

- whether a file was uploaded;
- the extracted resume text;
- whether the model client could be set up;
- the model's replies.

## Model

| member | source | states |
|---|---|---|
| Text.Strip | interview.py:87 | `s.strip()` is empty exactly when `s` is all whitespace; otherwise it neither starts nor ends with whitespace |
| Text.StripSlice | interview.py:87 | the stripped text is a slice `s[i..j]` with only whitespace cut off at either end |
| Text.StripUnique | interview.py:87 | whatever whitespace surrounds an already stripped text, stripping gives that text back |
| Text.StripPadded | interview.py:86 | whitespace glued to either end of a text does not change its stripped form |
| Text.StripIdempotent | interview.py:87 | stripping twice is stripping once |
| Text.StripKeeps | interview.py:87 | every character of the stripped text occurs in the original |
| Text.Split | interview.py:86 | `s.split(sep)` always has at least one piece, even for an empty `s` |
| Text.SplitPieces | interview.py:86 | no piece of `s.split(sep)` holds `sep` |
| Text.JoinSplit | interview.py:86 | joining the pieces of `s.split(sep)` with `sep` gives `s` back |
| Text.SplitJoin | interview.py:86 | splitting a join of separator-free pieces gives the pieces back |
| Text.SplitConcat | interview.py:86 | the pieces of `x + y` are those of `x` and `y`, with the last of `x` and the first of `y` glued together |
| Text.SplitNoSeparator | interview.py:86 | a text without the separator splits into itself alone |
| Text.SplitKeeps | interview.py:124 | every character of a piece occurs in the original text |
| Text.SplitHasSecond | interview.py:124 | a text holding the separator has a second piece, so `split(':')[1]` exists on a `Score:` line |
| Text.SplitSecond | interview.py:124 | the second piece is the text between the first and the second separator |
| Text.SplitAtFirst | interview.py:124 | the first piece ends at the first separator, and the rest splits on its own |
| Text.Contains | interview.py:123 | `pat in s`, defined as `pat` being a prefix of `s` or contained in its tail; it holds only when `pat` is no longer than `s` |
| Text.ContainsAt | interview.py:123 | `pat in s` holds when `pat` occurs at some position of `s` |
| Text.ContainsFound | interview.py:123 | conversely, when `pat in s` holds, `pat` occurs at some position of `s`; with `ContainsAt` this pins `in` down in both directions |
| Text.ContainsChar | interview.py:123 | a text holding `Score:` holds each of its characters, in particular a colon |
| Responses.IsBlank | interview.py:87 | defines a dropped line as one made only of whitespace |
| Responses.IsBlankStripsEmpty | interview.py:87 | a line is dropped exactly when `q.strip()` is empty, the false string of `if q.strip()` |
| Responses.KeepNonBlank | interview.py:87 | the comprehension `[q.strip() for q in lines if q.strip()]`; it never yields more questions than there are lines |
| Responses.KeepNonBlankStripped | interview.py:87 | every question the comprehension keeps is a non-empty stripped text |
| Responses.KeepNonBlankLength | interview.py:87 | exactly the non-blank lines survive: as many questions as non-blank lines |
| Responses.KeepNonBlankAt | interview.py:87 | the non-blank line at index `i` becomes, stripped, the question whose position is the number of non-blank lines before it (order kept) |
| Responses.KeepNonBlankAppend | interview.py:87 | the comprehension distributes over concatenated line lists |
| Responses.KeepNonBlankOfBlanks | interview.py:87 | blank lines alone give no questions |
| Responses.ParseQuestions | interview.py:86-87 | every parsed question is non-empty, stripped and a single line |
| Responses.ParseQuestionsOfRawLines | interview.py:86-87 | stripping the whole reply before splitting changes nothing: the questions are the non-blank lines of the raw reply, stripped, in order |
| Responses.GenerateQuestions | interview.py:84-91 | a raising model call gives no questions; otherwise the questions are the stripped non-blank lines of the reply |
| Responses.FirstScoreLine | interview.py:123-124 | `None` exactly when no line holds `Score:`; otherwise the index of the first line that does |
| Responses.ScoreField | interview.py:124 | the text between the first and second colon, stripped, holds no colon and no line break |
| Responses.ExtractScore | interview.py:122-124 | `N/A` when no line holds `Score:`; otherwise a colon-free, single-line, stripped text |
| Responses.ExtractScoreOfLine | interview.py:123-124 | the score is the stripped text between the first and second colon of the first `Score:` line |
| Responses.ExtractScoreOfRequestedFormat | interview.py:112-113 | a reply opening with the requested line `Score: X` is scored `X`, whatever follows |
| Responses.ExtractScoreReadsFirstColon | interview.py:124 | the line is cut at its first colon, not at `Score:`: on a line `heading: Score: ...` the score is the word `Score` |
| Responses.EvaluateAnswer | interview.py:118-132 | a raising call gives the record (`N/A`, `Error in evaluation`); otherwise the evaluation is the stripped reply and the score is extracted from it |
| Scoring.ScoreValue | interview.py:328-333 | defines one score's number: `parseNumber` of the text before the first `/`, or 0 when that does not parse (its meaning is proved in `ScoreValueOfFraction` and `NoScoreIsZero`) |
| Scoring.ScoreValues | interview.py:326-333 | defines the list `scores`: one `ScoreValue` per evaluation, in order |
| Scoring.Sum | interview.py:335 | defines Python's `sum` over the scores, adding from the left (bounded in `SumBounds`) |
| Scoring.Mean | interview.py:335 | defines `sum(scores) / len(scores) if scores else 0` (bounded in `MeanBounds`, evaluated in `MeanOfMixedScores`) |
| Scoring.ScoreValueOfFraction | interview.py:328-333 | a score `n/d` is worth the number `n` reads as, or 0 when `n` does not parse |
| Scoring.NoScoreIsZero | interview.py:330-333 | an unscored answer (`N/A`) counts as 0 |
| Scoring.AverageScore | interview.py:326-335 | one number per evaluation, in order, each the parsed numerator or 0; the average is their mean, 0 when there are none |
| Scoring.SumBounds | interview.py:335 | a sum of values in `[lo, hi]` lies between `n*lo` and `n*hi` |
| Scoring.MeanBounds | interview.py:335 | scores that all lie in a range average to a number in that range |
| Scoring.MeanOfMixedScores | interview.py:326-335 | scores `8/10`, `N/A`, `6/10` average to 14/3 |
| Scoring.BuildReport | interview.py:357-364 | the report's evaluation and score lists are the two fields of the evaluation records, index by index |
| Scoring.ReportRecoversEvaluations | interview.py:361-362 | pairing the report's score and evaluation lists gives the evaluation records back |
| Wizard.HasText | interview.py:249 | defines `if resume_text:`: the extraction produced a text that is not empty (a whitespace-only text passes, as in Python) |
| Wizard.Session.constructor | interview.py:142-163 | a fresh session: step 1, no questions, index 0, no answers or evaluations, empty texts and key |
| Wizard.Session.SetApiKey | interview.py:172-173 | a non-empty key entry replaces the stored key; an empty one leaves it |
| Wizard.Session.SubmitUpload | interview.py:231-269 | the checks in order (key, file, job description, client, extraction, questions); resume and job description are stored once extraction succeeds; step 2 with the generated questions exactly when all checks pass; otherwise the step and the questions are unchanged |
| Wizard.Session.SubmitAnswer | interview.py:293-312 | a blank answer or a client that cannot be set up changes nothing; otherwise exactly one answer and one evaluation are appended and the index advances by one, keeping `|answers| == |evaluations| == index <= |questions|` |
| Wizard.Session.ShowInterview | interview.py:313-316 | the page turns into the report exactly when every question is answered |
| Wizard.Session.BuildSessionReport | interview.py:326-364 | the report lists questions, answers, evaluations and scores index-aligned, all as long as the question list, with the mean score |
| Wizard.Session.Reset | interview.py:184-188 | every key but the API key returns to its default; the key is kept |
| Wizard.DeleteAllExcept | interview.py:185-187 | the deletion loop leaves exactly the kept key, if it was there, with its value |

## Left out

- The Streamlit layout, widgets, messages, spinners and the progress metric (interview.py:176-180) are not modelled. They only display state.
- PDF and image text extraction (PyPDF2, OpenCV, Tesseract) is not modelled. Its result is the `extracted` parameter of `SubmitUpload`, with `None` standing for a failed extraction.
- The Gemini client and the prompt texts are not modelled. This includes the slider's question count and the 500-character context cuts, which only shape a prompt. The client set-up is the `trainerReady` flag, and each reply is an `Option<string>`.
- Python's `float()` is not modelled; it is the `parseNumber` parameter. The `%.1f/10` formatting of the average is not modelled either: the report carries the average as an exact `real`.
- Scoring.ScoreValue: `parseNumber` returns an exact `real` or nothing, so the values `float()` accepts that are not real numbers are not modelled. `float("nan")` and `float("inf")` succeed in Python, so a reply `Score: nan/10` makes the source's average `nan` (and `inf/10` makes it infinite); the model has no such value.
- Scoring.AverageScore: the sum and the division are exact `real` arithmetic; the rounding of Python's floating-point `sum(scores) / len(scores)` is not modelled, so the model's average can differ from the source's in the last bits.
- The report's timestamp, its JSON encoding and the download file name are not modelled.
- Wizard.Session.Reset: `st.rerun()` and the re-initialisation at the top of the next run are merged into one step. The session's own keys are fields, so the generic deletion loop is modelled separately as `Wizard.DeleteAllExcept` over a key store. Keys set by widgets are not part of the model.
- Python's `str.strip()` is modelled with Python's whitespace set for `str`. Unicode handling beyond single code points is not modelled.
