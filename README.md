# UPSC MCQ quiz: session state machine

`app.py` is a Streamlit script. It asks a hosted language model for fifteen
multiple-choice questions on a chosen subject, shows them one at a time,
records each submitted answer and shows a score on completion. Without the
rendering, what remains is a small state machine over five session fields:
`quiz_started`, `subject`, `questions`, `answers` and `current_index`. It has
three handlers: start a test, submit an answer, restart.

This project models that state machine in Dafny:

- `Wrappers.dfy` holds `Option` and `Result`.
- `PyText.dfy` models Python's `str.strip()`. It uses the exact set of code
  points for which `str.isspace()` is true.
- `Quiz.dfy` holds the question and answer records and the pure rules:
  - the correctness test `selected.strip()[0] == answer.strip()`;
  - the filter that keeps only the replies that parsed, in issue order;
  - the count of correct answers;
  - the completion figures.
- `Session.dfy` holds the `Session` class:
  - its five fields and its invariant `Valid()`;
  - the start handler, whose question generation is a loop over the fifteen
    replies;
  - the submit and restart handlers.

The invariant says that `current_index == |answers| <= |questions| <= 15`.
It also says that the k-th answer record is exactly the record that
submitting its selected text to `questions[k]` produces, and that nothing is
filled in while no test is running. Every handler preserves it.

The language model and `json.loads` are replaced by an oracle. Each of the
fifteen attempts gives an `Option<Question>`, where `None` is a reply that
failed to parse. The subject comes from the four-entry select box. Submitted
text is any string.

Exceptions become values:
- `IndexError` is raised when the selected text is blank after stripping. It
  becomes `Raised(IndexError)` and leaves the state unchanged, because the
  handler raises before it appends anything.
- `ZeroDivisionError` is raised on the completion page of an empty test. See
  Findings.

A handler whose button is not on screen is modelled as doing nothing: `Start`
returns `false` while a test is running, `Submit`
returns `NotOffered` without a question on screen, and `Reset` returns `false`
off the completion page. On the completion page of an empty test the script as
written raises before it shows the restart button; the model's `Reset` runs
there too, which is the corrected behaviour (see Findings and
`RestartOfferedAsWritten`).

## Model

| member | source | states |
|---|---|---|
| `QuizSession.Session.constructor` | app.py:33-42 | a fresh session is not started, has no subject, no questions, no answers, index 0, and satisfies the invariant |
| `QuizSession.Session.Reset` | app.py:57-62 | on the completion page, the only place the restart button is shown, restarting puts all five fields back to exactly the fresh-session values; anywhere else nothing changes; the invariant holds either way (the corrected gate: on an empty test the script as written never reaches the button, see `RestartOfferedAsWritten` and Findings) |
| `QuizSession.Session.GenerateQuestions` | app.py:45-53 | the question list is first emptied, then holds exactly the replies that parsed, in issue order; no other field changes |
| `QuizSession.Session.Start` | app.py:74-77 | starting when no test runs sets the started flag and the chosen subject, keeps no answers at index 0, and makes the questions the parsed replies; if a test already runs, nothing changes; the invariant holds either way |
| `QuizSession.Session.Submit` | app.py:83-98 | with no question on screen, nothing changes; a blank selection raises IndexError and nothing changes; otherwise exactly the current question's record is appended and the index rises by exactly one; the invariant `current_index == len(answers) <= len(questions)` is kept |
| `QuizSession.Session.Pending` | app.py:83 | a question is on screen exactly when the test is started and fewer answers are recorded than there are questions |
| `QuizSession.Session.Completed` | app.py:101 | the completion page is shown exactly when the test is started and every question has its answer record |
| `QuizSession.Session.RestartOfferedAsWritten` | app.py:101-118 | true exactly on the completion page of a non-empty test; on an empty test the script raises at line 106, before the button at line 118 |
| `QuizSession.Session.Summary` | app.py:101-106 | the corrected completion figures (see Findings): they exist exactly on the completion page (started and index at or past the end) and are `ScoreReport(answers)` there, so an empty test gives 0 of 0 at 0% where the script raises; the total equals both the number of answers and the number of questions, correct is at most total, and the percentage is in [0, 100] |
| `QuizSession.AllRepliesFailedScenario` | app.py:45-53 | a session started with fifteen failed replies is at once on its completion page with no answers; the script's figures raise ZeroDivisionError there, so its restart button is never reached; the corrected report gives 0 of 0 at 0% and the restart succeeds |
| `PyText.IsSpace` | app.py:90 | the code points for which Python's `str.isspace()` is true: ASCII letters, digits and the period of an option label are never whitespace; space, tab, newline and carriage return are |
| `PyText.LeadingSpaces` | app.py:90 | the count of leading characters removed by strip: all of them are whitespace, and the next character, if any, is not |
| `PyText.TrailingSpaces` | app.py:90 | the count of trailing characters removed by strip: all of them are whitespace, and the one before them, if any, is not |
| `PyText.Strip` | app.py:90 | the result is a contiguous slice of the input with only whitespace outside it, and it neither starts nor ends with whitespace |
| `PyText.StripEmptyIffAllSpace` | app.py:90 | strip yields the empty string exactly when the input is empty or all whitespace |
| `PyText.StripUnique` | app.py:90 | strip is determined by its contract: any text that neither starts nor ends with whitespace, padded with whitespace on both sides, strips back to itself |
| `PyText.StripIdempotent` | app.py:90 | stripping twice is the same as stripping once |
| `PyText.StripIgnoresPadding` | app.py:90 | extra whitespace around a text does not change what it strips to |
| `PyText.StripKeepsFirstVisible` | app.py:90 | a text that starts with a visible character strips to a non-empty text that starts with that character |
| `Quiz.CheckAnswer` | app.py:90 | the check raises IndexError exactly when the stripped selection is empty; it answers true exactly when the stripped answer label is one character long and equals the first character of the stripped selection (case-sensitive) |
| `Quiz.CheckAnswerRaisesIffBlank` | app.py:90 | the check raises exactly when the selected text is empty or all whitespace |
| `Quiz.LongLabelNeverMatches` | app.py:90 | an answer label that is not a single character after stripping can never be judged correct |
| `Quiz.CheckAnswerIgnoresPadding` | app.py:90 | whitespace around the selection or the label does not change the verdict |
| `Quiz.LabelledOptionJudged` | app.py:90 | for an option "<mark><text>" and a one-letter answer key, both visible characters, the verdict is true exactly when the mark is the key; so among options with distinct marks only the one marked with the key is accepted |
| `Quiz.CheckAnswerIsCaseSensitive` | app.py:90 | option "b..." is judged wrong against answer "B" |
| `Quiz.MakeRecord` | app.py:90-97 | the submission raises IndexError exactly when the check does; otherwise the record copies question, answer (as correct) and explanation from the question, keeps the selected text verbatim, and its is_correct is the check's verdict |
| `Quiz.AnswersMatchAppend` | app.py:84-97 | appending the record of the next question in order keeps every record matched to the question at its own position |
| `Quiz.Parsed` | app.py:46-51 | never more questions are kept than there were replies |
| `Quiz.ParsedConcat` | app.py:47-51 | keeping parsed replies commutes with concatenation; together with the one-reply cases this fixes that questions are kept in issue order |
| `Quiz.ParsedMembership` | app.py:49-51 | a question is kept exactly when some reply parsed to it |
| `Quiz.ParsedEmptyIffAllFailed` | app.py:49-53 | no question is kept exactly when every reply failed to parse |
| `Quiz.ParsedAllSucceeded` | app.py:47-51 | when every reply parses, all are kept, each at its own position |
| `Quiz.CountCorrect` | app.py:105 | the number of correct records is at most the number of records |
| `Quiz.CountCorrectAppend` | app.py:105 | one more record raises the count by one exactly when that record is correct |
| `Quiz.CountCorrectAllIff` | app.py:105 | the count equals the total exactly when every record is correct |
| `Quiz.CountCorrectNoneIff` | app.py:105 | the count is zero exactly when no record is correct |
| `Quiz.Percent` | app.py:106 | for a positive total and correct at most total, the percentage lies in [0, 100]; it is 100 exactly when correct equals total and 0 exactly when correct is 0 |
| `Quiz.ScoreAsWritten` | app.py:103-106 | the script's figures raise ZeroDivisionError exactly when there are no answers; otherwise total is the number of answers, correct is the number of records marked correct (at most total), and the percentage is correct / total times 100, in [0, 100] |
| `Quiz.ScoreReport` | app.py:103-106 | the corrected figures always exist; total is the number of answers, correct is the number of records marked correct (at most total), the percentage is correct / total times 100 for a non-empty test and 0 for an empty one, lies in [0, 100] and is 100 only for a non-empty, fully correct test; whenever the script's figures exist, they are these |
| `Quiz.FullMarksIff` | app.py:104-106 | the percentage is 100 exactly when the test is non-empty and every answer is correct |
| `Quiz.AllRepliesFailedRaises` | app.py:45-53 | fifteen failed replies keep no question; the script's figures for no answers raise ZeroDivisionError, and the corrected report is 0 of 0 at 0% |

## Left out

- Rendering: titles, the radio and select widgets, buttons, expanders, the review list and `st.rerun`. Each script run is modelled as the handler call it makes.
- The Groq/LangChain client, the prompt template and the API key (app.py:1-29). These are network and foreign-library code, so each generation attempt is an oracle reply.
- `json.loads` and the strip of the reply text before it (app.py:50) are part of that oracle. The model sees only whether the reply parsed.
- A reply that parses to something other than a question object raises later in the script: KeyError for a missing key, TypeError when the JSON value is not an object (a list, number or string indexed by `q["question"]` at app.py:86), AttributeError for a non-string answer. An empty options list makes the radio widget return None, so the strip at app.py:90 raises AttributeError; a non-string option fails the same way. The oracle yields only well-formed `Question` values, and the model does not capture these failures.
- An exception raised by the model call itself (app.py:48 is outside the try block) would abort the start with the flag set and the question list partly filled. The model's oracle always answers.
- The print of a parse failure (app.py:53). It is logging only.
- The radio widget only ever returns one of the question's options. `Submit` accepts any string, which is more general.
- QuizSession.Session.Start: requires `chosen in SUBJECTS` and exactly fifteen replies. The select box and the fixed loop guarantee both.
- Quiz.Percent: the exact ratio times 100. It does not model the floating-point `round(..., 2)` of app.py:106.
- Skipping a question, negative marking and a cached question bank do not occur in app.py. They are not modelled.

## Findings

| source | as written | input that shows it | evidently intended | confidence | as-written member | corrected member |
|---|---|---|---|---|---|---|
| app.py:104-106 | the completion page divides the correct count by the total with no guard, so an empty test raises ZeroDivisionError; the run stops before the restart button at app.py:118, so that session can never be restarted | start a test where all fifteen replies fail to parse: the question list is empty, the completion page shows at once, total is 0 | an empty test is reported as 0 of 0 at 0% | high; not executed | `Quiz.ScoreAsWritten` (with `QuizSession.Session.RestartOfferedAsWritten`, `Quiz.AllRepliesFailedRaises` and `QuizSession.AllRepliesFailedScenario`) | `Quiz.ScoreReport`, used by `QuizSession.Session.Summary`, which lets `QuizSession.Session.Reset` run on an empty test |
