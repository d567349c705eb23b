/**
 The data and the pure rules of one quiz attempt: the question record the
 generator returns, the answer record kept per submission, the correctness
 test, the filter that keeps the parsed replies, and the completion tally.
 */
module Quiz {
  import opened Wrappers
  import opened PyText

  /** Number of generation attempts made when a test starts. */
  const ATTEMPTS: nat := 15

  /** The subjects the start screen offers. */
  const SUBJECTS: seq<string> := ["Polity", "History", "Geography", "Economy"]

  /** One generated multiple-choice question, as the JSON reply holds it. */
  datatype Question = Question(question: string, options: seq<string>, answer: string, explanation: string)

  /** What is kept of one submitted answer. */
  datatype AnswerRecord = AnswerRecord(question: string, selected: string, correct: string, isCorrect: bool, explanation: string)

  /** The Python exceptions the core can raise. */
  datatype Fault = IndexError | ZeroDivisionError

  /** The completion page's figures; `percent` is the exact ratio times 100, unrounded. */
  datatype Score = Score(correct: nat, total: nat, percent: real)

  /**
   `selected.strip()[0] == answer.strip()`: the first visible character of the
   selected option against the stripped answer label, case-sensitively. An
   all-blank selection makes the indexing raise.
   */
  function CheckAnswer(selected: string, answer: string): (r: Result<bool, Fault>)
    ensures r.Failure? <==> Strip(selected) == []
    ensures r.Failure? ==> r.error == IndexError
    ensures r == Success(true) <==>
      Strip(selected) != [] && |Strip(answer)| == 1 && Strip(selected)[0] == Strip(answer)[0]
  {
    var s := Strip(selected);
    if s == [] then Failure(IndexError) else Success([s[0]] == Strip(answer))
  }

  /** The selection raises exactly when it is empty or all whitespace. */
  lemma CheckAnswerRaisesIffBlank(selected: string, answer: string)
    ensures CheckAnswer(selected, answer).Failure? <==> AllSpace(selected)
  {
    StripEmptyIffAllSpace(selected);
  }

  /** An answer label that is not a single visible character never matches. */
  lemma LongLabelNeverMatches(selected: string, answer: string)
    requires |Strip(answer)| != 1
    ensures CheckAnswer(selected, answer) != Success(true)
  {
  }

  /** Whitespace around either text does not affect the verdict. */
  lemma CheckAnswerIgnoresPadding(p: string, selected: string, q: string, p': string, answer: string, q': string)
    requires AllSpace(p) && AllSpace(q) && AllSpace(p') && AllSpace(q')
    ensures CheckAnswer(p + selected + q, p' + answer + q') == CheckAnswer(selected, answer)
  {
    StripIgnoresPadding(p, selected, q);
    StripIgnoresPadding(p', answer, q');
    StripEmptyIffAllSpace(selected);
    StripEmptyIffAllSpace(p + selected + q);
  }

  /**
   For options written "<mark>. <text>" and a one-letter answer, the option
   is judged correct exactly when its mark is the answer key: among options
   with distinct marks only the one marked with the key is accepted.
   */
  lemma LabelledOptionJudged(mark: char, key: char, text: string)
    requires !IsSpace(mark) && !IsSpace(key)
    ensures CheckAnswer([mark] + text, [key]) == Success(mark == key)
  {
    StripKeepsFirstVisible(mark, text);
    StripUnique([], [key], []);
    assert [] + [key] + [] == [key];
    StripEmptyIffAllSpace([mark] + text);
  }

  /** The comparison is case-sensitive: option "b. ..." does not match answer "B". */
  lemma CheckAnswerIsCaseSensitive(text: string)
    ensures CheckAnswer(['b'] + text, "B") == Success(false)
  {
    LabelledOptionJudged('b', 'B', text);
  }

  /** The record a submission of `selected` to `q` appends, or the exception it raises. */
  function MakeRecord(q: Question, selected: string): (r: Result<AnswerRecord, Fault>)
    ensures r.Failure? <==> CheckAnswer(selected, q.answer).Failure?
    ensures r.Failure? ==> r.error == IndexError
    ensures r.Success? ==>
      && r.value.question == q.question && r.value.selected == selected
      && r.value.correct == q.answer && r.value.explanation == q.explanation
      && CheckAnswer(selected, q.answer) == Success(r.value.isCorrect)
  {
    match CheckAnswer(selected, q.answer)
    case Failure(e) => Failure(e)
    case Success(ok) => Success(AnswerRecord(q.question, selected, q.answer, ok, q.explanation))
  }

  /** `a` is the record that answering `q` with `a.selected` produces. */
  predicate Answers(a: AnswerRecord, q: Question) {
    MakeRecord(q, a.selected) == Success(a)
  }

  /** Each answer record was made from the question at its own position. */
  predicate AnswersMatch(answers: seq<AnswerRecord>, questions: seq<Question>) {
    |answers| <= |questions| && forall k :: 0 <= k < |answers| ==> Answers(answers[k], questions[k])
  }

  /** Answering the next question in order keeps the records matched to their questions. */
  lemma AnswersMatchAppend(answers: seq<AnswerRecord>, questions: seq<Question>, selected: string)
    requires AnswersMatch(answers, questions) && |answers| < |questions|
    requires MakeRecord(questions[|answers|], selected).Success?
    ensures AnswersMatch(answers + [MakeRecord(questions[|answers|], selected).value], questions)
  {
    var a := MakeRecord(questions[|answers|], selected).value;
    forall k | 0 <= k < |answers| + 1 ensures Answers((answers + [a])[k], questions[k]) {
      if k < |answers| {
        assert (answers + [a])[k] == answers[k];
      }
    }
  }

  /** The questions whose replies parsed, in the order the replies were issued. */
  function Parsed(replies: seq<Option<Question>>): (qs: seq<Question>)
    ensures |qs| <= |replies|
  {
    if replies == [] then []
    else
      var earlier := Parsed(replies[..|replies| - 1]);
      match replies[|replies| - 1]
      case Some(q) => earlier + [q]
      case None => earlier
  }

  /** Parsing distributes over concatenation: replies are kept in issue order. */
  lemma {:induction false} ParsedConcat(a: seq<Option<Question>>, b: seq<Option<Question>>)
    ensures Parsed(a + b) == Parsed(a) + Parsed(b)
  {
    if b == [] {
      assert a + b == a;
    } else {
      var b' := b[..|b| - 1];
      assert (a + b)[..|a + b| - 1] == a + b';
      assert (a + b)[|a + b| - 1] == b[|b| - 1];
      ParsedConcat(a, b');
    }
  }

  /** A question is kept exactly when some reply parsed to it. */
  lemma {:induction false} ParsedMembership(replies: seq<Option<Question>>, q: Question)
    ensures q in Parsed(replies) <==> Some(q) in replies
  {
    if replies != [] {
      var init := replies[..|replies| - 1];
      assert replies == init + [replies[|replies| - 1]];
      ParsedMembership(init, q);
    }
  }

  /** Nothing is kept exactly when every reply failed to parse. */
  lemma {:induction false} ParsedEmptyIffAllFailed(replies: seq<Option<Question>>)
    ensures Parsed(replies) == [] <==> forall i :: 0 <= i < |replies| ==> replies[i].None?
  {
    if replies != [] {
      var init := replies[..|replies| - 1];
      ParsedEmptyIffAllFailed(init);
      if Parsed(replies) == [] {
        forall i | 0 <= i < |replies| ensures replies[i].None? {
          if i < |init| { assert replies[i] == init[i]; }
        }
      }
    }
  }

  /** When every reply parses, every question is kept, at its own position. */
  lemma {:induction false} ParsedAllSucceeded(replies: seq<Option<Question>>)
    requires forall i :: 0 <= i < |replies| ==> replies[i].Some?
    ensures |Parsed(replies)| == |replies|
    ensures forall i :: 0 <= i < |replies| ==> Parsed(replies)[i] == replies[i].value
  {
    if replies != [] {
      var init := replies[..|replies| - 1];
      ParsedAllSucceeded(init);
    }
  }

  /** `sum(1 for a in answers if a["is_correct"])`. */
  function CountCorrect(answers: seq<AnswerRecord>): (n: nat)
    ensures n <= |answers|
  {
    if answers == [] then 0
    else CountCorrect(answers[..|answers| - 1]) + (if answers[|answers| - 1].isCorrect then 1 else 0)
  }

  /** Appending one record raises the count by one exactly when that record is correct. */
  lemma CountCorrectAppend(answers: seq<AnswerRecord>, a: AnswerRecord)
    ensures CountCorrect(answers + [a]) == CountCorrect(answers) + (if a.isCorrect then 1 else 0)
  {
    assert (answers + [a])[..|answers|] == answers;
  }

  /** Every answer is correct exactly when the count reaches the total. */
  lemma {:induction false} CountCorrectAllIff(answers: seq<AnswerRecord>)
    ensures CountCorrect(answers) == |answers| <==> forall k :: 0 <= k < |answers| ==> answers[k].isCorrect
  {
    if answers != [] {
      var init := answers[..|answers| - 1];
      CountCorrectAllIff(init);
      if CountCorrect(answers) == |answers| {
        forall k | 0 <= k < |answers| ensures answers[k].isCorrect {
          if k < |init| { assert answers[k] == init[k]; }
        }
      }
    }
  }

  /** No answer is correct exactly when the count is zero. */
  lemma {:induction false} CountCorrectNoneIff(answers: seq<AnswerRecord>)
    ensures CountCorrect(answers) == 0 <==> forall k :: 0 <= k < |answers| ==> !answers[k].isCorrect
  {
    if answers != [] {
      var init := answers[..|answers| - 1];
      CountCorrectNoneIff(init);
      if CountCorrect(answers) == 0 {
        forall k | 0 <= k < |answers| ensures !answers[k].isCorrect {
          if k < |init| { assert answers[k] == init[k]; }
        }
      }
    }
  }

  /** `(correct / total) * 100`, without the rounding to two places. */
  function Percent(correct: nat, total: nat): (p: real)
    requires total > 0
    ensures correct <= total ==> 0.0 <= p <= 100.0
    ensures p == 100.0 <==> correct == total
    ensures p == 0.0 <==> correct == 0
  {
    var ratio := correct as real / total as real;
    assert ratio * total as real == correct as real;
    ratio * 100.0
  }

  /**
   The completion figures as the script computes them: with no recorded
   answers the division raises.
   */
  function ScoreAsWritten(answers: seq<AnswerRecord>): (r: Result<Score, Fault>)
    ensures r.Failure? <==> answers == []
    ensures r.Failure? ==> r.error == ZeroDivisionError
    ensures r.Success? ==>
      && r.value.total == |answers| && r.value.correct <= r.value.total
      && r.value.correct == CountCorrect(answers)
      && r.value.percent == Percent(r.value.correct, r.value.total)
      && 0.0 <= r.value.percent <= 100.0
  {
    var total := |answers|;
    var correct := CountCorrect(answers);
    if total == 0 then Failure(ZeroDivisionError)
    else Success(Score(correct, total, Percent(correct, total)))
  }

  /**
   The completion figures with an empty test reported as 0 out of 0 at 0%;
   wherever the script's figures exist, these are the same.
   */
  function ScoreReport(answers: seq<AnswerRecord>): (s: Score)
    ensures s.total == |answers| && s.correct <= s.total
    ensures s.correct == CountCorrect(answers)
    ensures answers != [] ==> s.percent == Percent(s.correct, s.total)
    ensures answers == [] ==> s.percent == 0.0
    ensures 0.0 <= s.percent <= 100.0
    ensures s.percent == 100.0 <==> answers != [] && s.correct == s.total
    ensures answers != [] ==> ScoreAsWritten(answers) == Success(s)
  {
    var total := |answers|;
    var correct := CountCorrect(answers);
    if total == 0 then Score(0, 0, 0.0) else Score(correct, total, Percent(correct, total))
  }

  /** The percentage is 100 exactly when the test was not empty and every answer was right. */
  lemma FullMarksIff(answers: seq<AnswerRecord>)
    ensures ScoreReport(answers).percent == 100.0 <==>
      answers != [] && forall k :: 0 <= k < |answers| ==> answers[k].isCorrect
  {
    CountCorrectAllIff(answers);
  }

  /**
   If all generation attempts fail, no question is kept, nothing can be
   answered, and the script's completion figures raise ZeroDivisionError.
   */
  lemma AllRepliesFailedRaises(replies: seq<Option<Question>>)
    requires forall i :: 0 <= i < |replies| ==> replies[i].None?
    ensures Parsed(replies) == []
    ensures ScoreAsWritten([]) == Failure(ZeroDivisionError)
    ensures ScoreReport([]) == Score(0, 0, 0.0)
  {
    ParsedEmptyIffAllFailed(replies);
  }
}
