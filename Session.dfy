/**
 The per-browser-session state of the quiz and the three handlers that
 change it: starting a test, submitting an answer and restarting.
 */
module QuizSession {
  import opened Wrappers
  import opened Quiz

  /** What pressing "Submit Answer" does. */
  datatype SubmitOutcome =
    | Recorded(isCorrect: bool)  // one record appended, index advanced
    | NotOffered                 // no question is on screen, so there is no submit button
    | Raised(fault: Fault)       // the handler raised before changing anything

  class Session {
    var quizStarted: bool
    var subject: Option<string>
    var questions: seq<Question>
    var answers: seq<AnswerRecord>
    var currentIndex: nat

    /**
     The state machine's invariant: one record per answered question, each
     made from the question at its own position, and an untouched session
     while no test is running.
     */
    ghost predicate Valid()
      reads this
    {
      && currentIndex == |answers| <= |questions| <= ATTEMPTS
      && (quizStarted <==> subject.Some?)
      && (subject.Some? ==> subject.value in SUBJECTS)
      && (!quizStarted ==> questions == [] && answers == [])
      && AnswersMatch(answers, questions)
    }

    /** Every field at the value it gets on the first run of the script. */
    predicate IsInitial()
      reads this
    {
      !quizStarted && subject == None && questions == [] && answers == [] && currentIndex == 0
    }

    /** A question is on screen waiting for an answer. */
    predicate Pending(): (b: bool)
      reads this
      ensures Valid() ==> (b <==> quizStarted && |answers| < |questions|)
    {
      quizStarted && currentIndex < |questions|
    }

    /** The completion page is shown. */
    predicate Completed(): (b: bool)
      reads this
      ensures Valid() ==> (b <==> quizStarted && |answers| == |questions|)
    {
      quizStarted && currentIndex >= |questions|
    }

    constructor ()
      ensures Valid() && IsInitial()
    {
      quizStarted := false;
      questions := [];
      answers := [];
      currentIndex := 0;
      subject := None;
    }

    /** Replace the questions by the replies that parsed, in issue order. */
    method GenerateQuestions(replies: seq<Option<Question>>)
      requires |replies| == ATTEMPTS
      modifies this`questions
      ensures questions == Parsed(replies)
    {
      questions := [];
      for i := 0 to ATTEMPTS
        invariant questions == Parsed(replies[..i])
      {
        assert replies[..i + 1][..i] == replies[..i];
        match replies[i]
        case Some(q) => questions := questions + [q];
        case None =>
      }
      assert replies[..ATTEMPTS] == replies;
    }

    /**
     "Start Test": record the subject, mark the test running and generate
     the questions from the oracle's replies. Only offered before a test runs.
     */
    method Start(chosen: string, replies: seq<Option<Question>>) returns (started: bool)
      requires Valid()
      requires chosen in SUBJECTS
      requires |replies| == ATTEMPTS
      modifies this
      ensures Valid()
      ensures started == !old(quizStarted)
      ensures started ==>
        && quizStarted && subject == Some(chosen) && questions == Parsed(replies)
        && answers == [] && currentIndex == 0
      ensures !started ==>
        && quizStarted == old(quizStarted) && subject == old(subject)
        && questions == old(questions) && answers == old(answers) && currentIndex == old(currentIndex)
    {
      if quizStarted {
        return false;
      }
      subject := Some(chosen);
      quizStarted := true;
      GenerateQuestions(replies);
      started := true;
    }

    /**
     "Submit Answer" with the option text `selected`: judge it against the
     current question, append its record and move to the next question.
     */
    method Submit(selected: string) returns (r: SubmitOutcome)
      requires Valid()
      modifies this`answers, this`currentIndex
      ensures Valid()
      ensures !old(Pending()) ==>
        r == NotOffered && answers == old(answers) && currentIndex == old(currentIndex)
      ensures old(Pending()) ==>
        match MakeRecord(old(questions[currentIndex]), selected)
        case Success(a) =>
          r == Recorded(a.isCorrect) && answers == old(answers) + [a] && currentIndex == old(currentIndex) + 1
        case Failure(e) =>
          r == Raised(e) && answers == old(answers) && currentIndex == old(currentIndex)
    {
      if currentIndex >= |questions| || !quizStarted {
        return NotOffered;
      }
      var q := questions[currentIndex];
      match MakeRecord(q, selected)
      case Failure(e) =>
        r := Raised(e);
      case Success(a) =>
        AnswersMatchAppend(answers, questions, selected);
        answers := answers + [a];
        currentIndex := currentIndex + 1;
        r := Recorded(a.isCorrect);
    }

    /**
     "Restart Quiz": every field back to its initial value. The button is
     only on the completion page, so elsewhere nothing changes.
     */
    method Reset() returns (restarted: bool)
      requires Valid()
      modifies this
      ensures Valid()
      ensures restarted == old(Completed())
      ensures restarted ==> IsInitial()
      ensures !restarted ==>
        && quizStarted == old(quizStarted) && subject == old(subject)
        && questions == old(questions) && answers == old(answers) && currentIndex == old(currentIndex)
    {
      if !Completed() {
        return false;
      }
      quizStarted := false;
      questions := [];
      answers := [];
      currentIndex := 0;
      subject := None;
      restarted := true;
    }

    /**
     Whether the script as written gets as far as the restart button: it must
     be on the completion page and survive the percentage's division.
     */
    predicate RestartOfferedAsWritten(): (b: bool)
      reads this
      ensures Valid() ==> (b <==> quizStarted && |answers| == |questions| && answers != [])
    {
      Completed() && ScoreAsWritten(answers).Success?
    }

    /**
     The completion page's figures, once every question has been answered,
     with an empty test reported as 0 of 0 at 0% rather than raising.
     */
    function Summary(): (r: Option<Score>)
      reads this
      requires Valid()
      ensures r.Some? <==> Completed()
      ensures r.Some? ==>
        && r.value.total == |answers| == |questions|
        && r.value.correct <= r.value.total
        && r.value == ScoreReport(answers)
        && 0.0 <= r.value.percent <= 100.0
    {
      if Completed() then Some(ScoreReport(answers)) else None
    }
  }

  /**
   The empty test: when all fifteen replies fail to parse, a started session
   is at once on its completion page with nothing answered. There the
   script's own division raises, before the restart button is reached, so
   the session can never be restarted; the corrected report gives 0 of 0 and
   the restart goes through.
   */
  method AllRepliesFailedScenario()
    returns (asWritten: Result<Score, Fault>, restartAsWritten: bool, report: Option<Score>, restarted: bool)
    ensures asWritten == Failure(ZeroDivisionError)
    ensures !restartAsWritten
    ensures report == Some(Score(0, 0, 0.0))
    ensures restarted
  {
    var session := new Session();
    var replies: seq<Option<Question>> := seq(ATTEMPTS, _ => None);
    var started := session.Start("Polity", replies);
    AllRepliesFailedRaises(replies);
    assert session.Completed() && session.answers == [];
    asWritten := ScoreAsWritten(session.answers);
    restartAsWritten := session.RestartOfferedAsWritten();
    report := session.Summary();
    restarted := session.Reset();
  }
}
