/**
  The quiz page (`Index` in src/pages/Index.tsx). Its React state hooks are the
  fields of `QuizApp`; each handler is a method, and the exam timer's interval
  callback is one call of `Tick`. Wall-clock readings are the `now`
  parameters and the shuffle's random choices are the `draws` parameters.
*/
module QuizPage {
  import opened Wrappers
  import opened TextUtil
  import opened QuizTypes
  import opened RandomOrder
  import opened QuizScoring
  import opened QuizStorage

  datatype AppState = Home | Upload | ModeSelect | Quiz | Results

  /** Seconds allowed per question in exam mode. */
  const SecondsPerQuestion: nat := 120

  /** JavaScript truthiness of an optional string (`null` and `""` are falsy). */
  predicate Present(s: Option<string>) {
    s.Some? && s.value != ""
  }

  /** The progress record saved by `startQuiz` and `handleNextQuestion`. */
  function ProgressAt(session: QuizSession, now: nat): QuizProgress {
    QuizProgress("session_" + NatToString(now), session, now)
  }

  /** The session `startQuiz` creates. */
  function FreshSession(shuffled: seq<Question>, mode: Mode, now: nat): QuizSession {
    QuizSession(shuffled, 0, map[], mode, now, None, false)
  }

  class QuizApp {
    var appState: AppState
    var questions: seq<Question>
    var quizSession: Option<QuizSession>
    var currentAnswer: Option<string>
    var showResult: bool
    var quizStats: Option<QuizStats>
    var timeRemaining: Option<int>
    /** The browser storage the page reads and writes. */
    const store: Store

    ghost predicate Valid()
      reads this, store
    {
      && store.Valid()
      && (quizSession.Some? ==> WellFormedSession(quizSession.value) && questions != [])
      && (appState == Quiz ==> quizSession.Some?)
      && (appState == Results ==> quizStats.Some?)
      && (timeRemaining.Some? ==> timeRemaining.value >= 0)
    }

    /** The exam interval is installed only for an unfinished exam on the quiz screen. */
    predicate TimerRunning()
      reads this
    {
      quizSession.Some? && quizSession.value.mode == Exam && appState == Quiz && !quizSession.value.isCompleted
    }

    /** The initial state of the hooks. */
    constructor (store: Store)
      requires store.Valid()
      ensures Valid()
      ensures this.store == store
      ensures appState == Home && questions == [] && quizSession == None && currentAnswer == None
      ensures !showResult && quizStats == None && timeRemaining == None
    {
      this.store := store;
      appState := Home;
      questions := [];
      quizSession := None;
      currentAnswer := None;
      showResult := false;
      quizStats := None;
      timeRemaining := None;
    }

    /** The mount effect: an unfinished saved session is resumed on the quiz screen. */
    method ResumeOnMount()
      requires Valid()
      modifies this
      ensures Valid()
      ensures var saved := ReadProgress(store.entries, store.readable);
              if saved.Some? && !saved.value.session.isCompleted then
                && questions == saved.value.session.questions
                && quizSession == Some(saved.value.session)
                && appState == Quiz
              else
                questions == old(questions) && quizSession == old(quizSession) && appState == old(appState)
      ensures currentAnswer == old(currentAnswer) && showResult == old(showResult)
      ensures quizStats == old(quizStats) && timeRemaining == old(timeRemaining)
    {
      var savedProgress := store.LoadQuizProgress();
      if savedProgress.Some? && !savedProgress.value.session.isCompleted {
        questions := savedProgress.value.session.questions;
        quizSession := Some(savedProgress.value.session);
        appState := Quiz;
      }
    }

    /** `handleQuestionsLoaded`: keeps the parsed questions and asks for a mode. */
    method HandleQuestionsLoaded(loadedQuestions: seq<Question>)
      requires Valid() && loadedQuestions != []
      modifies this
      ensures Valid()
      ensures questions == loadedQuestions && appState == ModeSelect
      ensures quizSession == old(quizSession) && currentAnswer == old(currentAnswer) && showResult == old(showResult)
      ensures quizStats == old(quizStats) && timeRemaining == old(timeRemaining)
    {
      questions := loadedQuestions;
      appState := ModeSelect;
    }

    /** `startQuiz`: a fresh session over a shuffled copy of the questions,
        saved as progress. */
    method StartQuiz(mode: Mode, now: nat, draws: seq<nat>)
      requires Valid() && questions != []
      modifies this, store
      ensures Valid()
      ensures quizSession.Some?
      ensures var s := quizSession.value;
              && s == FreshSession(s.questions, mode, now)
              && multiset(s.questions) == multiset(questions)
              && |s.questions| == |questions|
      ensures questions == old(questions)
      ensures appState == Quiz && currentAnswer == None && !showResult && quizStats == old(quizStats)
      ensures timeRemaining == if mode == Exam then Some(SecondsPerQuestion * |questions|) else old(timeRemaining)
      ensures store.entries == SavedEntries(old(store.entries), store.writable, ProgressAt(quizSession.value, now))
    {
      var shuffledQuestions := Shuffle(questions, draws);
      var session := FreshSession(shuffledQuestions, mode, now);
      quizSession := Some(session);
      currentAnswer := None;
      showResult := false;
      appState := Quiz;
      if mode == Exam {
        timeRemaining := Some(|shuffledQuestions| * SecondsPerQuestion);
      }
      store.SaveQuizProgress(ProgressAt(session, now));
    }

    /** `handleAnswerSelect`: records the pending answer; practice mode also
        reveals the result. The deferred advance is a later `HandleNextQuestion`
        call made by the caller. */
    method HandleAnswerSelect(answer: string)
      requires Valid()
      modifies this
      ensures Valid()
      ensures currentAnswer == if old(quizSession).None? then old(currentAnswer) else Some(answer)
      ensures showResult == (old(showResult) || (old(quizSession).Some? && old(quizSession).value.mode == Practice))
      ensures appState == old(appState) && questions == old(questions) && quizSession == old(quizSession)
      ensures quizStats == old(quizStats) && timeRemaining == old(timeRemaining)
    {
      if quizSession.None? {
        return;
      }
      currentAnswer := Some(answer);
      if quizSession.value.mode == Practice {
        showResult := true;
      }
    }

    /** `handleQuizComplete`: scores the answers (the given ones, or the
        session's), shows the results, appends the statistics to the history
        and clears the saved progress. */
    method HandleQuizComplete(finalAnswers: Option<map<string, string>>, now: nat)
      requires Valid()
      modifies this, store
      ensures Valid()
      ensures old(quizSession).None? ==> appState == old(appState) && quizStats == old(quizStats) && store.entries == old(store.entries)
      ensures old(quizSession).Some? ==>
                var s := old(quizSession).value;
                var answers := if finalAnswers.Some? then finalAnswers.value else s.answers;
                var stats := ComputeStats(s.questions, answers, s.startTime, now);
                && quizStats == Some(stats)
                && appState == Results
                && store.entries == CompletedEntries(old(store.entries), store.readable, store.writable, store.removable, stats, now)
      ensures questions == old(questions) && quizSession == old(quizSession)
      ensures currentAnswer == old(currentAnswer) && unchanged(this`showResult)
      ensures timeRemaining == old(timeRemaining)
    {
      if quizSession.None? {
        return;
      }
      var session := quizSession.value;
      var answers := if finalAnswers.Some? then finalAnswers.value else session.answers;
      var stats := ScoreQuiz(session.questions, answers, session.startTime, now);
      quizStats := Some(stats);
      appState := Results;
      RecordCompletion(stats, now);
    }

    /** The storage half of `handleQuizComplete`: `addQuizStats`, then
        `clearQuizProgress`. */
    method RecordCompletion(stats: QuizStats, now: nat)
      requires store.Valid()
      modifies store
      ensures store.Valid()
      ensures store.entries == CompletedEntries(old(store.entries), store.readable, store.writable, store.removable, stats, now)
    {
      store.AddQuizStats(stats, now);
      store.ClearQuizProgress();
    }

    /** `handleNextQuestion`: stores the answer (the argument if non-empty,
        else the pending one) under the current question, then either advances
        or, on the last question, completes the quiz. */
    method HandleNextQuestion(answer: Option<string>, now: nat)
      requires Valid()
      modifies this, store
      ensures Valid()
      ensures var toSave := if Present(answer) then answer else old(currentAnswer);
              old(quizSession).None? || !Present(toSave) ==>
                && appState == old(appState) && questions == old(questions) && quizSession == old(quizSession)
                && currentAnswer == old(currentAnswer) && showResult == old(showResult)
                && quizStats == old(quizStats) && timeRemaining == old(timeRemaining)
                && store.entries == old(store.entries)
      ensures var toSave := if Present(answer) then answer else old(currentAnswer);
              old(quizSession).Some? && Present(toSave) ==>
                var s := old(quizSession).value;
                var updatedAnswers := s.answers[s.questions[s.currentQuestionIndex].id := toSave.value];
                if s.currentQuestionIndex == |s.questions| - 1 then
                  var stats := ComputeStats(s.questions, updatedAnswers, s.startTime, now);
                  && quizStats == Some(stats)
                  && appState == Results
                  && quizSession == old(quizSession)
                  && currentAnswer == old(currentAnswer) && showResult == old(showResult)
                  && store.entries == CompletedEntries(old(store.entries), store.readable, store.writable, store.removable, stats, now)
                else
                  var next := s.(currentQuestionIndex := s.currentQuestionIndex + 1, answers := updatedAnswers);
                  && quizSession == Some(next)
                  && currentAnswer == None && !showResult
                  && appState == old(appState) && quizStats == old(quizStats)
                  && store.entries == SavedEntries(old(store.entries), store.writable, ProgressAt(next, now))
      ensures questions == old(questions) && timeRemaining == old(timeRemaining)
    {
      if quizSession.None? {
        return;
      }
      var answerToSave := if Present(answer) then answer else currentAnswer;
      if !Present(answerToSave) {
        return;
      }
      var session := quizSession.value;
      var currentQuestion := session.questions[session.currentQuestionIndex];
      var updatedAnswers := session.answers[currentQuestion.id := answerToSave.value];
      var isLastQuestion := session.currentQuestionIndex >= |session.questions| - 1;
      if isLastQuestion {
        HandleQuizComplete(Some(updatedAnswers), now);
      } else {
        var updatedSession := session.(currentQuestionIndex := session.currentQuestionIndex + 1, answers := updatedAnswers);
        quizSession := Some(updatedSession);
        currentAnswer := None;
        showResult := false;
        store.SaveQuizProgress(ProgressAt(updatedSession, now));
      }
    }

    /** One call of the exam interval's callback: 1 completes the quiz and
        becomes 0, larger values count down, 0 and unset become unset. */
    method Tick(now: nat)
      requires Valid()
      modifies this, store
      ensures Valid()
      ensures !old(TimerRunning()) ==>
                && appState == old(appState) && quizStats == old(quizStats) && timeRemaining == old(timeRemaining)
                && store.entries == old(store.entries)
      ensures old(TimerRunning()) && old(timeRemaining) == Some(1) ==>
                var s := old(quizSession).value;
                var stats := ComputeStats(s.questions, s.answers, s.startTime, now);
                && quizStats == Some(stats)
                && appState == Results
                && timeRemaining == Some(0)
                && store.entries == CompletedEntries(old(store.entries), store.readable, store.writable, store.removable, stats, now)
      ensures old(TimerRunning()) && old(timeRemaining).Some? && old(timeRemaining).value > 1 ==>
                && timeRemaining == Some(old(timeRemaining).value - 1)
                && appState == old(appState) && quizStats == old(quizStats) && store.entries == old(store.entries)
      ensures old(TimerRunning()) && (old(timeRemaining) == None || old(timeRemaining) == Some(0)) ==>
                && timeRemaining == None
                && appState == old(appState) && quizStats == old(quizStats) && store.entries == old(store.entries)
      ensures questions == old(questions) && quizSession == old(quizSession)
      ensures currentAnswer == old(currentAnswer) && showResult == old(showResult)
    {
      if !TimerRunning() {
        return;
      }
      var prev := timeRemaining;
      if prev.Some? && prev.value != 0 && prev.value <= 1 {
        HandleQuizComplete(None, now);
        timeRemaining := Some(0);
      } else if prev.Some? && prev.value != 0 {
        timeRemaining := Some(prev.value - 1);
      } else {
        timeRemaining := None;
      }
    }

    /** `handleRestart`: a new quiz in the same mode over the loaded questions. */
    method HandleRestart(now: nat, draws: seq<nat>)
      requires Valid()
      modifies this, store
      ensures Valid()
      ensures old(quizSession).None? ==>
                && appState == old(appState) && quizSession == None
                && currentAnswer == old(currentAnswer) && showResult == old(showResult)
                && timeRemaining == old(timeRemaining)
                && store.entries == old(store.entries)
      ensures old(quizSession).Some? ==>
                && quizSession.Some?
                && quizSession.value == FreshSession(quizSession.value.questions, old(quizSession).value.mode, now)
                && multiset(quizSession.value.questions) == multiset(questions)
                && |quizSession.value.questions| == |questions|
                && appState == Quiz && currentAnswer == None && !showResult
                && timeRemaining == (if old(quizSession).value.mode == Exam then Some(SecondsPerQuestion * |questions|) else old(timeRemaining))
                && store.entries == SavedEntries(old(store.entries), store.writable, ProgressAt(quizSession.value, now))
      ensures questions == old(questions) && quizStats == old(quizStats)
    {
      if quizSession.Some? {
        StartQuiz(quizSession.value.mode, now, draws);
      }
    }

    /** `handleNewQuiz`: back to the home screen with everything reset and
        the saved progress cleared. */
    method HandleNewQuiz()
      requires Valid()
      modifies this, store
      ensures Valid()
      ensures appState == Home && questions == [] && quizSession == None && quizStats == None
      ensures currentAnswer == None && !showResult && timeRemaining == None
      ensures store.entries == if store.removable then old(store.entries) - {StorageKey} else old(store.entries)
    {
      appState := Home;
      questions := [];
      quizSession := None;
      quizStats := None;
      currentAnswer := None;
      showResult := false;
      timeRemaining := None;
      store.ClearQuizProgress();
    }
  }
}
