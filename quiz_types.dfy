/** The records the quiz app passes between its parser, page and storage. */
module QuizTypes {
  import opened Wrappers

  /** One multiple-choice question with a single correct answer. */
  datatype Question = Question(
    id: string,
    question: string,
    correctAnswer: string,
    incorrectAnswers: seq<string>,
    allOptions: seq<string>)

  datatype Mode = Practice | Exam

  /** A quiz in progress; `answers` maps a question id to the chosen option. */
  datatype QuizSession = QuizSession(
    questions: seq<Question>,
    currentQuestionIndex: nat,
    answers: map<string, string>,
    mode: Mode,
    startTime: int,
    endTime: Option<int>,
    isCompleted: bool)

  /** A question answered wrongly, as listed in the statistics. */
  datatype IncorrectQuestion = IncorrectQuestion(
    question: string,
    correctAnswer: string,
    userAnswer: string)

  datatype QuizStats = QuizStats(
    totalQuestions: nat,
    correctAnswers: nat,
    incorrectAnswers: int,
    timeSpent: int,
    incorrectQuestions: seq<IncorrectQuestion>,
    score: int)

  /** The snapshot persisted so that a reload can resume a quiz. */
  datatype QuizProgress = QuizProgress(
    sessionId: string,
    session: QuizSession,
    lastUpdated: int)

  /** A session the page can render: it has questions and its index points at one. */
  predicate WellFormedSession(s: QuizSession) {
    s.currentQuestionIndex < |s.questions|
  }
}
