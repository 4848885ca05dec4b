/**
  Scoring at the end of a quiz (`handleQuizComplete` in src/pages/Index.tsx):
  the answers recorded by question id are compared with each question's single
  correct answer, and the totals, the list of wrongly answered questions, the
  time spent and the rounded percentage are computed.
*/
module QuizScoring {
  import opened QuizTypes

  /** `answers[question.id] === question.correctAnswer`. */
  predicate IsCorrect(q: Question, answers: map<string, string>) {
    q.id in answers && answers[q.id] == q.correctAnswer
  }

  /** Answered, with a non-empty answer, but wrongly: such a question is listed. */
  predicate IsListedMiss(q: Question, answers: map<string, string>) {
    !IsCorrect(q, answers) && q.id in answers && answers[q.id] != ""
  }

  /** Not answered (or with an empty answer): counted as incorrect, but not listed. */
  predicate IsUnanswered(q: Question, answers: map<string, string>) {
    !IsCorrect(q, answers) && (q.id !in answers || answers[q.id] == "")
  }

  /** The entry pushed for a listed miss. */
  function MissOf(q: Question, answers: map<string, string>): IncorrectQuestion
    requires q.id in answers
  {
    IncorrectQuestion(q.question, q.correctAnswer, answers[q.id])
  }

  /** How many of the questions were answered correctly. */
  function CorrectCount(qs: seq<Question>, answers: map<string, string>): (c: nat)
    ensures c <= |qs|
  {
    if qs == [] then 0
    else CorrectCount(qs[..|qs| - 1], answers) + (if IsCorrect(qs[|qs| - 1], answers) then 1 else 0)
  }

  /** The listed misses, in question order. There are no more of them than
      there are incorrectly answered questions. */
  function Misses(qs: seq<Question>, answers: map<string, string>): (m: seq<IncorrectQuestion>)
    ensures |m| + CorrectCount(qs, answers) <= |qs|
  {
    if qs == [] then []
    else
      var last := qs[|qs| - 1];
      Misses(qs[..|qs| - 1], answers) + (if IsListedMiss(last, answers) then [MissOf(last, answers)] else [])
  }

  /** How many questions have no (non-empty) answer. */
  function UnansweredCount(qs: seq<Question>, answers: map<string, string>): nat {
    if qs == [] then 0
    else UnansweredCount(qs[..|qs| - 1], answers) + (if IsUnanswered(qs[|qs| - 1], answers) then 1 else 0)
  }

  /** Every question is exactly one of: correct, listed miss, unanswered. */
  lemma {:induction false} OutcomesPartition(qs: seq<Question>, answers: map<string, string>)
    ensures CorrectCount(qs, answers) + |Misses(qs, answers)| + UnansweredCount(qs, answers) == |qs|
  {
    if qs != [] {
      OutcomesPartition(qs[..|qs| - 1], answers);
    }
  }

  /** The correct count is the number of questions whose stored answer is the correct one. */
  lemma {:induction false} CorrectCountIsCardinality(qs: seq<Question>, answers: map<string, string>)
    ensures CorrectCount(qs, answers) == |set i | 0 <= i < |qs| && IsCorrect(qs[i], answers)|
  {
    if qs != [] {
      var n := |qs| - 1;
      var init := qs[..n];
      CorrectCountIsCardinality(init, answers);
      var before := set i | 0 <= i < n && IsCorrect(init[i], answers);
      var after := set i | 0 <= i < |qs| && IsCorrect(qs[i], answers);
      if IsCorrect(qs[n], answers) {
        assert after == before + {n};
      } else {
        assert after == before;
      }
    }
  }

  /** All questions are correct exactly when the correct count is the total. */
  lemma {:induction false} AllCorrectIff(qs: seq<Question>, answers: map<string, string>)
    ensures CorrectCount(qs, answers) == |qs| <==> forall i :: 0 <= i < |qs| ==> IsCorrect(qs[i], answers)
  {
    if qs != [] {
      var n := |qs| - 1;
      AllCorrectIff(qs[..n], answers);
      if forall i :: 0 <= i < |qs| ==> IsCorrect(qs[i], answers) {
        assert forall i :: 0 <= i < n ==> IsCorrect(qs[..n][i], answers);
      }
      if CorrectCount(qs, answers) == |qs| {
        assert CorrectCount(qs[..n], answers) == n;
        forall i | 0 <= i < |qs| ensures IsCorrect(qs[i], answers) {
          if i < n {
            assert qs[..n][i] == qs[i];
          }
        }
      }
    }
  }

  /** Misses keep question order: the misses of a concatenation are the
      misses of each part, one after the other. */
  lemma {:induction false} MissesAppend(a: seq<Question>, b: seq<Question>, answers: map<string, string>)
    ensures Misses(a + b, answers) == Misses(a, answers) + Misses(b, answers)
  {
    if b == [] {
      assert a + b == a;
    } else {
      var n := |b| - 1;
      var ab := a + b;
      var last := if IsListedMiss(b[n], answers) then [MissOf(b[n], answers)] else [];
      assert ab[..|ab| - 1] == a + b[..n];
      assert ab[|ab| - 1] == b[n];
      MissesAppend(a, b[..n], answers);
      assert Misses(ab, answers) == Misses(a, answers) + Misses(b[..n], answers) + last;
      assert Misses(b, answers) == Misses(b[..n], answers) + last;
    }
  }

  /** A single question is listed exactly when it was answered wrongly. */
  lemma MissesOfOne(q: Question, answers: map<string, string>)
    ensures Misses([q], answers) == if IsListedMiss(q, answers) then [MissOf(q, answers)] else []
  {
    assert [q][..0] == [];
  }

  /** `Math.round(correct / total * 100)`, computed exactly: the integer
      nearest to 100 * correct / total, halves rounded up. */
  function RoundedPercent(correct: nat, total: nat): (score: int)
    requires 0 < total && correct <= total
    ensures 0 <= score <= 100
    ensures total * (2 * score - 1) <= 200 * correct < total * (2 * score + 1)
  {
    var x := 200 * correct + total;
    var d := 2 * total;
    DivBounds(x, d);
    assert x < d * 101;
    DivBelow(x, d, 101);
    x / d
  }

  lemma DivBounds(x: int, d: int)
    requires 0 <= x && 0 < d
    ensures 0 <= x / d && d * (x / d) <= x < d * (x / d) + d
  {
  }

  lemma DivBelow(x: int, d: int, k: int)
    requires 0 <= x < d * k && 0 < d
    ensures x / d < k
  {
    DivBounds(x, d);
    if x / d >= k {
      MulMonotone(d, k, x / d);
    }
  }

  lemma MulMonotone(d: int, a: int, b: int)
    requires 0 < d && a <= b
    ensures d * a <= d * b
  {
  }

  /** The score is 100 exactly when at least 99.5% of the answers are correct. */
  lemma PerfectScoreIff(correct: nat, total: nat)
    requires 0 < total && correct <= total
    ensures RoundedPercent(correct, total) == 100 <==> 200 * correct >= 199 * total
  {
    var s := RoundedPercent(correct, total);
    if 200 * correct >= 199 * total && s < 100 {
      MulMonotone(total, 2 * s + 1, 199);
    }
  }

  /** Below 200 questions, the score is 100 exactly when every answer is correct. */
  lemma PerfectScoreIffAllCorrect(correct: nat, total: nat)
    requires 0 < total < 200 && correct <= total
    ensures RoundedPercent(correct, total) == 100 <==> correct == total
  {
    PerfectScoreIff(correct, total);
  }

  /** With 200 questions, one wrong answer still shows as 100 (99.5 rounds up). */
  lemma OneMissInTwoHundredShowsPerfect()
    ensures RoundedPercent(199, 200) == 100
  {
  }

  /** The score is 0 exactly when fewer than 0.5% of the answers are correct. */
  lemma ZeroScoreIff(correct: nat, total: nat)
    requires 0 < total && correct <= total
    ensures RoundedPercent(correct, total) == 0 <==> 200 * correct < total
  {
    var s := RoundedPercent(correct, total);
    if 200 * correct < total && s > 0 {
      MulMonotone(total, 1, 2 * s - 1);
    }
  }

  /** `Math.floor((endTime - startTime) / 1000)`: whole seconds elapsed, rounded down. */
  function TimeSpent(startTime: int, endTime: int): (t: int)
    ensures 1000 * t <= endTime - startTime < 1000 * t + 1000
  {
    (endTime - startTime) / 1000
  }

  /** The statistics object `handleQuizComplete` builds. */
  function ComputeStats(qs: seq<Question>, answers: map<string, string>, startTime: int, endTime: int): (stats: QuizStats)
    requires |qs| > 0
    ensures stats.totalQuestions == |qs|
    ensures stats.correctAnswers + stats.incorrectAnswers == stats.totalQuestions
    ensures 0 <= |stats.incorrectQuestions| <= stats.incorrectAnswers
    ensures 0 <= stats.score <= 100
  {
    var correct := CorrectCount(qs, answers);
    QuizStats(|qs|, correct, |qs| - correct, TimeSpent(startTime, endTime),
              Misses(qs, answers), RoundedPercent(correct, |qs|))
  }

  /** The statistics `handleQuizComplete` builds: the elapsed whole seconds,
      the scoring loop's counts and misses, and the rounded score. */
  method ScoreQuiz(qs: seq<Question>, answers: map<string, string>, startTime: int, endTime: int)
    returns (stats: QuizStats)
    requires |qs| > 0
    ensures stats == ComputeStats(qs, answers, startTime, endTime)
  {
    var timeSpent := TimeSpent(startTime, endTime);
    var correctCount, incorrectQuestions := ScoreAnswers(qs, answers);
    var total := |qs|;
    stats := QuizStats(total, correctCount, total - correctCount, timeSpent,
                       incorrectQuestions, RoundedPercent(correctCount, total));
  }

  /** The incorrect count is the listed misses plus the unanswered questions. */
  lemma IncorrectCountSplits(qs: seq<Question>, answers: map<string, string>, startTime: int, endTime: int)
    requires |qs| > 0
    ensures var stats := ComputeStats(qs, answers, startTime, endTime);
            stats.incorrectAnswers == |stats.incorrectQuestions| + UnansweredCount(qs, answers)
  {
    OutcomesPartition(qs, answers);
  }

  /** The `forEach` over the questions that counts correct answers and collects misses. */
  method ScoreAnswers(qs: seq<Question>, answers: map<string, string>)
    returns (correctCount: nat, incorrectQuestions: seq<IncorrectQuestion>)
    ensures correctCount == CorrectCount(qs, answers)
    ensures incorrectQuestions == Misses(qs, answers)
  {
    correctCount := 0;
    incorrectQuestions := [];
    for i := 0 to |qs|
      invariant correctCount == CorrectCount(qs[..i], answers)
      invariant incorrectQuestions == Misses(qs[..i], answers)
    {
      assert qs[..i + 1][..i] == qs[..i];
      var question := qs[i];
      if question.id in answers && answers[question.id] == question.correctAnswer {
        correctCount := correctCount + 1;
      } else if question.id in answers && answers[question.id] != "" {
        incorrectQuestions := incorrectQuestions + [MissOf(question, answers)];
      }
    }
    assert qs[..|qs|] == qs;
  }
}
