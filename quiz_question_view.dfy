/**
  The answer logic of the question card (src/components/QuizQuestion.tsx).
  This component reads a list of correct answers (`question.correctAnswers`)
  and a list of selected answers, so it is modelled over those lists.
*/
module QuizQuestionView {
  import opened Wrappers

  /** The button variants an option can be drawn with. */
  datatype Variant = Default | Quiz | QuizCorrect | QuizIncorrect

  /** `list.filter(x => x !== o)`: every occurrence of o removed, the rest in order. */
  function RemoveAll(s: seq<string>, o: string): seq<string> {
    if s == [] then [] else (if s[0] == o then [] else [s[0]]) + RemoveAll(s[1..], o)
  }

  /** Every occurrence of o goes and every other element keeps its count. */
  lemma {:induction false} RemoveAllCounts(s: seq<string>, o: string)
    ensures o !in RemoveAll(s, o)
    ensures forall x :: x != o ==> multiset(RemoveAll(s, o))[x] == multiset(s)[x]
    ensures |RemoveAll(s, o)| == |s| - multiset(s)[o]
  {
    if s != [] {
      RemoveAllCounts(s[1..], o);
      assert s == [s[0]] + s[1..];
    }
  }

  /** Removing keeps order: it distributes over concatenation. */
  lemma {:induction false} RemoveAllAppend(a: seq<string>, b: seq<string>, o: string)
    ensures RemoveAll(a + b, o) == RemoveAll(a, o) + RemoveAll(b, o)
  {
    if a != [] {
      RemoveAllAppend(a[1..], b, o);
      assert (a + b)[1..] == a[1..] + b;
    } else {
      assert a + b == b;
    }
  }

  /** Removing an option that is not there changes nothing. */
  lemma {:induction false} RemoveAllAbsent(s: seq<string>, o: string)
    requires o !in s
    ensures RemoveAll(s, o) == s
  {
    if s != [] {
      RemoveAllAbsent(s[1..], o);
      assert s == [s[0]] + s[1..];
    }
  }

  /** `handleOptionClick`: None when nothing is reported (results are shown);
      otherwise the new selection passed to `onAnswerSelect`. */
  function HandleOptionClick(selectedAnswers: seq<string>, option: string, showResult: bool): (r: Option<seq<string>>)
    ensures r.None? <==> showResult
    ensures r.Some? ==> (option in r.value <==> option !in selectedAnswers)
    ensures r.Some? ==> forall x :: x != option ==> multiset(r.value)[x] == multiset(selectedAnswers)[x]
  {
    if showResult then None
    else if option in selectedAnswers then
      RemoveAllCounts(selectedAnswers, option);
      Some(RemoveAll(selectedAnswers, option))
    else Some(selectedAnswers + [option])
  }

  /** An unselected option is appended at the end; a selected one is removed
      everywhere, with the others kept in order. */
  lemma OptionClickEffect(selectedAnswers: seq<string>, option: string)
    ensures option !in selectedAnswers ==> HandleOptionClick(selectedAnswers, option, false) == Some(selectedAnswers + [option])
    ensures option in selectedAnswers ==> HandleOptionClick(selectedAnswers, option, false) == Some(RemoveAll(selectedAnswers, option))
  {
  }

  /** Clicking an unselected option twice gives back the original selection. */
  lemma ToggleTwice(selectedAnswers: seq<string>, option: string)
    requires option !in selectedAnswers
    ensures var once := HandleOptionClick(selectedAnswers, option, false).value;
            HandleOptionClick(once, option, false) == Some(selectedAnswers)
  {
    var once := selectedAnswers + [option];
    assert option in once;
    RemoveAllAppend(selectedAnswers, [option], option);
    RemoveAllAbsent(selectedAnswers, option);
    assert [option][1..] == [];
    assert RemoveAll([option], option) == [];
    assert RemoveAll(once, option) == selectedAnswers;
    assert HandleOptionClick(selectedAnswers, option, false) == Some(once);
    assert HandleOptionClick(once, option, false) == Some(RemoveAll(once, option));
  }

  /** `getOptionVariant`. */
  function GetOptionVariant(correctAnswers: seq<string>, selectedAnswers: seq<string>, showResult: bool, option: string): (v: Variant)
    ensures !showResult ==> (v == Default <==> option in selectedAnswers) && (v == Quiz <==> option !in selectedAnswers)
    ensures showResult ==> (v == QuizCorrect <==> option in correctAnswers)
    ensures showResult ==> (v == QuizIncorrect <==> option in selectedAnswers && option !in correctAnswers)
    ensures showResult ==> (v == Quiz <==> option !in selectedAnswers && option !in correctAnswers)
  {
    if !showResult then
      if option in selectedAnswers then Default else Quiz
    else if option in correctAnswers then QuizCorrect
    else if option in selectedAnswers && option !in correctAnswers then QuizIncorrect
    else Quiz
  }

  /** With results shown, the options drawn as correct are exactly the correct
      ones, and those drawn as wrong are exactly the wrongly chosen ones. */
  lemma ResultVariantsPartition(correctAnswers: seq<string>, selectedAnswers: seq<string>, options: seq<string>)
    ensures (set o | o in options && GetOptionVariant(correctAnswers, selectedAnswers, true, o) == QuizCorrect)
            == (set o | o in options && o in correctAnswers)
    ensures (set o | o in options && GetOptionVariant(correctAnswers, selectedAnswers, true, o) == QuizIncorrect)
            == (set o | o in options && o in selectedAnswers && o !in correctAnswers)
  {
  }
}
