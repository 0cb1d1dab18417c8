/**
  The answer buttons of src/components/Options.jsx: for each option of the current
  question, whether it is marked "correct" or "wrong", whether it is disabled, and the
  action its click dispatches. The CSS class string and the markup are not modelled.
 */
module Options {
  import opened App

  /** What one option button shows and does. */
  datatype OptionButton = OptionButton(correct: bool, wrong: bool, disabled: bool, onClick: Action)

  /** `hasAnswered`: an answer is recorded (`answer !== null`). */
  predicate HasAnswered(answer: Option<int>): (b: bool)
    ensures b <==> answer != None
  {
    answer.Some?
  }

  /** The button for option `i` of `q`, given the recorded answer. */
  function Button(q: Question, answer: Option<int>, i: int): (b: OptionButton)
    ensures !(b.correct && b.wrong)
    ensures b.correct || b.wrong ==> b.disabled
    ensures b.disabled <==> answer != None
    ensures b.correct ==>
      || (0 <= i < |q.options| && q.options[i] == q.correctOption)
      || (i == -1 && q.correctOption !in q.options)
    ensures b.onClick == Action(NEW_ANSWER, i)
  {
    OptionButton(
      correct := HasAnswered(answer) && i == CorrectIndex(q),
      wrong := HasAnswered(answer) && i != CorrectIndex(q) && answer == Some(i),
      disabled := HasAnswered(answer),
      onClick := Action(NEW_ANSWER, i))
  }

  /** The `question.options.map(...)`: one button per option, in order. */
  function Buttons(q: Question, answer: Option<int>): (bs: seq<OptionButton>)
    ensures |bs| == |q.options|
    ensures forall i :: 0 <= i < |bs| ==> bs[i].onClick == Action(NEW_ANSWER, i)
  {
    seq(|q.options|, i requires 0 <= i < |q.options| => Button(q, answer, i))
  }

  /** An option is marked "correct" exactly when an answer is recorded and it is the first option equal to the correct one. */
  lemma CorrectMark(q: Question, answer: Option<int>, i: int)
    requires 0 <= i < |q.options|
    ensures Buttons(q, answer)[i].correct <==>
      && answer.Some?
      && q.options[i] == q.correctOption
      && forall j :: 0 <= j < i ==> q.options[j] != q.correctOption
  {
    IndexOfIsFirst(q.options, q.correctOption, i);
  }

  /** An option is marked "wrong" exactly when it is the recorded answer and not the correct one. */
  lemma WrongMark(q: Question, answer: Option<int>, i: int)
    requires 0 <= i < |q.options|
    ensures Buttons(q, answer)[i].wrong <==>
      && answer == Some(i)
      && !(q.options[i] == q.correctOption && forall j :: 0 <= j < i ==> q.options[j] != q.correctOption)
  {
    IndexOfIsFirst(q.options, q.correctOption, i);
  }

  /** No button is both "correct" and "wrong"; at most one button carries each mark. */
  lemma MarksAreExclusive(q: Question, answer: Option<int>, i: int, j: int)
    requires 0 <= i < |q.options| && 0 <= j < |q.options|
    ensures !(Buttons(q, answer)[i].correct && Buttons(q, answer)[i].wrong)
    ensures Buttons(q, answer)[i].correct && Buttons(q, answer)[j].correct ==> i == j
    ensures Buttons(q, answer)[i].wrong && Buttons(q, answer)[j].wrong ==> i == j
  {
  }

  /** Before an answer no button is marked or disabled; after it every button is disabled. */
  lemma DisabledOnceAnswered(q: Question, answer: Option<int>, i: int)
    requires 0 <= i < |q.options|
    ensures answer.None? ==>
      !Buttons(q, answer)[i].correct && !Buttons(q, answer)[i].wrong && !Buttons(q, answer)[i].disabled
    ensures answer.Some? ==> Buttons(q, answer)[i].disabled
  {
  }

  /** Once answered, some button is marked "correct" exactly when the correct option is among the options. */
  lemma CorrectShownIffPresent(q: Question, p: int)
    ensures (exists i :: 0 <= i < |q.options| && Buttons(q, Some(p))[i].correct) <==>
      q.correctOption in q.options
  {
    if q.correctOption in q.options {
      var k := CorrectIndex(q);
      assert Buttons(q, Some(p))[k].correct;
    }
  }

  /** The chosen button always carries exactly one of the two marks. */
  lemma ChosenIsMarked(q: Question, i: int)
    requires 0 <= i < |q.options|
    ensures Buttons(q, Some(i))[i].correct != Buttons(q, Some(i))[i].wrong
  {
  }

  /**
    Clicking option `i` dispatches `newAnswer` with payload `i`, and the reducer scores it
    exactly when the button it records is then marked "correct".
   */
  lemma ClickAgreesWithReducer(s: State, i: int)
    requires HasCurrentQuestion(s) && 0 <= i < |s.questions[s.index].options|
    ensures var q := s.questions[s.index];
      var r := Step(s, Buttons(q, s.answer)[i].onClick);
      && r.Ok?
      && r.value.answer == Some(i)
      && r.value.points == s.points + (if Buttons(q, r.value.answer)[i].correct then q.points else 0)
  {
  }
}
