/**
  The quiz progression state machine of the root component (src/components/App.jsx):
  the state record, the actions the UI dispatches, the `reducer` as the total
  function `Step`, the `initialState` record and the `maxPossiblePoints` fold.
 */
module App {

  datatype Option<T> = None | Some(value: T)

  /** Outcome of a dispatch: the new state, or the exception the reducer throws. */
  datatype Result<T> = Ok(value: T) | Err(error: Error)

  datatype Error =
    | UnknownActionType   // the `default:` branch throws "Unknown action type"
    | MissingQuestion     // `state.questions[state.index]` is undefined, so reading `.options` throws

  /** One quiz item; the prompt text is not needed by any rule and is left out. */
  datatype Question = Question(options: seq<string>, correctOption: string, points: int)

  /** The statuses a reducer case can produce ("loading" and "error" are never produced). */
  datatype Status = Ready | Active | Finished

  datatype State = State(
    questions: seq<Question>,
    status: Status,
    index: int,
    answer: Option<int>,   // `null` is None
    points: int,
    highscore: int,
    secondsRemaining: int
  )

  /** An action object `{ type, payload }`; only "newAnswer" reads the payload. */
  datatype Action = Action(kind: string, payload: int)

  const START := "start"
  const NEW_ANSWER := "newAnswer"
  const NEXT_QUESTION := "nextQuestion"
  const FINISH := "finish"
  const RESTART := "restart"
  const TICK := "tick"

  /** The action types the reducer has a case for. */
  const ActionTypes: set<string> := {START, NEW_ANSWER, NEXT_QUESTION, FINISH, RESTART, TICK}

  const SECS_PER_QUESTION := 5

  const HardcodedQuestions: seq<Question> := [
    Question(["Berlin", "Madrid", "Paris", "Lisbon"], "Paris", 1),
    Question(["Earth", "Mars", "Jupiter", "Saturn"], "Mars", 1),
    Question(["Atlantic Ocean", "Indian Ocean", "Arctic Ocean", "Pacific Ocean"], "Pacific Ocean", 1),
    Question(["Charles Dickens", "William Shakespeare", "Mark Twain", "Leo Tolstoy"], "William Shakespeare", 1),
    Question(["H2O", "O2", "CO2", "NaCl"], "H2O", 1)
  ]

  /** JavaScript's `Array.prototype.indexOf`: the index of the first occurrence, or -1. */
  function IndexOf(s: seq<string>, x: string): (r: int)
    ensures -1 <= r < |s|
    ensures r == -1 <==> x !in s
    ensures 0 <= r ==> s[r] == x && forall j :: 0 <= j < r ==> s[j] != x
  {
    if |s| == 0 then -1
    else if s[0] == x then 0
    else
      var k := IndexOf(s[1..], x);
      if k == -1 then -1 else k + 1
  }

  /** A position `p` is what `IndexOf` returns exactly when `x` first occurs at `p`. */
  lemma IndexOfIsFirst(s: seq<string>, x: string, p: int)
    requires 0 <= p
    ensures IndexOf(s, x) == p <==>
      0 <= p < |s| && s[p] == x && forall j :: 0 <= j < p ==> s[j] != x
  {
    if 0 <= p < |s| && s[p] == x {
      assert x in s;
    }
  }

  /** The position of the question's correct option, the answer key the reducer compares with. */
  function CorrectIndex(q: Question): (r: int)
    ensures r == -1 <==> q.correctOption !in q.options
    ensures r != -1 ==> 0 <= r < |q.options| && q.options[r] == q.correctOption
  {
    IndexOf(q.options, q.correctOption)
  }

  /** `questions.reduce((prev, cur) => prev + cur.points, 0)`: a left fold over the questions. */
  function MaxPossiblePoints(qs: seq<Question>): (r: int)
    ensures PositivePoints(qs) ==> r >= |qs|
  {
    if |qs| == 0 then 0 else MaxPossiblePoints(qs[..|qs| - 1]) + qs[|qs| - 1].points
  }

  /** Every question is worth a positive number of points, as every hardcoded one is. */
  predicate PositivePoints(qs: seq<Question>) {
    forall i :: 0 <= i < |qs| ==> qs[i].points > 0
  }

  const InitialState: State := State(
    HardcodedQuestions, Ready, 0, None, 0, 0, |HardcodedQuestions| * SECS_PER_QUESTION)

  /** Whether `state.questions[state.index]` is defined. */
  predicate HasCurrentQuestion(s: State) {
    0 <= s.index < |s.questions|
  }

  /** The `reducer`: each case spreads the old state and overrides some fields. */
  function Step(s: State, a: Action): (r: Result<State>)
    ensures r.Err? <==> a.kind !in ActionTypes || (a.kind == NEW_ANSWER && !HasCurrentQuestion(s))
    ensures r.Err? ==> (r.error == UnknownActionType <==> a.kind !in ActionTypes)
    ensures r.Ok? ==> r.value.questions == s.questions
    ensures r.Ok? ==> r.value.highscore >= s.highscore
    ensures r.Ok? && a.kind != RESTART ==> r.value.index >= s.index
    ensures r.Ok? && a.kind != RESTART && PositivePoints(s.questions) ==> r.value.points >= s.points
  {
    if a.kind == START then
      Ok(s.(status := Active, secondsRemaining := |s.questions| * SECS_PER_QUESTION))
    else if a.kind == NEW_ANSWER then
      if !HasCurrentQuestion(s) then Err(MissingQuestion)
      else
        var question := s.questions[s.index];
        Ok(s.(answer := Some(a.payload),
              points := if a.payload == CorrectIndex(question) then s.points + question.points
                        else s.points))
    else if a.kind == NEXT_QUESTION then
      Ok(s.(index := s.index + 1, answer := None))
    else if a.kind == FINISH then
      Ok(s.(status := Finished,
            highscore := if s.points > s.highscore then s.points else s.highscore))
    else if a.kind == RESTART then
      Ok(InitialState.(questions := s.questions, highscore := s.highscore, status := Ready))
    else if a.kind == TICK then
      Ok(s.(secondsRemaining := s.secondsRemaining - 1,
            status := if s.secondsRemaining == 0 then Finished else s.status))
    else
      Err(UnknownActionType)
  }

  // ----- the six cases, one lemma each -----

  /** `start` activates the quiz and grants five seconds per question; nothing else changes. */
  lemma StartSpec(s: State, p: int)
    ensures Step(s, Action(START, p)).Ok?
    ensures var t := Step(s, Action(START, p)).value;
      && t.status == Active
      && t.secondsRemaining == 5 * |s.questions|
      && t == s.(status := t.status, secondsRemaining := t.secondsRemaining)
  {
  }

  /** With the five hardcoded questions, `start` sets the clock to 25 seconds. */
  lemma StartHardcoded(s: State, p: int)
    requires s.questions == HardcodedQuestions
    ensures Step(s, Action(START, p)).Ok?
    ensures Step(s, Action(START, p)).value.secondsRemaining == 25
  {
  }

  /**
    `newAnswer(p)` records `p` and adds the question's points exactly when `p` is the
    position of the first option equal to the correct one (or when `p` is -1 and no option
    equals it, since `indexOf` then yields -1); nothing else changes.
   */
  lemma NewAnswerSpec(s: State, p: int)
    requires HasCurrentQuestion(s)
    ensures Step(s, Action(NEW_ANSWER, p)).Ok?
    ensures var q := s.questions[s.index];
      var t := Step(s, Action(NEW_ANSWER, p)).value;
      && t.answer == Some(p)
      && (p == CorrectIndex(q) <==>
            || (0 <= p < |q.options| && q.options[p] == q.correctOption
                && forall j :: 0 <= j < p ==> q.options[j] != q.correctOption)
            || (p == -1 && q.correctOption !in q.options))
      && t.points == (if p == CorrectIndex(q) then s.points + q.points else s.points)
      && t == s.(answer := t.answer, points := t.points)
  {
    if 0 <= p {
      IndexOfIsFirst(s.questions[s.index].options, s.questions[s.index].correctOption, p);
    }
  }

  /** `newAnswer` does not check that no answer was given: a second answer is scored again. */
  lemma NewAnswerIgnoresPreviousAnswer(s: State)
    requires HasCurrentQuestion(s) && s.answer.Some?
    requires s.questions[s.index].points > 0 && CorrectIndex(s.questions[s.index]) >= 0
    ensures var t := Step(s, Action(NEW_ANSWER, CorrectIndex(s.questions[s.index])));
      t.Ok? && t.value.points > s.points
  {
  }

  /** With positive question points, answering never lowers the score. */
  lemma NewAnswerMonotone(s: State, p: int)
    requires HasCurrentQuestion(s) && PositivePoints(s.questions)
    ensures Step(s, Action(NEW_ANSWER, p)).Ok?
    ensures Step(s, Action(NEW_ANSWER, p)).value.points >= s.points
  {
  }

  /** An answer with no question at `index` makes the reducer throw. */
  lemma NewAnswerWithoutQuestion(s: State, p: int)
    requires !HasCurrentQuestion(s)
    ensures Step(s, Action(NEW_ANSWER, p)) == Err(MissingQuestion)
  {
  }

  /** The first hardcoded question: "Paris" sits at position 2, so 2 scores 1 point and 0 scores none. */
  lemma NewAnswerFirstQuestion(s: State)
    requires s.questions == HardcodedQuestions && s.index == 0
    ensures Step(s, Action(NEW_ANSWER, 2)) == Ok(s.(answer := Some(2), points := s.points + 1))
    ensures Step(s, Action(NEW_ANSWER, 0)) == Ok(s.(answer := Some(0)))
  {
    assert CorrectIndex(HardcodedQuestions[0]) == 2 by {
      var opts := HardcodedQuestions[0].options;
      assert opts[0] != "Paris" && opts[1] != "Paris" && opts[2] == "Paris";
    }
  }

  /** `nextQuestion` moves one question on and clears the answer; nothing else changes. */
  lemma NextQuestionSpec(s: State, p: int)
    ensures Step(s, Action(NEXT_QUESTION, p)).Ok?
    ensures var t := Step(s, Action(NEXT_QUESTION, p)).value;
      && t.index == s.index + 1
      && t.answer == None
      && t == s.(index := t.index, answer := t.answer)
  {
  }

  /** `finish` ends the quiz and keeps the larger of the score and the high score. */
  lemma FinishSpec(s: State, p: int)
    ensures Step(s, Action(FINISH, p)).Ok?
    ensures var t := Step(s, Action(FINISH, p)).value;
      && t.status == Finished
      && t.highscore >= s.points && t.highscore >= s.highscore
      && (t.highscore == s.points || t.highscore == s.highscore)
      && t == s.(status := t.status, highscore := t.highscore)
  {
  }

  /** Finishing twice is the same as finishing once. */
  lemma FinishIdempotent(s: State, p: int, p': int)
    ensures Step(s, Action(FINISH, p)).Ok?
    ensures Step(Step(s, Action(FINISH, p)).value, Action(FINISH, p')) == Step(s, Action(FINISH, p))
  {
  }

  /** Finishing with 3 points over a high score of 2 records 3; finishing later with 1 point keeps 3. */
  lemma FinishScenario(s: State)
    requires s.points == 3 && s.highscore == 2
    ensures Step(s, Action(FINISH, 0)).Ok?
    ensures Step(s, Action(FINISH, 0)).value.highscore == 3
    ensures Step(Step(s, Action(FINISH, 0)).value.(points := 1), Action(FINISH, 0)) ==
            Ok(Step(s, Action(FINISH, 0)).value.(points := 1))
  {
  }

  /**
    `restart` returns to the start screen with fresh progress; the questions and the high
    score carry over, and the clock comes from the hardcoded list, not from `s.questions`.
   */
  lemma RestartSpec(s: State, p: int)
    ensures Step(s, Action(RESTART, p)).Ok?
    ensures var t := Step(s, Action(RESTART, p)).value;
      && t.status == Ready && t.index == 0 && t.answer == None && t.points == 0
      && t.secondsRemaining == 25
      && t.questions == s.questions && t.highscore == s.highscore
      && t == InitialState.(questions := s.questions, highscore := s.highscore)
  {
  }

  /** With a question list of another length, `restart` and `start` disagree about the clock. */
  lemma RestartClockIgnoresQuestions(s: State)
    requires |s.questions| == 3
    ensures Step(s, Action(RESTART, 0)).value.secondsRemaining == 25
    ensures Step(Step(s, Action(RESTART, 0)).value, Action(START, 0)).value.secondsRemaining == 15
  {
  }

  /**
    `tick` always takes one second off; it ends the quiz only when the clock already read 0
    (so the clock ends at -1), and it never touches the high score.
   */
  lemma TickSpec(s: State, p: int)
    ensures Step(s, Action(TICK, p)).Ok?
    ensures var t := Step(s, Action(TICK, p)).value;
      && t.secondsRemaining == s.secondsRemaining - 1
      && (s.secondsRemaining == 0 ==> t.status == Finished && t.secondsRemaining == -1)
      && (s.secondsRemaining != 0 ==> t.status == s.status)
      && t.highscore == s.highscore
      && t == s.(secondsRemaining := t.secondsRemaining, status := t.status)
  {
  }

  /** A quiz ended by the clock keeps a stale high score, unlike one ended by `finish`. */
  lemma TickFinishSkipsHighscore(s: State)
    requires s.secondsRemaining == 0 && s.points > s.highscore
    ensures Step(s, Action(TICK, 0)).value.status == Finished
    ensures Step(s, Action(TICK, 0)).value.highscore < Step(s, Action(TICK, 0)).value.points
    ensures Step(s, Action(FINISH, 0)).value.highscore == s.points
  {
  }

  /** Every action type outside the six cases throws; the six never do, save a missing question. */
  lemma UnknownActionThrows(s: State, a: Action)
    ensures Step(s, a) == Err(UnknownActionType) <==> a.kind !in ActionTypes
  {
  }

  /** The state the application starts in. */
  lemma InitialStateSpec()
    ensures InitialState.status == Ready && InitialState.index == 0
    ensures InitialState.answer == None && InitialState.points == 0 && InitialState.highscore == 0
    ensures InitialState.secondsRemaining == 25
    ensures MaxPossiblePoints(InitialState.questions) == 5
    ensures PositivePoints(InitialState.questions)
  {
    var qs := HardcodedQuestions;
    assert MaxPossiblePoints(qs[..1]) == 1 by { assert qs[..1][..0] == []; }
    assert MaxPossiblePoints(qs[..2]) == 2 by { assert qs[..2][..1] == qs[..1]; }
    assert MaxPossiblePoints(qs[..3]) == 3 by { assert qs[..3][..2] == qs[..2]; }
    assert MaxPossiblePoints(qs[..4]) == 4 by { assert qs[..4][..3] == qs[..3]; }
    assert qs[..5][..4] == qs[..4] && qs[..5] == qs;
  }

  // ----- the points fold -----

  /** The fold over a concatenation is the sum of the folds. */
  lemma {:induction false} MaxPossiblePointsAppend(a: seq<Question>, b: seq<Question>)
    ensures MaxPossiblePoints(a + b) == MaxPossiblePoints(a) + MaxPossiblePoints(b)
    decreases |b|
  {
    if |b| == 0 {
      assert a + b == a;
    } else {
      var b' := b[..|b| - 1];
      assert (a + b)[..|a + b| - 1] == a + b';
      MaxPossiblePointsAppend(a, b');
    }
  }

  /** With positive points, the fold over a prefix never exceeds the fold over a longer prefix. */
  lemma {:induction false} MaxPossiblePointsPrefix(qs: seq<Question>, i: nat, j: nat)
    requires PositivePoints(qs) && i <= j <= |qs|
    ensures MaxPossiblePoints(qs[..i]) <= MaxPossiblePoints(qs[..j])
    decreases j - i
  {
    if i < j {
      assert qs[..j][..j - 1] == qs[..j - 1];
      MaxPossiblePointsPrefix(qs, i, j - 1);
    }
  }

  /** With positive points, the fold is at least each question's points, and at least 0. */
  lemma {:induction false} MaxPossiblePointsBounds(qs: seq<Question>, k: nat)
    requires PositivePoints(qs) && k < |qs|
    ensures MaxPossiblePoints(qs) >= qs[k].points > 0
  {
    assert qs[..|qs|] == qs;
    assert qs[..k + 1][..k] == qs[..k];
    MaxPossiblePointsPrefix(qs, 0, k);
    MaxPossiblePointsPrefix(qs, k + 1, |qs|);
  }
}
