/**
  Sequences of dispatches to the reducer of src/components/App.jsx, and what holds
  across them: the questions never change, the high score never drops, the clock runs
  out one tick after it shows 0, and the score stays within `maxPossiblePoints` as long
  as each question is answered at most once.
 */
module AppRuns {
  import opened App

  /**
    Dispatches `acts` in order from `s`; the first throw ends the run. No run changes the
    question list or lowers the high score.
   */
  function Run(s: State, acts: seq<Action>): (r: Result<State>)
    ensures r.Ok? ==> r.value.questions == s.questions
    ensures r.Ok? ==> r.value.highscore >= s.highscore
    decreases |acts|
  {
    if |acts| == 0 then Ok(s)
    else
      match Step(s, acts[0])
      case Err(e) => Err(e)
      case Ok(t) => Run(t, acts[1..])
  }

  /** The dispatches of a run that sends `newAnswer` only while no answer is recorded. */
  predicate AnswersOnce(s: State, acts: seq<Action>)
    decreases |acts|
  {
    |acts| == 0 ||
    ((acts[0].kind == NEW_ANSWER ==> s.answer.None?) &&
     match Step(s, acts[0])
     case Err(_) => true
     case Ok(t) => AnswersOnce(t, acts[1..]))
  }

  /** How many questions have been answered or passed: `index`, plus one if an answer is recorded. */
  function Reached(s: State): int {
    s.index + if s.answer.Some? then 1 else 0
  }

  /** The points of the questions reached so far, capped at the whole list. */
  function ReachedPoints(s: State): int
    requires s.index >= 0
  {
    var k := if Reached(s) <= |s.questions| then Reached(s) else |s.questions|;
    MaxPossiblePoints(s.questions[..k])
  }

  /** The score never exceeds the points of the questions reached so far. */
  predicate ScoreBounded(s: State) {
    s.index >= 0 && s.points <= ReachedPoints(s)
  }

  /** One dispatch that respects the answer-once rule keeps the score bounded. */
  lemma StepKeepsScoreBounded(s: State, a: Action)
    requires PositivePoints(s.questions) && ScoreBounded(s)
    requires a.kind == NEW_ANSWER ==> s.answer.None?
    requires Step(s, a).Ok?
    ensures ScoreBounded(Step(s, a).value)
  {
    var t := Step(s, a).value;
    var qs := s.questions;
    var n := |qs|;
    var k := if Reached(s) <= n then Reached(s) else n;
    if a.kind == NEW_ANSWER {
      assert qs[..s.index + 1][..s.index] == qs[..s.index];
    } else if a.kind == NEXT_QUESTION {
      var k' := if Reached(t) <= n then Reached(t) else n;
      MaxPossiblePointsPrefix(qs, k, k');
    } else if a.kind == RESTART {
      assert qs[..0] == [];
    }
  }

  /** The score of any run from the initial state stays within `maxPossiblePoints`. */
  lemma {:induction false} RunKeepsScoreBounded(s: State, acts: seq<Action>)
    requires PositivePoints(s.questions) && ScoreBounded(s) && AnswersOnce(s, acts)
    ensures Run(s, acts).Ok? ==> ScoreBounded(Run(s, acts).value)
    decreases |acts|
  {
    if |acts| > 0 && Step(s, acts[0]).Ok? {
      StepKeepsScoreBounded(s, acts[0]);
      RunKeepsScoreBounded(Step(s, acts[0]).value, acts[1..]);
    }
  }

  /**
    If `newAnswer` is dispatched only while no answer is recorded, the score never exceeds
    the sum of all question points.
   */
  lemma PointsWithinMaximum(acts: seq<Action>)
    requires AnswersOnce(InitialState, acts)
    ensures Run(InitialState, acts).Ok? ==>
      Run(InitialState, acts).value.points <= MaxPossiblePoints(Run(InitialState, acts).value.questions)
  {
    InitialStateSpec();
    assert HardcodedQuestions[..0] == [];
    RunKeepsScoreBounded(InitialState, acts);
    if Run(InitialState, acts).Ok? {
      var t := Run(InitialState, acts).value;
      var n := |t.questions|;
      var k := if Reached(t) <= n then Reached(t) else n;
      MaxPossiblePointsPrefix(t.questions, k, n);
      assert t.questions[..n] == t.questions;
    }
  }

  /** `k` answers in a row, each choosing position 2. */
  function AnswersAt2(k: nat): (acts: seq<Action>)
    ensures |acts| == k && forall i :: 0 <= i < k ==> acts[i] == Action(NEW_ANSWER, 2)
  {
    if k == 0 then [] else [Action(NEW_ANSWER, 2)] + AnswersAt2(k - 1)
  }

  /** On the first hardcoded question, each repeated answer "Paris" scores one more point. */
  lemma {:induction false} RepeatedAnswersScore(s: State, k: nat)
    requires s.questions == HardcodedQuestions && s.index == 0
    ensures Run(s, AnswersAt2(k)).Ok?
    ensures Run(s, AnswersAt2(k)).value.points == s.points + k
    decreases k
  {
    if k > 0 {
      NewAnswerFirstQuestion(s);
      assert AnswersAt2(k)[1..] == AnswersAt2(k - 1);
      RepeatedAnswersScore(s.(answer := Some(2), points := s.points + 1), k - 1);
    }
  }

  /**
    Without the answer-once rule the bound fails: starting and answering the first
    question correctly six times scores 6, above the 5 points the questions are worth.
   */
  lemma RepeatedAnswerExceedsMaximum()
    ensures var acts := [Action(START, 0)] + AnswersAt2(6);
      && Run(InitialState, acts).Ok?
      && Run(InitialState, acts).value.points == 6
      && Run(InitialState, acts).value.points > MaxPossiblePoints(Run(InitialState, acts).value.questions)
  {
    var acts := [Action(START, 0)] + AnswersAt2(6);
    var s1 := InitialState.(status := Active);
    assert Step(InitialState, acts[0]) == Ok(s1);
    assert acts[1..] == AnswersAt2(6);
    RepeatedAnswersScore(s1, 6);
    InitialStateSpec();
  }

  /** While the quiz is active its clock is not negative, which the timer display needs. */
  predicate ClockValid(s: State) {
    s.status == Active ==> s.secondsRemaining >= 0
  }

  /** Every dispatch keeps the clock valid: a tick at 0 also ends the quiz. */
  lemma StepKeepsClockValid(s: State, a: Action)
    requires ClockValid(s) && Step(s, a).Ok?
    ensures ClockValid(Step(s, a).value)
  {
  }

  /** Every run from a valid clock keeps it valid. */
  lemma {:induction false} RunKeepsClockValid(s: State, acts: seq<Action>)
    requires ClockValid(s)
    ensures Run(s, acts).Ok? ==> ClockValid(Run(s, acts).value)
    decreases |acts|
  {
    if |acts| > 0 && Step(s, acts[0]).Ok? {
      StepKeepsClockValid(s, acts[0]);
      RunKeepsClockValid(Step(s, acts[0]).value, acts[1..]);
    }
  }

  /** In every state reached from the initial one, an active quiz has a non-negative clock. */
  lemma ActiveClockNonNegative(acts: seq<Action>)
    ensures Run(InitialState, acts).Ok? && Run(InitialState, acts).value.status == Active ==>
      Run(InitialState, acts).value.secondsRemaining >= 0
  {
    RunKeepsClockValid(InitialState, acts);
  }

  /** `n` clock ticks in a row. */
  function Ticks(n: nat): (acts: seq<Action>)
    ensures |acts| == n && forall i :: 0 <= i < n ==> acts[i] == Action(TICK, 0)
  {
    if n == 0 then [] else [Action(TICK, 0)] + Ticks(n - 1)
  }

  /**
    From an active quiz with `k` seconds left, `k` ticks leave it active at 0, and one more
    tick ends it with the clock at -1 and the high score untouched.
   */
  lemma {:induction false} Countdown(s: State, k: nat)
    requires s.status == Active && s.secondsRemaining == k
    ensures Run(s, Ticks(k)) == Ok(s.(secondsRemaining := 0))
    ensures Run(s, Ticks(k + 1)) == Ok(s.(secondsRemaining := -1, status := Finished))
    decreases k
  {
    if k == 0 {
      assert Ticks(1)[1..] == [];
    } else {
      var t := s.(secondsRemaining := k - 1);
      assert Step(s, Action(TICK, 0)) == Ok(t);
      assert Ticks(k)[1..] == Ticks(k - 1);
      assert Ticks(k + 1)[1..] == Ticks(k);
      Countdown(t, k - 1);
    }
  }
}
