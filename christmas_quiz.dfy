/**
 * The quiz (src/components/games/ChristmasQuiz.jsx): five fixed questions, a running score,
 * the result view after the last answer, and the message chosen from the percentage.
 */
module ChristmasQuiz {

  datatype Question = Question(text: string, options: seq<string>, correct: nat)

  const AllOfTheAbove := "All of the above"

  /** The question table in effect (the commented-out earlier table is not part of the model). */
  const Questions: seq<Question> := [
    Question("Christmas at Norq is all about?",
             ["Celebration", "Appreciation", "Togetherness", AllOfTheAbove], 3),
    Question("Norq Technology Solutions works primarily in which field?",
             ["Software & Technology Solutions", "Food & Catering", "Construction", "Event Management"], 0),
    Question("Which quality best represents the Norq team culture?",
             ["Innovation", "Teamwork", "Problem Solving", AllOfTheAbove], 3),
    Question("What makes Norq Technology Solutions stand out?",
             ["Customer-focused solutions", "Strong technical expertise", "Passionate team", AllOfTheAbove], 3),
    Question("Which value is most important at Norq?",
             ["Collaboration", "Continuous learning", "Quality delivery", AllOfTheAbove], 3)
  ]

  /** Five questions, four options each, and every answer key names one of the options. */
  lemma QuestionsWellFormed()
    ensures |Questions| == 5
    ensures forall q :: q in Questions ==> |q.options| == 4 && q.correct < |q.options|
  {
  }

  /** Whether the `i`-th answer picks the `i`-th question's key. */
  predicate IsCorrect(i: nat, selected: nat)
    requires i < |Questions|
  {
    selected == Questions[i].correct
  }

  /** How many of the answers given, question by question, are correct. */
  function CountCorrect(answers: seq<nat>): (n: nat)
    requires |answers| <= |Questions|
    ensures n <= |answers|
    ensures n == |answers| <==> forall i :: 0 <= i < |answers| ==> IsCorrect(i, answers[i])
  {
    if answers == [] then 0
    else
      var last := |answers| - 1;
      CountCorrect(answers[..last]) + (if IsCorrect(last, answers[last]) then 1 else 0)
  }

  /** `Math.round((score / total) * 100)` on exact rationals: halves round up. */
  function Percentage(score: nat, total: nat): nat
    requires total > 0
  {
    (200 * score + total) / (2 * total)
  }

  /** With the five questions of the table the percentage is exactly twenty per point. */
  lemma PercentageOfFive(score: nat)
    ensures Percentage(score, |Questions|) == 20 * score
  {
    assert 200 * score + 5 == 10 * (20 * score) + 5;
  }

  datatype Verdict = Perfect | GreatJob | GoodEffort | NiceTry

  /** The result message: 100 is perfect, then thresholds at 70 and 50. */
  function ResultMessage(percentage: nat): Verdict
  {
    if percentage == 100 then Perfect
    else if percentage >= 70 then GreatJob
    else if percentage >= 50 then GoodEffort
    else NiceTry
  }

  /** Over the five-question table: five points are perfect, four great, three a good effort, fewer a nice try. */
  lemma ResultForScore(score: nat)
    requires score <= |Questions|
    ensures ResultMessage(Percentage(score, |Questions|)) ==
      if score == 5 then Perfect else if score == 4 then GreatJob else if score == 3 then GoodEffort else NiceTry
  {
    PercentageOfFive(score);
  }

  /** A full round is "Perfect" exactly when every answer was right. */
  lemma PerfectIffAllCorrect(answers: seq<nat>)
    requires |answers| == |Questions|
    ensures ResultMessage(Percentage(CountCorrect(answers), |Questions|)) == Perfect
            <==> forall i :: 0 <= i < |answers| ==> IsCorrect(i, answers[i])
  {
    ResultForScore(CountCorrect(answers));
  }

  /**
   * The quiz component's state. `answers` (ghost) is what was answered since the last reset;
   * the score, the question index and the result flag are all determined by it.
   * `celebrationKey` counts every correct answer since mounting and is never reset.
   */
  class Quiz {
    var currentQuestion: nat
    var score: nat
    var showResult: bool
    var showCelebration: bool
    var celebrationKey: nat
    ghost var answers: seq<nat>

    ghost predicate Valid()
      reads this
    {
      && |answers| <= |Questions|
      && score == CountCorrect(answers)
      && showResult == (|answers| == |Questions|)
      && currentQuestion == (if showResult then |Questions| - 1 else |answers|)
    }

    constructor ()
      ensures Valid() && answers == []
      ensures currentQuestion == 0 && score == 0 && !showResult && !showCelebration && celebrationKey == 0
    {
      currentQuestion, score, showResult := 0, 0, false;
      showCelebration, celebrationKey := false, 0;
      answers := [];
    }

    /** The score never outruns the questions seen: `score <= currentQuestion + (showResult ? 1 : 0) <= 5`. */
    lemma ScoreWithinProgress()
      requires Valid()
      ensures currentQuestion < |Questions|
      ensures score <= currentQuestion + (if showResult then 1 else 0) <= |Questions|
    {
    }

    /**
     * `handleAnswer` (the option buttons exist only while the result is not shown): a correct
     * answer adds one point and one celebration; the index advances, or the result shows.
     */
    method HandleAnswer(selectedIndex: nat)
      requires Valid() && !showResult
      modifies this
      ensures Valid() && answers == old(answers) + [selectedIndex]
      ensures var correct := IsCorrect(old(currentQuestion), selectedIndex);
        && score == old(score) + (if correct then 1 else 0)
        && celebrationKey == old(celebrationKey) + (if correct then 1 else 0)
        && showCelebration == (correct || old(showCelebration))
      ensures old(currentQuestion) < |Questions| - 1 ==> currentQuestion == old(currentQuestion) + 1 && !showResult
      ensures old(currentQuestion) == |Questions| - 1 ==> currentQuestion == old(currentQuestion) && showResult
    {
      var isCorrect := selectedIndex == Questions[currentQuestion].correct;
      if isCorrect {
        score := score + 1;
        celebrationKey := celebrationKey + 1;
        showCelebration := true;
      }
      ghost var before := answers;
      answers := answers + [selectedIndex];
      assert answers[..|answers| - 1] == before;
      if currentQuestion < |Questions| - 1 {
        currentQuestion := currentQuestion + 1;
      } else {
        showResult := true;
      }
    }

    /** The 1200 ms timeout after a correct answer hides the celebration overlay. */
    method CelebrationTimeout()
      modifies this`showCelebration
      ensures !showCelebration
    {
      showCelebration := false;
    }

    /** `resetQuiz`: back to the first question with no points; the celebration counter stays. */
    method ResetQuiz()
      requires Valid()
      modifies this`currentQuestion, this`score, this`showResult, this`answers
      ensures Valid() && answers == []
      ensures currentQuestion == 0 && score == 0 && !showResult
    {
      currentQuestion, score, showResult := 0, 0, false;
      answers := [];
    }

    /** The message of the result view. */
    function Result(): (v: Verdict)
      reads this
      requires Valid() && showResult
      ensures v == Perfect <==> forall i :: 0 <= i < |answers| ==> IsCorrect(i, answers[i])
    {
      PerfectIffAllCorrect(answers);
      ResultMessage(Percentage(score, |Questions|))
    }
  }
}
