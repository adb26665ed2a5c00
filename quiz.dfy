/**
 * The state of the myth-busting quiz in src/components/QuizModal.tsx: which
 * question is shown, the option picked for it, whether its answer is
 * revealed, the running score and whether the quiz is finished.
 */
module Quiz {

  import opened Types

  /** How many of `picks` name the correct option of the question at the same position. */
  function CorrectCount(qs: seq<QuizQuestion>, picks: seq<Option<int>>): (n: nat)
    requires |picks| == |qs|
    ensures n <= |qs|
  {
    if qs == [] then 0
    else
      var k := |qs| - 1;
      CorrectCount(qs[..k], picks[..k]) + (if picks[k] == Some(qs[k].correctIndex) then 1 else 0)
  }

  /** Only the last pick changed: the count changes by what the last pick contributes. */
  lemma CorrectCountLast(qs: seq<QuizQuestion>, picks: seq<Option<int>>, o: Option<int>)
    requires |picks| == |qs| > 0
    ensures CorrectCount(qs, picks[|qs| - 1 := o])
         == CorrectCount(qs, picks)
            - (if picks[|qs| - 1] == Some(qs[|qs| - 1].correctIndex) then 1 else 0)
            + (if o == Some(qs[|qs| - 1].correctIndex) then 1 else 0)
  {
    var k := |qs| - 1;
    assert picks[k := o][..k] == picks[..k];
  }

  /** Moving on past a question adds an unanswered pick, which scores nothing. */
  lemma CorrectCountExtend(qs: seq<QuizQuestion>, picks: seq<Option<int>>, k: nat)
    requires k < |qs| && |picks| == k
    ensures CorrectCount(qs[..k + 1], picks + [None]) == CorrectCount(qs[..k], picks)
              + (if None == Some(qs[k].correctIndex) then 1 else 0)
  {
    assert (picks + [None])[..k] == picks;
    assert qs[..k + 1][..k] == qs[..k];
  }

  class QuizState {
    const questions: seq<QuizQuestion>
    var currentQ: int
    var selectedOption: Option<int>
    var showResult: bool
    var score: int
    var completed: bool
    /** The option picked for each question reached so far; `None` where none was picked. */
    ghost var picks: seq<Option<int>>

    ghost predicate Valid()
      reads this
    {
      0 <= currentQ < |questions|
      && |picks| == currentQ + 1
      && picks[currentQ] == selectedOption
      && (showResult <==> selectedOption.Some?)
      && score == CorrectCount(questions[..currentQ + 1], picks)
      && (completed ==> currentQ == |questions| - 1)
    }

    /** The modal opens on the first question with nothing picked and a zero score. */
    constructor(qs: seq<QuizQuestion>)
      requires |qs| > 0
      ensures Valid() && questions == qs
      ensures currentQ == 0 && selectedOption == None && !showResult && score == 0 && !completed
    {
      questions := qs;
      currentQ := 0;
      selectedOption := None;
      showResult := false;
      score := 0;
      completed := false;
      picks := [None];
    }

    /** `handleSelect`: ignored once the answer is shown; otherwise records the pick and scores it. */
    method Select(option: int)
      requires Valid()
      modifies this
      ensures Valid()
      ensures old(showResult) ==> selectedOption == old(selectedOption) && score == old(score) && picks == old(picks)
      ensures !old(showResult) ==>
                selectedOption == Some(option) && showResult
                && score == old(score) + (if option == questions[currentQ].correctIndex then 1 else 0)
      ensures currentQ == old(currentQ) && completed == old(completed)
    {
      if showResult {
        return;
      }
      selectedOption := Some(option);
      showResult := true;
      CorrectCountLast(questions[..currentQ + 1], picks, Some(option));
      picks := picks[currentQ := Some(option)];
      if option == questions[currentQ].correctIndex {
        score := score + 1;
      }
    }

    /** `handleNext`: on to the next question with nothing picked, or, after the last, finished. */
    method Next()
      requires Valid()
      modifies this
      ensures Valid()
      ensures old(currentQ) < |questions| - 1 ==>
                currentQ == old(currentQ) + 1 && selectedOption == None && !showResult
                && completed == old(completed)
      ensures old(currentQ) == |questions| - 1 ==>
                completed && currentQ == old(currentQ) && selectedOption == old(selectedOption)
                && showResult == old(showResult)
      ensures score == old(score)
    {
      if currentQ < |questions| - 1 {
        CorrectCountExtend(questions, picks, currentQ + 1);
        assert questions[..currentQ + 2][..currentQ + 1] == questions[..currentQ + 1];
        currentQ := currentQ + 1;
        selectedOption := None;
        showResult := false;
        picks := picks + [None];
      } else {
        completed := true;
      }
    }

    /** `handleRestart`: back to the opening state. */
    method Restart()
      requires Valid()
      modifies this
      ensures Valid()
      ensures currentQ == 0 && selectedOption == None && !showResult && score == 0 && !completed
    {
      currentQ := 0;
      selectedOption := None;
      showResult := false;
      score := 0;
      completed := false;
      picks := [None];
    }
  }

  /** An unanswered last question adds nothing: the count is bounded by the questions answered. */
  lemma CorrectCountAnswered(qs: seq<QuizQuestion>, picks: seq<Option<int>>)
    requires |picks| == |qs| > 0
    ensures CorrectCount(qs, picks) <= |qs| - 1 + (if picks[|qs| - 1].Some? then 1 else 0)
  {
  }

  /**
   * The score never exceeds the number of questions answered so far: the
   * current question counts only once its answer is shown.
   */
  lemma ScoreBounded(q: QuizState)
    requires q.Valid()
    ensures 0 <= q.score <= q.currentQ + (if q.showResult then 1 else 0)
    ensures q.currentQ + 1 <= |q.questions|
  {
    CorrectCountAnswered(q.questions[..q.currentQ + 1], q.picks);
  }

  /** Answering every question with its correct option finishes the quiz with a full score. */
  method PerfectRun(qs: seq<QuizQuestion>) returns (score: int, completed: bool)
    requires |qs| > 0
    ensures score == |qs| && completed
  {
    var quiz := new QuizState(qs);
    while !quiz.completed
      invariant quiz.Valid() && quiz.questions == qs
      invariant quiz.completed ==> quiz.currentQ == |qs| - 1 && quiz.showResult
      invariant quiz.score == quiz.currentQ + (if quiz.showResult then 1 else 0)
      decreases |qs| - quiz.currentQ, if quiz.showResult then 0 else 1, if quiz.completed then 0 else 1
    {
      quiz.Select(qs[quiz.currentQ].correctIndex);
      quiz.Next();
    }
    score, completed := quiz.score, quiz.completed;
  }
}
