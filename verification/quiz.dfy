/**
 * The quiz session of main.py: the `home` form starts a quiz from the parsed
 * document, `question` shows the current step and records answers, `summary`
 * scores the answers and caches the wrong ones, and `review` lists that
 * cache. The Flask session is the `Session` object; each handler is a method.
 */
module Quiz {
  import opened Wrappers
  import opened QuestionParser

  /** Where a handler redirects to. */
  datatype Route = ToHome | ToQuestion | ToSummary

  /** What the question page does on a GET: redirect, or ask step `number` (1-based). */
  datatype Page = Redirect(to: Route) | Ask(number: int, question: Question)

  /** One entry of the review list; `index` is the 1-based step number. */
  datatype Miss = Miss(index: int, question: string, options: seq<string>, correct: string, user: string)

  /** The numbers the summary page shows. */
  datatype Tally = Tally(correct: int, wrong: int, percent: real)

  const NoAnswer := "No answer"

  // ---------------------------------------------------------------------------
  // Scoring, as functions of the questions and the recorded answers

  /** `answers.get(i)`. */
  function Lookup(answers: map<int, string>, i: int): Option<string> {
    if i in answers then Some(answers[i]) else None
  }

  /** `user_ans or 'No answer'`: an absent or empty answer is shown as `No answer`. */
  function Shown(answer: Option<string>): string {
    if answer.Some? && |answer.value| > 0 then answer.value else NoAnswer
  }

  /** A step scores when its recorded answer equals the correct label; no answer never scores. */
  predicate Scores(q: Question, answer: Option<string>) {
    answer == Some(q.correct)
  }

  /** The review entry for a step that did not score. */
  function MissAt(qs: seq<Question>, answers: map<int, string>, i: nat): Miss
    requires i < |qs|
  {
    Miss(i + 1, qs[i].question, qs[i].options, qs[i].correct, Shown(Lookup(answers, i)))
  }

  /** The number of scoring steps among the first `n`. */
  function CorrectCount(qs: seq<Question>, answers: map<int, string>, n: nat): (c: nat)
    requires n <= |qs|
    ensures c <= n
  {
    if n == 0 then 0
    else CorrectCount(qs, answers, n - 1) + (if Scores(qs[n - 1], Lookup(answers, n - 1)) then 1 else 0)
  }

  /** The review entries of the non-scoring steps among the first `n`, in step order. */
  function Misses(qs: seq<Question>, answers: map<int, string>, n: nat): seq<Miss>
    requires n <= |qs|
  {
    if n == 0 then []
    else
      Misses(qs, answers, n - 1)
      + (if Scores(qs[n - 1], Lookup(answers, n - 1)) then [] else [MissAt(qs, answers, n - 1)])
  }

  /** The score as a percentage: 0 for an empty quiz, else `correct * 100 / total`. */
  function Percent(correct: nat, total: nat): (p: real)
    ensures total == 0 ==> p == 0.0
    ensures total > 0 ==> p * (total as real) == (correct as real) * 100.0
    ensures correct <= total ==> 0.0 <= p <= 100.0
  {
    if total > 0 then (correct as real) / (total as real) * 100.0 else 0.0
  }

  /** Every step is either counted as correct or listed as a miss. */
  lemma {:induction false} TallyAddsUp(qs: seq<Question>, answers: map<int, string>, n: nat)
    requires n <= |qs|
    ensures CorrectCount(qs, answers, n) + |Misses(qs, answers, n)| == n
  {
    if n > 0 {
      TallyAddsUp(qs, answers, n - 1);
    }
  }

  /** Review entries have strictly increasing step numbers, all at least 1. */
  predicate Increasing(misses: seq<Miss>) {
    && (forall k | 0 <= k < |misses| :: misses[k].index >= 1)
    && (forall k, l | 0 <= k < l < |misses| :: misses[k].index < misses[l].index)
  }

  /** Review entries name steps among the first `n`, in strictly increasing order. */
  lemma {:induction false} MissesIncreasing(qs: seq<Question>, answers: map<int, string>, n: nat)
    requires n <= |qs|
    ensures Increasing(Misses(qs, answers, n))
    ensures forall k | 0 <= k < |Misses(qs, answers, n)| :: Misses(qs, answers, n)[k].index <= n
  {
    if n > 0 {
      MissesIncreasing(qs, answers, n - 1);
      MissesExtend(qs, answers, n);
    }
  }

  /** Each review entry is the record and shown answer of a step that did not score. */
  lemma {:induction false} MissesAreWrongSteps(qs: seq<Question>, answers: map<int, string>, n: nat)
    requires n <= |qs|
    ensures var m := Misses(qs, answers, n);
            forall k | 0 <= k < |m| ::
              && 1 <= m[k].index <= n
              && !Scores(qs[m[k].index - 1], Lookup(answers, m[k].index - 1))
              && m[k] == MissAt(qs, answers, m[k].index - 1)
  {
    if n > 0 {
      MissesAreWrongSteps(qs, answers, n - 1);
      MissesExtend(qs, answers, n);
      var prev, m := Misses(qs, answers, n - 1), Misses(qs, answers, n);
      forall k | 0 <= k < |m|
        ensures 1 <= m[k].index <= n
        ensures !Scores(qs[m[k].index - 1], Lookup(answers, m[k].index - 1))
        ensures m[k] == MissAt(qs, answers, m[k].index - 1)
      {
        if k < |prev| {
          assert m[k] == prev[k];
        }
      }
    }
  }

  /** One more step keeps the earlier entries and adds at most the entry for that step. */
  lemma MissesExtend(qs: seq<Question>, answers: map<int, string>, n: nat)
    requires 0 < n <= |qs|
    ensures var prev, m := Misses(qs, answers, n - 1), Misses(qs, answers, n);
            && |prev| <= |m| <= |prev| + 1
            && (forall k | 0 <= k < |prev| :: m[k] == prev[k])
            && (|m| == |prev| + 1 <==> !Scores(qs[n - 1], Lookup(answers, n - 1)))
            && (|m| == |prev| + 1 ==> m[|prev|] == MissAt(qs, answers, n - 1))
  {
  }

  /** Every step that did not score has a review entry. */
  lemma {:induction false} WrongStepsAreMissed(qs: seq<Question>, answers: map<int, string>, n: nat)
    requires n <= |qs|
    ensures forall i | 0 <= i < n && !Scores(qs[i], Lookup(answers, i)) ::
              exists k | 0 <= k < |Misses(qs, answers, n)| :: Misses(qs, answers, n)[k].index == i + 1
  {
    if n > 0 {
      WrongStepsAreMissed(qs, answers, n - 1);
      MissesExtend(qs, answers, n);
      var prev := Misses(qs, answers, n - 1);
      var m := Misses(qs, answers, n);
      forall i | 0 <= i < n && !Scores(qs[i], Lookup(answers, i))
        ensures exists k | 0 <= k < |m| :: m[k].index == i + 1
      {
        if i < n - 1 {
          var k :| 0 <= k < |prev| && prev[k].index == i + 1;
          assert m[k] == prev[k];
        } else {
          assert m[|prev|].index == n;
        }
      }
    }
  }

  /** A step with no recorded answer is always reviewed, shown as `No answer`. */
  lemma UnansweredStepMissed(qs: seq<Question>, answers: map<int, string>, i: nat)
    requires i < |qs| && i !in answers
    ensures var m := Misses(qs, answers, |qs|);
            exists k | 0 <= k < |m| :: m[k].index == i + 1 && m[k].user == NoAnswer
  {
    WrongStepsAreMissed(qs, answers, |qs|);
    var m := Misses(qs, answers, |qs|);
    assert !Scores(qs[i], Lookup(answers, i));
    var k :| 0 <= k < |m| && m[k].index == i + 1;
    MissEntry(qs, answers, k);
  }

  /** One review entry, read through `MissesAreWrongSteps`. */
  lemma MissEntry(qs: seq<Question>, answers: map<int, string>, k: int)
    requires 0 <= k < |Misses(qs, answers, |qs|)|
    ensures var e := Misses(qs, answers, |qs|)[k];
            1 <= e.index <= |qs| && e == MissAt(qs, answers, e.index - 1)
  {
    MissesAreWrongSteps(qs, answers, |qs|);
  }

  /**
   * When every step has a non-empty recorded answer, as at the end of a
   * quiz, each review entry shows exactly the answer given for its step.
   */
  lemma CompletedQuizShowsAnswers(qs: seq<Question>, answers: map<int, string>)
    requires forall i :: i in answers <==> 0 <= i < |qs|
    requires forall i | i in answers :: answers[i] != []
    ensures var m := Misses(qs, answers, |qs|);
            forall k | 0 <= k < |m| :: m[k].index - 1 in answers && m[k].user == answers[m[k].index - 1]
  {
    MissesAreWrongSteps(qs, answers, |qs|);
  }

  /** All answers correct: the count is the number of steps, nothing to review, and a full score. */
  lemma {:induction false} AllCorrect(qs: seq<Question>, answers: map<int, string>, n: nat)
    requires n <= |qs|
    requires forall i | 0 <= i < n :: i in answers && answers[i] == qs[i].correct
    ensures CorrectCount(qs, answers, n) == n
    ensures Misses(qs, answers, n) == []
    ensures n > 0 ==> Percent(CorrectCount(qs, answers, n), n) == 100.0
  {
    if n > 0 {
      AllCorrect(qs, answers, n - 1);
    }
  }

  /** The scoring loop of `summary`: count the scoring steps and collect a review entry for each other one. */
  method Score(qs: seq<Question>, answers: map<int, string>) returns (correctCount: nat, incorrect: seq<Miss>)
    ensures correctCount == CorrectCount(qs, answers, |qs|)
    ensures incorrect == Misses(qs, answers, |qs|)
  {
    correctCount := 0;
    incorrect := [];
    for i := 0 to |qs|
      invariant correctCount == CorrectCount(qs, answers, i)
      invariant incorrect == Misses(qs, answers, i)
    {
      var userAnswer := Lookup(answers, i);
      if userAnswer == Some(qs[i].correct) {
        correctCount := correctCount + 1;
      } else {
        incorrect := incorrect + [Miss(i + 1, qs[i].question, qs[i].options, qs[i].correct, Shown(userAnswer))];
      }
    }
  }

  // ---------------------------------------------------------------------------
  // The session and its handlers

  /** The Flask session: absent entries are None. */
  class Session {
    var questions: Option<seq<Question>>
    var answers: map<int, string>
    var current: int
    var incorrect: Option<seq<Miss>>

    /**
     * A started quiz has questions, a cursor within them, and exactly one
     * non-empty answer for each step before the cursor; a cached review
     * list has increasing step numbers.
     */
    ghost predicate Valid()
      reads this
    {
      && (questions.Some? ==>
            && |questions.value| > 0
            && 0 <= current <= |questions.value|
            && (forall i :: i in answers <==> 0 <= i < current)
            && (forall i | i in answers :: answers[i] != []))
      && (incorrect.Some? ==> Increasing(incorrect.value))
    }

    /** A new, empty session. */
    constructor ()
      ensures Valid()
      ensures questions.None? && answers == map[] && current == 0 && incorrect.None?
    {
      questions := None;
      answers := map[];
      current := 0;
      incorrect := None;
    }

    /**
     * The POST branch of `home`: parse the document text; if that yields
     * questions, start a quiz at step 0 with no answers, otherwise leave the
     * session as it was. A cached review list is kept either way.
     */
    method Start(text: Option<string>) returns (started: bool)
      requires Valid()
      modifies this
      ensures Valid()
      ensures started <==> |Parse(text)| > 0
      ensures started ==> questions == Some(Parse(text)) && answers == map[] && current == 0
      ensures !started ==> questions == old(questions) && answers == old(answers) && current == old(current)
      ensures incorrect == old(incorrect)
    {
      var parsed := ParseQuestions(text);
      if |parsed| == 0 {
        return false;
      }
      questions := Some(parsed);
      answers := map[];
      current := 0;
      return true;
    }

    /** The GET branch of `question`: which step to ask, or where to redirect. */
    method Show() returns (page: Page)
      requires Valid()
      ensures questions.None? ==> page == Redirect(ToHome)
      ensures questions.Some? && current >= |questions.value| ==> page == Redirect(ToSummary)
      ensures questions.Some? && current < |questions.value| ==>
                page == Ask(current + 1, questions.value[current])
    {
      if questions.None? {
        return Redirect(ToHome);
      }
      var qs := questions.value;
      if current >= |qs| {
        return Redirect(ToSummary);
      }
      page := Ask(current + 1, qs[current]);
    }

    /**
     * The POST branch of `question`: a non-empty answer to an open step is
     * recorded for that step and the cursor advances by one; an empty or
     * missing answer, or a finished quiz, changes nothing.
     */
    method Submit(answer: Option<string>) returns (next: Route)
      requires Valid()
      modifies this
      ensures Valid()
      ensures questions == old(questions) && incorrect == old(incorrect)
      ensures old(questions).None? ==> next == ToHome && unchanged(this)
      ensures old(questions).Some? && old(current) >= |old(questions).value| ==>
                next == ToSummary && unchanged(this)
      ensures old(questions).Some? && old(current) < |old(questions).value| ==>
                && next == ToQuestion
                && if answer.Some? && answer.value != [] then
                     answers == old(answers)[old(current) := answer.value] && current == old(current) + 1
                   else
                     unchanged(this)
    {
      if questions.None? {
        return ToHome;
      }
      if current >= |questions.value| {
        return ToSummary;
      }
      if answer.Some? && |answer.value| > 0 {
        answers := answers[current := answer.value];
        current := current + 1;
      }
      return ToQuestion;
    }

    /**
     * `summary`: score the recorded answers, cache the review list, and
     * return the counts and percentage; None redirects home.
     */
    method Summarize() returns (tally: Option<Tally>)
      requires Valid()
      modifies this
      ensures Valid()
      ensures questions == old(questions) && answers == old(answers) && current == old(current)
      ensures old(questions).None? ==> tally.None? && unchanged(this)
      ensures old(questions).Some? ==>
                var qs := questions.value;
                var c := CorrectCount(qs, answers, |qs|);
                && incorrect == Some(Misses(qs, answers, |qs|))
                && tally == Some(Tally(c, |qs| - c, Percent(c, |qs|)))
    {
      if questions.None? {
        return None;
      }
      var qs := questions.value;
      var correctCount, misses := Score(qs, answers);
      MissesIncreasing(qs, answers, |qs|);
      var total := |qs|;
      var wrong := total - correctCount;
      var percent := Percent(correctCount, total);
      incorrect := Some(misses);
      tally := Some(Tally(correctCount, wrong, percent));
    }

    /** `review`: the cached review list, or None to redirect to the summary. */
    method Review() returns (misses: Option<seq<Miss>>)
      requires Valid()
      ensures misses == incorrect
      ensures misses.Some? ==> Increasing(misses.value)
    {
      misses := incorrect;
    }
  }

  /** After a summary, the wrong count is the number of review entries. */
  lemma WrongCountIsReviewLength(qs: seq<Question>, answers: map<int, string>)
    ensures |qs| - CorrectCount(qs, answers, |qs|) == |Misses(qs, answers, |qs|)|
  {
    TallyAddsUp(qs, answers, |qs|);
  }
}
