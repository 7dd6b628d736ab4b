/** The quiz session of Quiz/quiz.js: the questions, the current index, the
    score and the finished flag, with the transitions the page's buttons and
    radio inputs drive. Rendering is left out; each transition returns the
    next state. */
module Session {
  import opened Js
  import opened Words
  import opened Random
  import opened Months
  import opened Questions

  /** POOL, QUESTIONS, idx, score and finished. */
  datatype Quiz = Quiz(pool: seq<Word>, questions: seq<Question>, idx: int, score: int, finished: bool)

  /** `q.chosen != null && q.chosen === q.answerIndex`. */
  predicate IsCorrect(q: Question) {
    q.chosen.Some? && q.chosen.value == q.answerIndex
  }

  /** The `reduce` of `recomputeScore`, from the left. */
  function CountCorrect(qs: seq<Question>): (n: nat)
    ensures n <= |qs|
  {
    if qs == [] then 0
    else CountCorrect(qs[..|qs| - 1]) + (if IsCorrect(qs[|qs| - 1]) then 1 else 0)
  }

  /** The positions of the correctly answered questions. */
  ghost function CorrectSet(qs: seq<Question>): set<int> {
    set i | 0 <= i < |qs| && IsCorrect(qs[i])
  }

  /** The score counts exactly the correctly answered questions. */
  lemma {:induction false} CountIsCorrectSet(qs: seq<Question>)
    ensures CountCorrect(qs) == |CorrectSet(qs)|
  {
    if qs != [] {
      var init := qs[..|qs| - 1];
      CountIsCorrectSet(init);
      var last := |qs| - 1;
      assert forall i :: 0 <= i < last ==> qs[i] == init[i];
      if IsCorrect(qs[last]) {
        assert CorrectSet(qs) == CorrectSet(init) + {last};
      } else {
        assert CorrectSet(qs) == CorrectSet(init);
      }
    }
  }

  /** The count is 0 when no answer is correct and the number of questions
      when every answer is. */
  lemma {:induction false} CountExtremes(qs: seq<Question>)
    ensures (forall k :: 0 <= k < |qs| ==> !IsCorrect(qs[k])) ==> CountCorrect(qs) == 0
    ensures (forall k :: 0 <= k < |qs| ==> IsCorrect(qs[k])) ==> CountCorrect(qs) == |qs|
  {
    if qs != [] {
      var init := qs[..|qs| - 1];
      CountExtremes(init);
      assert forall k :: 0 <= k < |init| ==> init[k] == qs[k];
    }
  }

  /** Replacing one question changes the count by that question's share only. */
  lemma {:induction false} CountUpdate(qs: seq<Question>, k: nat, q: Question)
    requires k < |qs|
    ensures CountCorrect(qs[k := q]) ==
      CountCorrect(qs) - (if IsCorrect(qs[k]) then 1 else 0) + (if IsCorrect(q) then 1 else 0)
  {
    var init := qs[..|qs| - 1];
    var updated := qs[k := q];
    if k == |qs| - 1 {
      assert updated[..|qs| - 1] == init;
    } else {
      assert updated[..|qs| - 1] == init[k := q];
      CountUpdate(init, k, q);
    }
  }

  /** What the start, restart, navigation, answer and finish transitions
      keep: an index within the questions (0 when there are none),
      well-formed questions, and the score of the current answers. The JSON
      import's reset (`ImportReset`) zeroes the score without clearing the
      answers, so it can leave this. */
  ghost predicate Valid(s: Quiz) {
    && (if s.questions == [] then s.idx == 0 else 0 <= s.idx < |s.questions|)
    && (forall k :: 0 <= k < |s.questions| ==> WellFormed(s.questions[k]))
    && s.score == CountCorrect(s.questions)
  }

  /** `recomputeScore()`: the score becomes the number of correctly answered
      questions; nothing else changes. */
  function RecomputeScore(s: Quiz): (r: Quiz)
    ensures r == s.(score := r.score)
    ensures 0 <= r.score <= |s.questions|
    ensures r.score == |CorrectSet(s.questions)|
  {
    CountIsCorrectSet(s.questions);
    s.(score := CountCorrect(s.questions))
  }

  /** `goto(i)`: `idx = min(max(0, i), len - 1)`, which is -1 when there are
      no questions. */
  function Goto(s: Quiz, i: int): (r: Quiz)
    ensures r == s.(idx := r.idx)
    ensures s.questions == [] ==> r.idx == -1
    ensures s.questions != [] ==> 0 <= r.idx < |s.questions|
    ensures 0 <= i < |s.questions| ==> r.idx == i
    ensures s.questions != [] && i < 0 ==> r.idx == 0
    ensures s.questions != [] && i >= |s.questions| ==> r.idx == |s.questions| - 1
  {
    var lo := if i < 0 then 0 else i;
    s.(idx := if lo < |s.questions| - 1 then lo else |s.questions| - 1)
  }

  /** `next()`: one question forward, a no-op on the last one. */
  function Next(s: Quiz): (r: Quiz)
    ensures Valid(s) ==> Valid(r)
    ensures Valid(s) && s.idx < |s.questions| - 1 ==> r == s.(idx := s.idx + 1)
    ensures s.idx >= |s.questions| - 1 ==> r == s
  {
    if s.idx < |s.questions| - 1 then Goto(s, s.idx + 1) else s
  }

  /** `prev()`: one question back, a no-op on the first one. */
  function Prev(s: Quiz): (r: Quiz)
    ensures Valid(s) ==> Valid(r)
    ensures Valid(s) && s.idx > 0 ==> r == s.(idx := s.idx - 1)
    ensures s.idx <= 0 ==> r == s
  {
    if s.idx > 0 then Goto(s, s.idx - 1) else s
  }

  /** The change handler of option `option` of the shown question:
      `q.chosen = i; recomputeScore()`. The handler does not look at
      `finished`, so an answer given after finishing still counts. */
  function Answer(s: Quiz, option: int): (r: Quiz)
    requires 0 <= s.idx < |s.questions|
    requires 0 <= option < |s.questions[s.idx].options|
    ensures |r.questions| == |s.questions|
    ensures r.questions[s.idx] == s.questions[s.idx].(chosen := Some(option))
    ensures forall k :: 0 <= k < |s.questions| && k != s.idx ==> r.questions[k] == s.questions[k]
    ensures r.pool == s.pool && r.idx == s.idx && r.finished == s.finished
    ensures r.score == CountCorrect(r.questions)
  {
    var q := s.questions[s.idx].(chosen := Some(option));
    RecomputeScore(s.(questions := s.questions[s.idx := q]))
  }

  /** Answering keeps a valid state valid, and moves the score by the
      answered question's share only. */
  lemma AnswerKeepsValid(s: Quiz, option: int)
    requires Valid(s)
    requires 0 <= s.idx < |s.questions|
    requires 0 <= option < |s.questions[s.idx].options|
    ensures Valid(Answer(s, option))
    ensures Answer(s, option).score ==
      s.score - (if IsCorrect(s.questions[s.idx]) then 1 else 0) + (if option == s.questions[s.idx].answerIndex then 1 else 0)
  {
    var q := s.questions[s.idx].(chosen := Some(option));
    CountUpdate(s.questions, s.idx, q);
    AnsweredWellFormed(s.questions, s.idx, option);
    assert Answer(s, option).questions == s.questions[s.idx := q];
  }

  /** Answering a question of a well-formed list with one of its options
      keeps the list well formed. */
  lemma AnsweredWellFormed(qs: seq<Question>, i: nat, option: int)
    requires i < |qs| && 0 <= option < |qs[i].options|
    requires forall k :: 0 <= k < |qs| ==> WellFormed(qs[k])
    ensures var answered := qs[i := qs[i].(chosen := Some(option))];
      forall k :: 0 <= k < |answered| ==> WellFormed(answered[k])
  {
  }

  /** The finish button: `recomputeScore(); showResult()`, which sets
      `finished`. The score it shows is the one the answers already gave. */
  function Finish(s: Quiz): (r: Quiz)
    ensures r.finished
    ensures r.pool == s.pool && r.questions == s.questions && r.idx == s.idx
    ensures 0 <= r.score <= |s.questions|
    ensures Valid(s) ==> r == s.(finished := true) && Valid(r)
  {
    RecomputeScore(s).(finished := true)
  }

  /** The JSON import's reset, `idx = 0; score = 0; finished = false`: the
      questions keep their answers and POOL stays. A valid state stays valid
      exactly when none of its answers is correct. */
  function ImportReset(s: Quiz): (r: Quiz)
    ensures r.pool == s.pool && r.questions == s.questions
    ensures r.idx == 0 && r.score == 0 && !r.finished
    ensures Valid(s) ==> (Valid(r) <==> CountCorrect(s.questions) == 0)
  {
    s.(idx := 0, score := 0, finished := false)
  }

  /** After the import's reset, finishing or answering recounts the score
      and gives a valid state again. */
  lemma ResetRecovers(s: Quiz, option: int)
    requires Valid(s)
    ensures Valid(Finish(ImportReset(s)))
    ensures Finish(ImportReset(s)).score == CountCorrect(s.questions)
    ensures s.questions != [] && 0 <= option < |s.questions[0].options| ==>
      Valid(Answer(ImportReset(s), option))
  {
    var r := ImportReset(s);
    if s.questions != [] && 0 <= option < |s.questions[0].options| {
      AnsweredWellFormed(s.questions, 0, option);
      assert Answer(r, option).questions == s.questions[0 := s.questions[0].(chosen := Some(option))];
    }
  }

  /** A freshly built question list scores nothing. */
  lemma {:induction false} UnansweredScoreZero(qs: seq<Question>)
    requires forall k :: 0 <= k < |qs| ==> qs[k].chosen == None
    ensures CountCorrect(qs) == 0
  {
    if qs != [] {
      UnansweredScoreZero(qs[..|qs| - 1]);
    }
  }

  /** The question list for `pool` in a fresh state: one question per word,
      most recent word first, then the first question, score 0, not
      finished. */
  function Fresh(pool: seq<Word>, rand: Rand, pos: nat): (r: (Quiz, nat))
    ensures r.0.pool == pool && |r.0.questions| == |pool|
    ensures forall k :: 0 <= k < |pool| ==> BuiltFor(r.0.questions[k], pool, ByRecency(pool)[k])
    ensures r.0.idx == 0 && r.0.score == 0 && !r.0.finished
    ensures Valid(r.0)
  {
    var (qs, next) := BuildQuestions(pool, rand, pos);
    FreshValid(pool, qs);
    var s := RecomputeScore(Quiz(pool, qs, 0, 0, false));
    assert s.questions == qs;
    (s, next)
  }

  /** Freshly built questions give a valid state with score 0. */
  lemma FreshValid(pool: seq<Word>, qs: seq<Question>)
    requires |qs| == |pool|
    requires forall k :: 0 <= k < |pool| ==> BuiltFor(qs[k], pool, ByRecency(pool)[k])
    ensures CountCorrect(qs) == 0
    ensures Valid(Quiz(pool, qs, 0, 0, false))
  {
    UnansweredScoreZero(qs);
  }

  /** The start button: POOL from the selected month, then fresh questions. */
  function Start(data: seq<Word>, sel: string, cal: Calendar, now: int, rand: Rand, pos: nat): (r: (Quiz, nat))
    ensures r.0.pool == SelectPool(data, sel, cal, now)
    ensures |r.0.questions| == |r.0.pool|
    ensures forall k :: 0 <= k < |r.0.pool| ==> BuiltFor(r.0.questions[k], r.0.pool, ByRecency(r.0.pool)[k])
    ensures r.0.idx == 0 && r.0.score == 0 && !r.0.finished
    ensures Valid(r.0)
  {
    Fresh(SelectPool(data, sel, cal, now), rand, pos)
  }

  /** The restart button: new questions from the same POOL, from the top. */
  function Restart(s: Quiz, rand: Rand, pos: nat): (r: (Quiz, nat))
    ensures r.0.pool == s.pool && |r.0.questions| == |s.pool|
    ensures forall k :: 0 <= k < |s.pool| ==> BuiltFor(r.0.questions[k], s.pool, ByRecency(s.pool)[k])
    ensures r.0.idx == 0 && r.0.score == 0 && !r.0.finished
    ensures Valid(r.0)
  {
    Fresh(s.pool, rand, pos)
  }

  /** A quiz on a single word has one option, its own translation: answering
      it and finishing scores one out of one. */
  lemma SingleWordQuiz(w: Word, rand: Rand, pos: nat)
    ensures Fresh([w], rand, pos).0.questions[0].options == [w.vi]
    ensures Finish(Answer(Fresh([w], rand, pos).0, 0)).score == 1
  {
    var s := Fresh([w], rand, pos).0;
    assert ByRecency([w]) == [w] by {
      assert multiset(ByRecency([w])) == multiset([w]);
      assert ByRecency([w])[0] in multiset([w]);
    }
    SingleQuestion(w, s.questions[0]);
    var a := Answer(s, 0);
    assert IsCorrect(a.questions[0]);
    assert a.questions == [a.questions[0]];
    CountExtremes(a.questions);
  }

  /** The question built for the only word of a pool offers that word's
      translation alone, as the answer. */
  lemma SingleQuestion(w: Word, q: Question)
    requires BuiltFor(q, [w], w)
    ensures q.options == [w.vi] && q.answerIndex == 0
  {
    assert Rivals([w], w) == {};
    assert |q.options| == 1;
  }
}
