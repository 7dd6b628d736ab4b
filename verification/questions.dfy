/** `buildQuestionsFrom` and `pickDistractors` of Quiz/quiz.js: every word
    of the pool becomes a multiple-choice question whose options are its own
    translation and up to three other translations, in random order. */
module Questions {
  import opened Js
  import opened Words
  import opened Random
  import Seqs
  import Sorting

  /** A quiz question. `correct` is the source word's translation and
      `answerIndex` its position among `options`; `chosen` is the option
      the user picked, null until they answer. */
  datatype Question = Question(
    word: string, cat: string, correct: string,
    options: seq<string>, answerIndex: int, chosen: Option<int>)

  /** The filter of `pickDistractors`: another word (by `!==` on ids) with a
      non-empty translation different from the item's. */
  predicate IsRival(x: Word, item: Word) {
    x.id != item.id && x.vi != "" && x.vi != item.vi
  }

  /** The translations a distractor for `item` may be. */
  ghost function Rivals(pool: seq<Word>, item: Word): set<string> {
    set x | x in pool && IsRival(x, item) :: x.vi
  }

  /** `pool.filter(...).map((x) => x.vi)`: the rival translations, with
      repeats. */
  function Candidates(pool: seq<Word>, item: Word): (r: seq<string>)
    ensures forall v :: v in r <==> v in Rivals(pool, item)
  {
    var r := Seqs.FilterMap(pool, (x: Word) => if IsRival(x, item) then Some(x.vi) else None);
    forall v | v in Rivals(pool, item)
      ensures v in r
    {
      var x :| x in pool && IsRival(x, item) && x.vi == v;
      var i :| 0 <= i < |pool| && pool[i] == x;
    }
    r
  }

  lemma PrefixMultiset<T>(s: seq<T>, k: nat)
    requires k <= |s|
    ensures multiset(s[..k]) <= multiset(s)
  {
    assert s == s[..k] + s[k..];
  }

  /** `pickDistractors(pool, item, n)`: `min(n, number of rival translations)`
      different rival translations, chosen by the oracle; also the position
      of the next unused draw. */
  function PickDistractors(pool: seq<Word>, item: Word, n: int, rand: Rand, pos: nat): (r: (seq<string>, nat))
    ensures |r.0| == if n <= 0 then 0 else if n < |Rivals(pool, item)| then n else |Rivals(pool, item)|
    ensures Seqs.Distinct(r.0)
    ensures forall v :: v in r.0 ==> v in Rivals(pool, item)
    ensures n >= |Rivals(pool, item)| ==> forall v :: v in r.0 <==> v in Rivals(pool, item)
    ensures r.1 == pos + Draws(|Rivals(pool, item)|)
  {
    var unique := Seqs.Dedup(Candidates(pool, item));
    UniqueCandidates(pool, item, unique);
    var (shuffled, next) := Shuffle(unique, rand, pos);
    var k := if n <= 0 then 0 else if n < |unique| then n else |unique|;
    PrefixOfPermutation(Rivals(pool, item), shuffled, k);
    (shuffled[..k], next)
  }

  lemma UniqueCandidates(pool: seq<Word>, item: Word, unique: seq<string>)
    requires forall x :: multiset(unique)[x] == if x in Candidates(pool, item) then 1 else 0
    ensures multiset(unique) == multiset(Rivals(pool, item))
    ensures |unique| == |Rivals(pool, item)|
  {
    var rivals := Rivals(pool, item);
    assert multiset(unique) == multiset(rivals);
    Seqs.OnceEachIsDistinct(unique);
    Seqs.DistinctCard(unique);
    assert forall v :: v in unique <==> v in multiset(unique);
    assert Seqs.Elems(unique) == rivals;
  }

  /** A prefix of an ordering of the set `rivals` is duplicate-free and drawn
      from `rivals`; the whole ordering has all of them. */
  lemma PrefixOfPermutation(rivals: set<string>, s: seq<string>, k: nat)
    requires multiset(s) == multiset(rivals) && k <= |s|
    ensures Seqs.Distinct(s[..k])
    ensures forall v :: v in s[..k] ==> v in rivals
    ensures k == |s| ==> forall v :: v in s[..k] <==> v in rivals
  {
    var picked := s[..k];
    PrefixMultiset(s, k);
    Seqs.OnceEachIsDistinct(picked);
    assert forall v :: v in picked ==> v in multiset(picked);
    assert k == |s| ==> picked == s;
    assert forall v :: v in s <==> v in multiset(s);
  }

  /** `options.findIndex((t) => t === x)`: the first position of `x`, or -1. */
  function FindIndex(s: seq<string>, x: string): (i: int)
    ensures -1 <= i < |s|
    ensures i == -1 <==> x !in s
    ensures i >= 0 ==> s[i] == x && x !in s[..i]
  {
    if s == [] then -1
    else if s[0] == x then 0
    else
      var i := FindIndex(s[1..], x);
      assert s == [s[0]] + s[1..];
      if i == -1 then -1
      else
        assert s[..i + 1] == [s[0]] + s[1..][..i];
        i + 1
  }

  /** The structure every question has: one to four options, the correct
      translation among them exactly once and at `answerIndex`, all options
      different, and a choice (if any) that names an option. */
  ghost predicate WellFormed(q: Question) {
    && 1 <= |q.options| <= 4
    && 0 <= q.answerIndex < |q.options|
    && q.options[q.answerIndex] == q.correct
    && multiset(q.options)[q.correct] == 1
    && Seqs.Distinct(q.options)
    && (q.chosen.Some? ==> 0 <= q.chosen.value < |q.options|)
  }

  /** `q` is the unanswered question built for `item` when the distractors
      come from `pool`. */
  ghost predicate BuiltFor(q: Question, pool: seq<Word>, item: Word) {
    && q.word == item.word && q.cat == item.cat && q.correct == item.vi
    && q.chosen == None
    && WellFormed(q)
    && |q.options| == 1 + (if |Rivals(pool, item)| < 3 then |Rivals(pool, item)| else 3)
    && (forall o :: o in q.options ==> o == item.vi || o in Rivals(pool, item))
  }

  /** One iteration of `buildQuestionsFrom`'s loop. */
  function MakeQuestion(pool: seq<Word>, item: Word, rand: Rand, pos: nat): (r: (Question, nat))
    ensures BuiltFor(r.0, pool, item)
  {
    var (distractors, p1) := PickDistractors(pool, item, 3, rand, pos);
    var (options, p2) := Shuffle([item.vi] + distractors, rand, p1);
    NotOwnRival(pool, item);
    Arranged(item.vi, distractors, options);
    var answer := FindIndex(options, item.vi);
    (Question(item.word, item.cat, item.vi, options, answer, None), p2)
  }

  /** An item's own translation is never one of its rivals. */
  lemma NotOwnRival(pool: seq<Word>, item: Word)
    ensures item.vi !in Rivals(pool, item)
  {
  }

  /** Any ordering of the correct translation and distinct distractors
      other than it holds each of them exactly once. */
  lemma Arranged(correct: string, distractors: seq<string>, options: seq<string>)
    requires Seqs.Distinct(distractors) && correct !in distractors
    requires multiset(options) == multiset([correct] + distractors)
    ensures |options| == 1 + |distractors|
    ensures correct in options && multiset(options)[correct] == 1
    ensures Seqs.Distinct(options)
    ensures forall o :: o in options ==> o == correct || o in distractors
  {
    var all := [correct] + distractors;
    assert multiset(all)[correct] == 1;
    assert |multiset(options)| == |multiset(all)|;
    assert correct in multiset(options);
    forall o | o in options
      ensures o == correct || o in distractors
    {
      assert o in multiset(all);
    }
    ConsDistinct(correct, distractors);
    DistinctSameMultiset(all, options);
  }

  /** In a sequence of distinct elements nothing occurs twice. */
  lemma {:induction false} DistinctOnce<T>(s: seq<T>, v: T)
    requires Seqs.Distinct(s)
    ensures multiset(s)[v] <= 1
  {
    if s != [] {
      var init := s[..|s| - 1];
      assert s == init + [s[|s| - 1]];
      DistinctOnce(init, v);
      if s[|s| - 1] == v {
        assert v !in init;
      }
    }
  }

  lemma ConsDistinct<T>(x: T, s: seq<T>)
    requires Seqs.Distinct(s) && x !in s
    ensures Seqs.Distinct([x] + s)
  {
  }

  /** Being duplicate-free survives a permutation. */
  lemma DistinctSameMultiset<T>(s: seq<T>, t: seq<T>)
    requires Seqs.Distinct(s) && multiset(s) == multiset(t)
    ensures Seqs.Distinct(t)
  {
    forall v
      ensures multiset(t)[v] <= 1
    {
      DistinctOnce(s, v);
    }
    Seqs.OnceEachIsDistinct(t);
  }

  /** `[...pool].sort((a, b) => (b.createdAt || 0) - (a.createdAt || 0))`. */
  function ByRecency(pool: seq<Word>): (sorted: seq<Word>)
    ensures |sorted| == |pool| && multiset(sorted) == multiset(pool)
    ensures Sorting.NonIncreasing(sorted, (w: Word) => w.createdAt)
  {
    Sorting.SortDesc(pool, (w: Word) => w.createdAt)
  }

  /** A permutation of the pool offers each word the same rivals. */
  lemma RivalsOfPermutation(pool: seq<Word>, sorted: seq<Word>, item: Word)
    requires multiset(sorted) == multiset(pool)
    ensures Rivals(sorted, item) == Rivals(pool, item)
  {
    Sorting.SameElements(pool, sorted);
  }

  /** The loop of `buildQuestionsFrom` from index `i` of the sorted pool on. */
  function BuildFrom(sorted: seq<Word>, i: nat, rand: Rand, pos: nat): (r: (seq<Question>, nat))
    requires i <= |sorted|
    ensures |r.0| == |sorted| - i
    ensures forall k :: 0 <= k < |r.0| ==> BuiltFor(r.0[k], sorted, sorted[i + k])
    decreases |sorted| - i
  {
    if i == |sorted| then ([], pos)
    else
      var (q, p1) := MakeQuestion(sorted, sorted[i], rand, pos);
      var (rest, p2) := BuildFrom(sorted, i + 1, rand, p1);
      Cons(q, rest, sorted, i);
      ([q] + rest, p2)
  }

  lemma Cons(q: Question, rest: seq<Question>, sorted: seq<Word>, i: nat)
    requires i < |sorted| && |rest| == |sorted| - i - 1
    requires BuiltFor(q, sorted, sorted[i])
    requires forall k :: 0 <= k < |rest| ==> BuiltFor(rest[k], sorted, sorted[i + 1 + k])
    ensures forall k :: 0 <= k < |rest| + 1 ==> BuiltFor(([q] + rest)[k], sorted, sorted[i + k])
  {
    forall k | 0 <= k < |rest| + 1
      ensures BuiltFor(([q] + rest)[k], sorted, sorted[i + k])
    {
      if k > 0 {
        assert ([q] + rest)[k] == rest[k - 1];
        assert i + k == i + 1 + (k - 1);
      }
    }
  }

  /** `buildQuestionsFrom(pool)`: question `k` is built for the `k`-th word
      of the pool taken most recent first, with that word's rivals in the
      whole pool as its distractors. */
  function BuildQuestions(pool: seq<Word>, rand: Rand, pos: nat): (r: (seq<Question>, nat))
    ensures |r.0| == |pool|
    ensures forall k :: 0 <= k < |pool| ==> BuiltFor(r.0[k], pool, ByRecency(pool)[k])
  {
    var sorted := ByRecency(pool);
    var r := BuildFrom(sorted, 0, rand, pos);
    forall k | 0 <= k < |pool|
      ensures BuiltFor(r.0[k], pool, sorted[k])
    {
      RivalsOfPermutation(pool, sorted, sorted[k]);
    }
    r
  }
}
