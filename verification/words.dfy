/** `normalizeWords` of Quiz/quiz.js: loosely keyed records, as older
    versions of the extension stored them, become canonical quiz words. */
module Words {
  import opened Js
  import opened Strings
  import Seqs

  /** A word's identifier: a number or a string, compared with `!==`. */
  datatype Id = NumId(n: int) | StrId(s: string)

  /** A stored record with every field name any stored format used. `dbId`
      stands for the `_id` field and `kind` for the `type` field. */
  datatype RawWord = RawWord(
    id: Option<Id>, wordId: Option<Id>, dbId: Option<Id>,
    word: Option<string>, en: Option<string>, text: Option<string>,
    vi: Option<string>, vn: Option<string>, meaning: Option<string>,
    description: Option<string>, desc: Option<string>,
    cat: Option<string>, category: Option<string>, kind: Option<string>,
    createdAt: Option<Num>, time: Option<Num>, timestamp: Option<Num>, created: Option<Num>)

  /** A canonical quiz word; `vi` is its translation. */
  datatype Word = Word(id: Id, word: string, vi: string, cat: string, createdAt: int)

  /** `x.id ?? x.wordId ?? x._id ?? position`. */
  function ResolveId(x: RawWord, position: nat): (id: Id)
    ensures x.id.Some? ==> id == x.id.value
    ensures x.id.None? && x.wordId.Some? ==> id == x.wordId.value
    ensures x.id.None? && x.wordId.None? && x.dbId.Some? ==> id == x.dbId.value
    ensures x.id.None? && x.wordId.None? && x.dbId.None? ==> id == NumId(position)
  {
    x.id.GetOr(x.wordId.GetOr(x.dbId.GetOr(NumId(position))))
  }

  /** `x.word ?? x.en ?? x.text ?? ""`: a present `word` wins even when it
      is blank. */
  function ResolveWord(x: RawWord): (word: string)
    ensures x.word.Some? ==> word == x.word.value
    ensures x.word.None? && x.en.Some? ==> word == x.en.value
    ensures x.word.None? && x.en.None? && x.text.Some? ==> word == x.text.value
    ensures x.word.None? && x.en.None? && x.text.None? ==> word == ""
  {
    x.word.GetOr(x.en.GetOr(x.text.GetOr("")))
  }

  /** `x.vi ?? x.vn ?? x.meaning ?? x.description ?? x.desc ?? ""`. */
  function ResolveVi(x: RawWord): (vi: string)
    ensures x.vi.Some? ==> vi == x.vi.value
    ensures x.vi.None? && x.vn.Some? ==> vi == x.vn.value
    ensures x.vi.None? && x.vn.None? && x.meaning.Some? ==> vi == x.meaning.value
    ensures x.vi.None? && x.vn.None? && x.meaning.None? && x.description.Some? ==>
      vi == x.description.value
    ensures x.vi.None? && x.vn.None? && x.meaning.None? && x.description.None? && x.desc.Some? ==>
      vi == x.desc.value
    ensures x.vi.None? && x.vn.None? && x.meaning.None? && x.description.None? && x.desc.None? ==>
      vi == ""
  {
    x.vi.GetOr(x.vn.GetOr(x.meaning.GetOr(x.description.GetOr(x.desc.GetOr("")))))
  }

  /** `x.cat ?? x.category ?? x.type ?? "other"`. */
  function ResolveCat(x: RawWord): (cat: string)
    ensures x.cat.Some? ==> cat == x.cat.value
    ensures x.cat.None? && x.category.Some? ==> cat == x.category.value
    ensures x.cat.None? && x.category.None? && x.kind.Some? ==> cat == x.kind.value
    ensures x.cat.None? && x.category.None? && x.kind.None? ==> cat == "other"
  {
    x.cat.GetOr(x.category.GetOr(x.kind.GetOr("other")))
  }

  /** `Number(x.createdAt ?? x.time ?? x.timestamp ?? x.created ?? now) || now`:
      the first present timestamp, unless it is 0 or not a number. */
  function ResolveTime(x: RawWord, now: int): (t: int)
    ensures x.createdAt.Some? && Truthy(x.createdAt.value) ==> t == x.createdAt.value.n
    ensures x.createdAt.Some? && !Truthy(x.createdAt.value) ==> t == now
    ensures x.createdAt.None? && x.time.Some? && Truthy(x.time.value) ==> t == x.time.value.n
    ensures x.createdAt.None? && x.time.Some? && !Truthy(x.time.value) ==> t == now
    ensures x.createdAt.None? && x.time.None? && x.timestamp.Some? && Truthy(x.timestamp.value) ==>
      t == x.timestamp.value.n
    ensures x.createdAt.None? && x.time.None? && x.timestamp.Some? && !Truthy(x.timestamp.value) ==>
      t == now
    ensures x.createdAt.None? && x.time.None? && x.timestamp.None? && x.created.Some? && Truthy(x.created.value) ==>
      t == x.created.value.n
    ensures x.createdAt.None? && x.time.None? && x.timestamp.None? && x.created.Some? && !Truthy(x.created.value) ==>
      t == now
    ensures x.createdAt.None? && x.time.None? && x.timestamp.None? && x.created.None? ==> t == now
    ensures t != 0 || now == 0
  {
    NumberOr(x.createdAt.GetOr(x.time.GetOr(x.timestamp.GetOr(x.created.GetOr(Finite(now))))), now)
  }

  /** The record at 1-based `position` in canonical form, before the blank
      ones are dropped; `now` stands for `Date.now()`. Word and translation
      carry no surrounding whitespace, and the time is never 0 unless the
      clock reads 0. */
  function Canonical(x: RawWord, position: nat, now: int): (w: Word)
    ensures Trim(w.word) == w.word && Trim(w.vi) == w.vi
    ensures w.createdAt != 0 || now == 0
  {
    TrimIdempotent(ResolveWord(x));
    TrimIdempotent(ResolveVi(x));
    Word(ResolveId(x, position), Trim(ResolveWord(x)), Trim(ResolveVi(x)), ResolveCat(x), ResolveTime(x, now))
  }

  /** The words a normalized list keeps: non-empty text and translation. */
  predicate Complete(w: Word) {
    w.word != "" && w.vi != ""
  }

  /** Every record in canonical form, each with its 1-based position. */
  function Canonicals(list: seq<RawWord>, now: int): (ws: seq<Word>)
    ensures |ws| == |list|
    ensures forall i :: 0 <= i < |list| ==> ws[i] == Canonical(list[i], i + 1, now)
  {
    seq(|list|, i requires 0 <= i < |list| => Canonical(list[i], i + 1, now))
  }

  /** `normalizeWords(list)`. */
  function NormalizeWords(list: seq<RawWord>, now: int): (r: seq<Word>)
    ensures |r| <= |list|
    ensures forall i :: 0 <= i < |r| ==> r[i].word != "" && r[i].vi != ""
    ensures forall i :: 0 <= i < |r| ==> Trim(r[i].word) == r[i].word && Trim(r[i].vi) == r[i].vi
    // input order is kept
    ensures Seqs.SubsequenceOf(r, Canonicals(list, now))
    // a complete record is kept as often as it occurs, an incomplete one never
    ensures forall x :: multiset(r)[x] == if Complete(x) then multiset(Canonicals(list, now))[x] else 0
    // only the records with a blank word or translation are dropped
    ensures forall i :: 0 <= i < |list| ==>
      (Canonical(list[i], i + 1, now) in r <==> Complete(Canonical(list[i], i + 1, now)))
  {
    var all := Canonicals(list, now);
    var r := Seqs.Filter(all, Complete);
    assert forall x :: multiset(r)[x] == if Complete(x) then multiset(all)[x] else 0;
    FilteredAreTrimmed(list, now, r);
    KeptExactly(list, now, r);
    r
  }

  lemma FilteredAreTrimmed(list: seq<RawWord>, now: int, r: seq<Word>)
    requires forall x :: multiset(r)[x] == if Complete(x) then multiset(Canonicals(list, now))[x] else 0
    ensures forall i :: 0 <= i < |r| ==> Trim(r[i].word) == r[i].word && Trim(r[i].vi) == r[i].vi
  {
    var all := Canonicals(list, now);
    forall i | 0 <= i < |r|
      ensures Trim(r[i].word) == r[i].word && Trim(r[i].vi) == r[i].vi
    {
      assert r[i] in multiset(r);
      assert r[i] in multiset(all);
      var k :| 0 <= k < |all| && all[k] == r[i];
      assert all[k] == Canonical(list[k], k + 1, now);
    }
  }

  lemma KeptExactly(list: seq<RawWord>, now: int, r: seq<Word>)
    requires forall x :: multiset(r)[x] == if Complete(x) then multiset(Canonicals(list, now))[x] else 0
    ensures forall i :: 0 <= i < |list| ==>
      (Canonical(list[i], i + 1, now) in r <==> Complete(Canonical(list[i], i + 1, now)))
  {
    var all := Canonicals(list, now);
    forall i | 0 <= i < |list|
      ensures Canonical(list[i], i + 1, now) in r <==> Complete(Canonical(list[i], i + 1, now))
    {
      var w := all[i];
      assert w in multiset(all);
      assert w in r <==> w in multiset(r);
    }
  }

  /** A record whose `word` field is present but blank is dropped, whatever
      its `en` or `text` fields hold: `??` only skips null and undefined. */
  lemma BlankWordDoesNotFallThrough(list: seq<RawWord>, i: nat, now: int)
    requires i < |list| && list[i].word.Some? && Blank(list[i].word.value)
    ensures Canonical(list[i], i + 1, now) !in NormalizeWords(list, now)
  {
  }
}
