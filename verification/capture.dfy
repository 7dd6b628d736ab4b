/** The list logic of the capture script, page_interactor/content.js: when
    a selection may be saved, whether a word is already saved, saving a word
    with its note and category (`addVocab`), looking a note up (`findNote`),
    and a category's label. The saved list and the page's url are
    parameters; storage, the bubble and the toast are left out. */
module Capture {
  import opened Js
  import opened Strings
  import opened Items

  /** `isValidSelection(text)`: a present selection with a non-blank
      character and at most 1000 UTF-16 code units. */
  function IsValidSelection(text: Option<string>): (ok: bool)
    ensures ok <==> text.Some? && !Blank(text.value) && Utf16Length(text.value) <= 1000
  {
    if text.None? || Trim(text.value) == "" then false
    else Utf16Length(text.value) <= 1000
  }

  /** `hasItem(text)`: some saved word has this text, in any letter case and
      on any page. */
  function HasItem(items: seq<Item>, text: string): (b: bool)
    ensures b <==> exists i :: 0 <= i < |items| && SameText(items[i].text, text)
  {
    if items == [] then false
    else if SameText(items[0].text, text) then true
    else
      var b := HasItem(items[1..], text);
      assert forall i :: 0 < i < |items| ==> items[i] == items[1..][i - 1];
      b
  }

  /** The entry `addVocab` updates: same text in any letter case, same page. */
  predicate IsEntryFor(it: Item, text: string, url: string) {
    SameText(it.text, text) && it.url == url
  }

  /** `items.findIndex(...)` for the entry of `text` on page `url`. */
  function MatchIndex(items: seq<Item>, text: string, url: string): (p: int)
    ensures -1 <= p < |items|
    ensures p == -1 <==> forall i :: 0 <= i < |items| ==> !IsEntryFor(items[i], text, url)
    ensures p >= 0 ==> IsEntryFor(items[p], text, url)
    ensures p >= 0 ==> forall i :: 0 <= i < p ==> !IsEntryFor(items[i], text, url)
  {
    if items == [] then -1
    else if IsEntryFor(items[0], text, url) then 0
    else
      var p := MatchIndex(items[1..], text, url);
      assert forall i :: 0 < i < |items| ==> items[i] == items[1..][i - 1];
      if p == -1 then -1 else p + 1
  }

  /** `vi && vi.trim()`: a note is given when it has a non-blank character. */
  function Note(vi: string): (r: Option<string>)
    ensures r.None? <==> Blank(vi)
    ensures r.Some? ==> r.value == Trim(vi) && r.value != ""
  {
    var t := Trim(vi);
    if t == "" then None else Some(t)
  }

  /** The entry a first save of `text` creates: the note only when one is
      given, the category `cat || 'other'`. */
  function NewEntry(text: string, vi: string, cat: string, url: string, now: int): (e: Item)
    ensures e.text == text && e.url == url && e.time == now
    ensures e.vi == Note(vi)
    ensures cat != "" ==> e.cat == cat
    ensures cat == "" ==> e.cat == "other"
  {
    Item(text, Note(vi), if cat == "" then "other" else cat, url, now)
  }

  /** The update of an existing entry: a given note replaces the old one, a
      non-empty category replaces the old one; nothing else changes. */
  function Touch(it: Item, vi: string, cat: string): (r: Item)
    ensures r.text == it.text && r.url == it.url && r.time == it.time
    ensures Blank(vi) ==> r.vi == it.vi
    ensures !Blank(vi) ==> r.vi == Some(Trim(vi))
    ensures cat == "" ==> r.cat == it.cat
    ensures cat != "" ==> r.cat == cat
  {
    it.(vi := if Note(vi).Some? then Note(vi) else it.vi, cat := if cat != "" then cat else it.cat)
  }

  /** `addVocab(text, vi, cat)` on the saved list, the page being `url` and
      the clock `now`. */
  function AddVocab(items: seq<Item>, text: string, vi: string, cat: string, url: string, now: int): (r: seq<Item>)
    // a blank selection saves nothing
    ensures Blank(text) ==> r == items
    // a new word goes to the front, the rest follow unchanged
    ensures !Blank(text) && MatchIndex(items, Trim(text), url) == -1 ==>
      r == [NewEntry(Trim(text), vi, cat, url, now)] + items
    // a known word on this page: only its first entry is touched
    ensures !Blank(text) && MatchIndex(items, Trim(text), url) >= 0 ==>
      |r| == |items| &&
      r[MatchIndex(items, Trim(text), url)] == Touch(items[MatchIndex(items, Trim(text), url)], vi, cat) &&
      forall j :: 0 <= j < |items| && j != MatchIndex(items, Trim(text), url) ==> r[j] == items[j]
  {
    var t := Trim(text);
    if t == "" then items
    else
      var p := MatchIndex(items, t, url);
      if p >= 0 then items[p := Touch(items[p], vi, cat)]
      else [NewEntry(t, vi, cat, url, now)] + items
  }

  /** A saved word is known afterwards. */
  lemma AddVocabThenHas(items: seq<Item>, text: string, vi: string, cat: string, url: string, now: int)
    requires !Blank(text)
    ensures HasItem(AddVocab(items, text, vi, cat, url, now), Trim(text))
  {
    var r := AddVocab(items, text, vi, cat, url, now);
    var p := MatchIndex(items, Trim(text), url);
    if p >= 0 {
      assert SameText(r[p].text, Trim(text));
    } else {
      assert SameText(r[0].text, Trim(text));
    }
  }

  /** Saving the same word twice with the same note and category is the
      same as saving it once. */
  lemma AddVocabIdempotent(items: seq<Item>, text: string, vi: string, cat: string, url: string, now: int, later: int)
    ensures AddVocab(AddVocab(items, text, vi, cat, url, now), text, vi, cat, url, later) ==
      AddVocab(items, text, vi, cat, url, now)
  {
    var t := Trim(text);
    if t != "" {
      if MatchIndex(items, t, url) >= 0 {
        TouchAgain(items, t, vi, cat, url);
      } else {
        InsertAgain(items, t, vi, cat, url, now);
      }
    }
  }

  /** Touching the entry a save touched finds it at the same place and
      changes nothing more. */
  lemma TouchAgain(items: seq<Item>, t: string, vi: string, cat: string, url: string)
    requires MatchIndex(items, t, url) >= 0
    ensures var p := MatchIndex(items, t, url);
      var r := items[p := Touch(items[p], vi, cat)];
      MatchIndex(r, t, url) == p && r[p := Touch(r[p], vi, cat)] == r
  {
    var p := MatchIndex(items, t, url);
    var r := items[p := Touch(items[p], vi, cat)];
    assert IsEntryFor(r[p], t, url);
    assert forall i :: 0 <= i < p ==> r[i] == items[i];
    assert Touch(r[p], vi, cat) == r[p];
  }

  /** After a new entry went to the front, the next save finds it there. */
  lemma InsertAgain(items: seq<Item>, t: string, vi: string, cat: string, url: string, now: int)
    ensures var r := [NewEntry(t, vi, cat, url, now)] + items;
      MatchIndex(r, t, url) == 0 && r[0 := Touch(r[0], vi, cat)] == r
  {
    var r := [NewEntry(t, vi, cat, url, now)] + items;
    assert IsEntryFor(r[0], t, url);
    assert Touch(r[0], vi, cat) == r[0];
  }

  // ---------------------------------------------------------------------
  // findNote

  /** `(i.vi || i.cat)`: the entry carries a note or a category. */
  predicate HasNote(it: Item) {
    (it.vi.Some? && it.vi.value != "") || it.cat != ""
  }

  /** A saved entry of `text` with a note or category. */
  predicate Noted(it: Item, text: string) {
    SameText(it.text, text) && HasNote(it)
  }

  /** `items.find(p)`: the first element satisfying `p`, or none. */
  function Find(items: seq<Item>, p: Item -> bool): (r: Option<Item>)
    ensures r.None? <==> forall i :: 0 <= i < |items| ==> !p(items[i])
    ensures r.Some? ==> exists i :: (0 <= i < |items| && items[i] == r.value && p(items[i]) &&
      forall j :: 0 <= j < i ==> !p(items[j]))
  {
    if items == [] then None
    else if p(items[0]) then Some(items[0])
    else
      var r := Find(items[1..], p);
      assert forall i :: 0 < i < |items| ==> items[i] == items[1..][i - 1];
      if r.Some? then
        var i :| 0 <= i < |items[1..]| && items[1..][i] == r.value && p(items[1..][i]) &&
          forall j :: 0 <= j < i ==> !p(items[1..][j]);
        assert items[i + 1] == r.value;
        r
      else r
  }

  /** `findNote(text)` on page `url`: the first noted entry of the word
      saved from this page, else the first from any page, else none. */
  function FindNote(items: seq<Item>, text: string, url: string): (r: Option<Item>)
    ensures r.Some? ==> r.value in items && Noted(r.value, text)
    ensures r.None? <==> forall i :: 0 <= i < |items| ==> !Noted(items[i], text)
    // this page's note wins
    ensures (exists i :: 0 <= i < |items| && Noted(items[i], text) && items[i].url == url) ==>
      r.Some? && r.value.url == url
    // and among this page's notes, or failing those among all, the first one
    ensures r.Some? && r.value.url == url ==> exists i :: (0 <= i < |items| && items[i] == r.value &&
      forall j :: 0 <= j < i ==> !(Noted(items[j], text) && items[j].url == url))
    ensures r.Some? && r.value.url != url ==> exists i :: (0 <= i < |items| && items[i] == r.value &&
      forall j :: 0 <= j < i ==> !Noted(items[j], text))
  {
    var here := Find(items, (it: Item) => Noted(it, text) && it.url == url);
    if here.Some? then here
    else Find(items, (it: Item) => Noted(it, text))
  }

  // ---------------------------------------------------------------------
  // getCatLabel

  /** The label a table lists for `key`, if it lists one: `map[cat]` for
      a key the object literal defines. */
  function Lookup(table: seq<(string, string)>, key: string): (r: Option<string>)
    ensures r.Some? <==> exists k :: 0 <= k < |table| && table[k].0 == key
    ensures r.Some? ==> exists k :: 0 <= k < |table| && table[k] == (key, r.value)
  {
    if table == [] then None
    else if table[0].0 == key then Some(table[0].1)
    else
      var r := Lookup(table[1..], key);
      assert forall k :: 0 < k < |table| ==> table[k] == table[1..][k - 1];
      r
  }

  /** The object literal `getCatLabel` looks categories up in. */
  const LabelMap: seq<(string, string)> := [
    ("noun", "Noun"), ("verb", "Verb"), ("adj", "Adj"),
    ("adv", "Adv"), ("phrase", "Phrase"), ("other", "Other")]

  /** `map[cat]`, undefined for a key the literal does not define. */
  function LabelOf(cat: string): (r: Option<string>)
    ensures r.Some? <==> exists k :: 0 <= k < |LabelMap| && LabelMap[k].0 == cat
  {
    Lookup(LabelMap, cat)
  }

  /** `getCatLabel(cat)`: the label of a known category, otherwise the
      category itself, or "" when it is missing. */
  function CatLabel(cat: Option<string>): (name: string)
    ensures cat.None? ==> name == ""
    ensures cat.Some? && LabelOf(cat.value).Some? ==> name == LabelOf(cat.value).value
    ensures cat.Some? && LabelOf(cat.value).None? ==> name == cat.value
  {
    match cat
    case None => ""
    case Some(c) => if LabelOf(c).Some? then LabelOf(c).value else c
  }

  /** A table lists the label of its first entry for a key. */
  lemma {:induction false} LookupFirst(table: seq<(string, string)>, k: nat)
    requires k < |table|
    requires forall j :: 0 <= j < k ==> table[j].0 != table[k].0
    ensures Lookup(table, table[k].0) == Some(table[k].1)
  {
    if k > 0 {
      LookupFirst(table[1..], k - 1);
    }
  }

  /** The label `getCatLabel` shows for a category is the one the category
      menu offers for it. */
  lemma CatLabelMatchesMenu(k: nat)
    requires k < |Categories|
    ensures CatLabel(Some(Categories[k].0)) == Categories[k].1
  {
    assert LabelMap == Categories;
    LookupFirst(LabelMap, k);
  }
}
