/** The vocabulary board, board/board.js: cleaning an imported record
    (`normalizeItem`), merging an import into the saved list (`mergeUnique`),
    replacing the list by an import, and the filtered, sorted view `render`
    lists. Storage and the page are left out: lists come in as parameters. */
module Board {
  import opened Js
  import opened Strings
  import opened Items
  import Seqs
  import Sorting
  import Keyed
  import Html

  // ---------------------------------------------------------------------
  // normalizeItem

  /** An element of an imported JSON array: something that is not an object
      (a string, a number, null), or an object with the fields the board
      reads, each possibly missing. */
  datatype RawEntry =
    | NotAnObject
    | Entry(text: Option<string>, vi: Option<string>, cat: Option<string>, url: Option<string>, time: Option<Num>)

  /** What every cleaned item satisfies: trimmed non-empty text and a
      trimmed translation, possibly empty. */
  ghost predicate Clean(it: Item) {
    it.text != "" && Trim(it.text) == it.text && it.vi.Some? && Trim(it.vi.value) == it.vi.value
  }

  /** The time field is a number other than 0. */
  predicate HasTime(raw: RawEntry) {
    raw.Entry? && raw.time.Some? && Truthy(raw.time.value)
  }

  /** `normalizeItem(it)`; `now` stands for `Date.now()`. */
  function NormalizeItem(raw: RawEntry, now: int): (r: Option<Item>)
    ensures r.None? <==> raw.NotAnObject? || Blank(raw.text.GetOr(""))
    ensures r.Some? ==> Clean(r.value)
    ensures r.Some? ==> r.value.text == Trim(raw.text.value)
    ensures r.Some? ==> r.value.vi == Some(Trim(raw.vi.GetOr("")))
    ensures r.Some? && raw.cat.Some? ==> r.value.cat == raw.cat.value
    ensures r.Some? && raw.cat.None? ==> r.value.cat == "other"
    ensures r.Some? && raw.url.Some? ==> r.value.url == raw.url.value
    ensures r.Some? && raw.url.None? ==> r.value.url == "manual"
    ensures r.Some? && HasTime(raw) ==> r.value.time == raw.time.value.n
    ensures r.Some? && !HasTime(raw) ==> r.value.time == now
  {
    if raw.NotAnObject? then None
    else
      var text := Trim(raw.text.GetOr(""));
      if text == "" then None
      else
        TrimIdempotent(raw.text.GetOr(""));
        TrimIdempotent(raw.vi.GetOr(""));
        Some(Item(text, Some(Trim(raw.vi.GetOr(""))), raw.cat.GetOr("other"), raw.url.GetOr("manual"),
                  NumberOr(raw.time.GetOr(NaN), now)))
  }

  /** `normalizeItem` with the clock reading `now`. */
  function Normalizer(now: int): RawEntry -> Option<Item> {
    (raw: RawEntry) => NormalizeItem(raw, now)
  }

  /** `data.map(normalizeItem).filter(Boolean)`: the cleaned records, in
      order. */
  function Accepted(data: seq<RawEntry>, now: int): (r: seq<Item>)
    ensures |r| <= |data|
    ensures forall x :: x in r <==> exists i :: 0 <= i < |data| && NormalizeItem(data[i], now) == Some(x)
    ensures forall x :: x in r ==> Clean(x)
    // a record is kept as often as `normalizeItem` yields it
    ensures forall x :: multiset(r)[x] == multiset(Seqs.Map(data, Normalizer(now)))[Some(x)]
    // so there are as many as records `normalizeItem` does not reject
    ensures |r| == |data| - multiset(Seqs.Map(data, Normalizer(now)))[None]
  {
    var r := Seqs.FilterMap(data, Normalizer(now));
    assert forall x :: x in r <==> exists i :: 0 <= i < |data| && NormalizeItem(data[i], now) == Some(x);
    r
  }

  // ---------------------------------------------------------------------
  // The merge table

  /** `` `${it.text || ''}|${it.vi || ''}`.toLowerCase().trim() ``: the
      lower-cased text and translation joined by `|`, never empty. */
  function Key(it: Item): (k: string)
    ensures k == Trim(Lower(it.text) + "|" + Lower(ViText(it)))
    ensures k != ""
  {
    JoinedLower(it.text, ViText(it));
    Trim(Lower(it.text + "|" + ViText(it)))
  }

  /** Lower-casing a `|`-join lower-cases each side, and the `|` keeps the
      result from being blank. */
  lemma JoinedLower(a: string, b: string)
    ensures Lower(a + "|" + b) == Lower(a) + "|" + Lower(b)
    ensures !Blank(Lower(a + "|" + b))
  {
    LowerAppend(a + "|", b);
    LowerAppend(a, "|");
    assert Lower("|") == "|";
    assert (Lower(a) + "|" + Lower(b))[|a|] == '|';
  }

  /** Keys ignore letter case. */
  lemma KeyIgnoresCase(a: Item, b: Item)
    requires SameText(a.text, b.text) && SameText(ViText(a), ViText(b))
    ensures Key(a) == Key(b)
  {
  }

  /** The keys of a list of items. */
  ghost function KeySet(t: seq<Item>): set<string> {
    Keyed.KeySet(t, Key)
  }

  /** No two items share a key. */
  ghost predicate UniqueKeys(t: seq<Item>) {
    Keyed.UniqueKeys(t, Key)
  }

  /** `new Map(oldArr.map((it) => [key(it), it]))`: one entry per key of the
      saved list. */
  function Index(saved: seq<Item>): (r: seq<Item>)
    ensures UniqueKeys(r)
    ensures KeySet(r) == KeySet(saved)
    ensures |r| == |KeySet(saved)|
    ensures forall x :: x in r ==> x in saved
    ensures forall i :: 0 <= i < |saved| && (forall j :: i < j < |saved| ==> Key(saved[j]) != Key(saved[i])) ==> saved[i] in r
  {
    forall i | 0 <= i < |saved| && (forall j :: i < j < |saved| ==> Key(saved[j]) != Key(saved[i]))
      ensures saved[i] in Keyed.FromList(saved, Key)
    {
      Keyed.FromListKeepsLast(saved, Key, i);
    }
    Keyed.FromList(saved, Key)
  }

  /** The update of a saved entry `cur` that an incoming `it` with the same
      key makes: the later time; the incoming category and url only when
      they are not the defaults. Text and translation stay. */
  function Update(cur: Item, it: Item): (r: Item)
    ensures r.text == cur.text && r.vi == cur.vi
    ensures r.time >= cur.time && r.time >= it.time && (r.time == cur.time || r.time == it.time)
    ensures it.cat != "" && it.cat != "other" ==> r.cat == it.cat
    ensures it.cat == "" || it.cat == "other" ==> r.cat == cur.cat
    ensures it.url != "" && it.url != "manual" ==> r.url == it.url
    ensures it.url == "" || it.url == "manual" ==> r.url == cur.url
  {
    Item(cur.text, cur.vi,
      if it.cat != "" && it.cat != "other" then it.cat else cur.cat,
      if it.url != "" && it.url != "manual" then it.url else cur.url,
      if cur.time >= it.time then cur.time else it.time)
  }

  /** Merging the same item twice changes nothing the second time. */
  lemma UpdateIdempotent(cur: Item, it: Item)
    ensures Update(Update(cur, it), it) == Update(cur, it)
  {
  }

  /** An update keeps the entry under its key. */
  lemma UpdateKeepsKey(cur: Item, it: Item)
    ensures Key(Update(cur, it)) == Key(cur)
  {
    var u := Update(cur, it);
    assert u.text == cur.text && ViText(u) == ViText(cur);
  }

  /** The entries of `t` are still there in `r`, in the same places, with
      the same text and translation and no earlier time. */
  ghost predicate Refines(t: seq<Item>, r: seq<Item>) {
    |t| <= |r| &&
    forall i :: 0 <= i < |t| ==> r[i].text == t[i].text && r[i].vi == t[i].vi && r[i].time >= t[i].time
  }

  /** A key that an update leaves unchanged, as `key` is: the update keeps
      text and translation. */
  ghost predicate KeptByUpdate(key: Item -> string) {
    forall cur, it :: key(Update(cur, it)) == key(cur)
  }

  lemma KeyKeptByUpdate()
    ensures KeptByUpdate(Key)
  {
    forall cur, it
      ensures Key(Update(cur, it)) == Key(cur)
    {
      UpdateKeepsKey(cur, it);
    }
  }

  lemma RefinesTransitive(a: seq<Item>, b: seq<Item>, c: seq<Item>)
    requires Refines(a, b) && Refines(b, c)
    ensures Refines(a, c)
  {
  }

  /** One iteration of `mergeUnique`'s loop for a cleaned item: insert it
      under a new key (and say so), or update the entry holding its key. */
  function Upsert(t: seq<Item>, it: Item, key: Item -> string): (r: (seq<Item>, bool))
    requires Keyed.UniqueKeys(t, key) && KeptByUpdate(key)
    ensures Keyed.UniqueKeys(r.0, key)
    ensures Keyed.KeySet(r.0, key) == Keyed.KeySet(t, key) + {key(it)}
    ensures r.1 <==> key(it) !in Keyed.KeySet(t, key)
    ensures r.1 ==> r.0 == t + [it]
    ensures !r.1 ==> |r.0| == |t|
    ensures Refines(t, r.0)
  {
    var p := Keyed.Position(t, key(it), key);
    if p == -1 then
      Keyed.KeySetAppend(t, it, key);
      (t + [it], true)
    else
      var u := Update(t[p], it);
      Keyed.KeySetReplace(t, p, u, key);
      (t[p := u], false)
  }

  /** On a key hit, the entry holding the key is updated and every other
      entry stays as it was. */
  lemma UpsertUpdates(t: seq<Item>, it: Item, key: Item -> string)
    requires Keyed.UniqueKeys(t, key) && KeptByUpdate(key)
    requires key(it) in Keyed.KeySet(t, key)
    ensures |Upsert(t, it, key).0| == |t|
    ensures forall i :: 0 <= i < |t| ==> Upsert(t, it, key).0[i] == if key(t[i]) == key(it) then Update(t[i], it) else t[i]
  {
    var p := Keyed.Position(t, key(it), key);
    Keyed.OnlyOneWithKey(t, p, key);
  }

  /** The loop of `mergeUnique` over the imported records, of which the
      ones `normalizeItem` rejects are skipped: the table, and the counts
      `added` and `replaced`. */
  function MergeItems(t: seq<Item>, items: seq<Item>, key: Item -> string): (r: (seq<Item>, nat, nat))
    requires Keyed.UniqueKeys(t, key) && KeptByUpdate(key)
    ensures Keyed.UniqueKeys(r.0, key)
    ensures r.1 + r.2 == |items|
    ensures |r.0| == |t| + r.1
    decreases |items|
  {
    if items == [] then (t, 0, 0)
    else
      var u := Upsert(t, items[0], key);
      var m := MergeItems(u.0, items[1..], key);
      (m.0, m.1 + (if u.1 then 1 else 0), m.2 + (if u.1 then 0 else 1))
  }

  /** After the loop the table holds the saved keys and the imported ones. */
  lemma {:induction false} MergeItemsKeys(t: seq<Item>, items: seq<Item>, key: Item -> string)
    requires Keyed.UniqueKeys(t, key) && KeptByUpdate(key)
    ensures Keyed.KeySet(MergeItems(t, items, key).0, key) == Keyed.KeySet(t, key) + Keyed.KeySet(items, key)
    decreases |items|
  {
    if items != [] {
      var u := Upsert(t, items[0], key);
      var m := MergeItems(u.0, items[1..], key);
      MergeItemsKeys(u.0, items[1..], key);
      KeysStep(t, items, u.0, m.0, key);
    }
  }

  lemma KeysStep(t: seq<Item>, items: seq<Item>, u: seq<Item>, m: seq<Item>, key: Item -> string)
    requires items != []
    requires Keyed.KeySet(u, key) == Keyed.KeySet(t, key) + {key(items[0])}
    requires Keyed.KeySet(m, key) == Keyed.KeySet(u, key) + Keyed.KeySet(items[1..], key)
    ensures Keyed.KeySet(m, key) == Keyed.KeySet(t, key) + Keyed.KeySet(items, key)
  {
    Keyed.KeySetCons(items[0], items[1..], key);
    assert items == [items[0]] + items[1..];
  }

  /** The loop never loses a saved entry, moves it, changes its text or
      translation, or makes it older. */
  lemma {:induction false} MergeItemsRefines(t: seq<Item>, items: seq<Item>, key: Item -> string)
    requires Keyed.UniqueKeys(t, key) && KeptByUpdate(key)
    ensures Refines(t, MergeItems(t, items, key).0)
    decreases |items|
  {
    if items != [] {
      var u := Upsert(t, items[0], key);
      MergeItemsRefines(u.0, items[1..], key);
      RefinesTransitive(t, u.0, MergeItems(u.0, items[1..], key).0);
    }
  }

  /** The result of `mergeUnique`. */
  datatype Merged = Merged(list: seq<Item>, added: nat, replaced: nat)

  /** `mergeUnique(oldArr, newArr)`: every key of either list once, most
      recent first; `added` counts the keys the import brought that the
      saved list lacked and `replaced` the other accepted records. */
  function MergeUnique(saved: seq<Item>, data: seq<RawEntry>, now: int): (r: Merged)
    ensures Sorting.NonIncreasing(r.list, TimeOf)
    ensures UniqueKeys(r.list)
    ensures KeySet(r.list) == KeySet(saved) + KeySet(Accepted(data, now))
    ensures r.added + r.replaced == |Accepted(data, now)|
    ensures |r.list| == |KeySet(saved)| + r.added
    ensures r.added == |KeySet(saved) + KeySet(Accepted(data, now))| - |KeySet(saved)|
  {
    KeyKeptByUpdate();
    var (t, added, replaced) := MergeItems(Index(saved), Accepted(data, now), Key);
    MergeItemsKeys(Index(saved), Accepted(data, now), Key);
    var list := Sorting.SortDesc(t, TimeOf);
    Keyed.SameKeys(t, list, Key);
    Merged(list, added, replaced)
  }

  /** A saved entry that no later saved entry shadows survives the merge
      with its text and translation, and no older. */
  lemma MergeKeepsSaved(saved: seq<Item>, data: seq<RawEntry>, now: int, i: nat)
    requires i < |saved|
    requires forall j :: i < j < |saved| ==> Key(saved[j]) != Key(saved[i])
    ensures exists y :: y in MergeUnique(saved, data, now).list && Survivor(saved[i], y)
  {
    KeyKeptByUpdate();
    var index := Index(saved);
    assert saved[i] in index;
    var q :| 0 <= q < |index| && index[q] == saved[i];
    var t := MergeItems(index, Accepted(data, now), Key).0;
    MergeItemsRefines(index, Accepted(data, now), Key);
    assert Survivor(saved[i], t[q]);
    var list := Sorting.SortDesc(t, TimeOf);
    assert MergeUnique(saved, data, now).list == list;
    assert t[q] in multiset(t);
    assert t[q] in list;
  }

  /** `y` is what became of the saved entry `x`. */
  predicate Survivor(x: Item, y: Item) {
    y.text == x.text && y.vi == x.vi && y.time >= x.time
  }

  /** The replace branch of the import: the accepted records, most recent
      first; `added` is their number. */
  function ReplaceImport(data: seq<RawEntry>, now: int): (r: Merged)
    ensures Sorting.NonIncreasing(r.list, TimeOf)
    ensures multiset(r.list) == multiset(Accepted(data, now))
    ensures r.added == |r.list| <= |data| && r.replaced == 0
    ensures forall i :: 0 <= i < |r.list| ==> Clean(r.list[i])
  {
    var accepted := Accepted(data, now);
    var list := Sorting.SortDesc(accepted, TimeOf);
    assert forall i :: 0 <= i < |list| ==> list[i] in accepted by {
      Sorting.SameElements(accepted, list);
    }
    Merged(list, |list|, 0)
  }

  // ---------------------------------------------------------------------
  // The list view of `render`

  /** The sort select: `text_asc`, `text_desc`, `time_asc`, and newest first
      for anything else. */
  datatype SortMode = TextAsc | TextDesc | TimeAsc | TimeDesc

  function ParseSortMode(s: string): (m: SortMode)
    ensures s == "time_asc" <==> m == TimeAsc
    ensures m == TimeDesc <==> s != "text_asc" && s != "text_desc" && s != "time_asc"
  {
    if s == "text_asc" then TextAsc
    else if s == "text_desc" then TextDesc
    else if s == "time_asc" then TimeAsc
    else TimeDesc
  }

  /** `it.cat || 'other'`: a stored category, "other" for an empty one. */
  function CatOf(it: Item): (c: string)
    ensures c != ""
    ensures it.cat != "" ==> c == it.cat
    ensures it.cat == "" ==> c == "other"
  {
    if it.cat == "" then "other" else it.cat
  }

  /** `(filterTerm || '').trim().toLowerCase()`: empty exactly for a blank
      term, and already lower-case. */
  function Query(term: string): (q: string)
    ensures q == "" <==> Blank(term)
    ensures Lower(q) == q
    ensures |q| <= |term|
  {
    var q := Lower(Trim(term));
    assert forall i :: 0 <= i < |q| ==> LowerChar(q[i]) == q[i];
    q
  }

  /** The item is listed for the search query and the category filter: an
      empty query with "all" lists every item; otherwise the item's text or
      translation holds the query, and its category is the filter's. */
  predicate Shown(it: Item, q: string, filterCat: string): (b: bool)
    ensures q == "" && filterCat == "all" ==> b
    ensures b && q != "" ==> Includes(Lower(it.text), q) || Includes(Lower(ViText(it)), q)
    ensures b && filterCat != "all" ==> CatOf(it) == filterCat
  {
    && (q == "" || Includes(Lower(it.text), q) || Includes(Lower(ViText(it)), q))
    && (filterCat == "all" || CatOf(it) == filterCat)
  }

  /** `render`'s `data`: the items matching the search term and category,
      in the order the sort mode asks for. */
  function View(items: seq<Item>, term: string, filterCat: string, mode: string): (r: seq<Item>)
    ensures forall x :: multiset(r)[x] == if Shown(x, Query(term), filterCat) then multiset(items)[x] else 0
    ensures ParseSortMode(mode) == TimeAsc ==> Sorting.NonDecreasing(r, TimeOf)
    ensures ParseSortMode(mode) == TimeDesc ==> Sorting.NonIncreasing(r, TimeOf)
  {
    var q := Query(term);
    var found := if q == "" then items
      else Seqs.Filter(items, (it: Item) => Includes(Lower(it.text), q) || Includes(Lower(ViText(it)), q));
    var data := if filterCat == "all" then found
      else Seqs.Filter(found, (it: Item) => CatOf(it) == filterCat);
    assert forall x :: multiset(data)[x] == if Shown(x, q, filterCat) then multiset(items)[x] else 0;
    match ParseSortMode(mode)
    case TimeAsc => Sorting.SortAsc(data, TimeOf)
    case TimeDesc => Sorting.SortDesc(data, TimeOf)
    case _ => data
  }

  /** The search compares lower-cased text: a stored item whose text or
      translation contains the trimmed, lower-cased term is listed under a
      category filter it passes, in every sort mode; and two stored items
      that differ only in letter case are listed alike. */
  lemma {:induction false} SearchIgnoresCase(items: seq<Item>, it: Item, term: string, filterCat: string, mode: string)
    requires it in items
    requires filterCat == "all" || CatOf(it) == filterCat
    ensures Includes(Lower(it.text), Query(term)) || Includes(Lower(ViText(it)), Query(term)) ==>
      it in View(items, term, filterCat, mode)
    ensures forall other ::
      (other in items && Lower(other.text) == Lower(it.text) &&
       Lower(ViText(other)) == Lower(ViText(it)) && CatOf(other) == CatOf(it)) ==>
      (other in View(items, term, filterCat, mode) <==> it in View(items, term, filterCat, mode))
  {
    var r := View(items, term, filterCat, mode);
    assert it in multiset(items);
    assert it in r <==> it in multiset(r);
    forall other | other in items
      ensures other in r <==> other in multiset(r)
      ensures other in multiset(items)
    {
    }
  }

  // ---------------------------------------------------------------------
  // sourceHtml

  const ManualSpan := "<span title=\"Thêm thủ công\">manual</span>"
  const LinkOpen := "<a href=\""
  const LinkClose := "\" target=\"_blank\" rel=\"noopener\">source</a>"

  /** `sourceHtml(it)` as written: only `"` is escaped in the href, so the
      link leads to the saved url only when the url holds no `&`. */
  function SourceHtmlAsWritten(url: string): (html: string)
    ensures url == "" || url == "manual" ==> html == ManualSpan
    ensures url != "" && url != "manual" ==>
      exists attr :: html == LinkOpen + attr + LinkClose && '"' !in attr &&
        ('&' !in url ==> Html.DecodeReferences(attr) == url)
  {
    if url == "" || url == "manual" then ManualSpan
    else
      assert '&' !in url ==> Html.DecodeReferences(Html.EscapeQuotes(url)) == url by {
        if '&' !in url {
          Html.EscapeQuotesRoundTrip(url);
        }
      }
      LinkOpen + Html.EscapeQuotes(url) + LinkClose
  }

  /** As written, the saved urls `&quot;` and `"` give the same link, which
      leads to `"`. */
  lemma SourceHtmlCollides()
    ensures SourceHtmlAsWritten("&quot;") == SourceHtmlAsWritten("\"")
    ensures SourceHtmlAsWritten("&quot;") == LinkOpen + "&quot;" + LinkClose
    ensures Html.DecodeReferences("&quot;") == "\""
  {
    var q := "&quot;";
    Html.QuoteReferenceCollides();
    Html.NoQuoteUnchanged(q);
    assert q != "" && q != "manual" by {
      assert q[0] != "manual"[0];
    }
    assert "\"" != "" && "\"" != "manual";
  }

  /** `sourceHtml(it)` with the url fully escaped: the link leads to the
      saved url, whatever characters it holds. */
  function SourceHtml(url: string): (html: string)
    ensures url == "" || url == "manual" ==> html == ManualSpan
    ensures url != "" && url != "manual" ==>
      exists attr :: html == LinkOpen + attr + LinkClose && '"' !in attr && Html.DecodeReferences(attr) == url
  {
    if url == "" || url == "manual" then ManualSpan
    else
      Html.EscapeAttributeRoundTrip(url);
      LinkOpen + Html.EscapeAttribute(url) + LinkClose
  }
}
