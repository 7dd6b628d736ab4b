/** The saved vocabulary entry the capture script writes and the board
    imports, merges and lists (storage key `vocab_items`). */
module Items {
  import opened Js
  import opened Strings

  /** `{ text, vi?, cat, url, time }`. `vi` is absent until a note is
      written; a `time` of 0 stands for a missing one, as `time || 0` reads it. */
  datatype Item = Item(text: string, vi: Option<string>, cat: string, url: string, time: int)

  /** `it.vi || ''`. */
  function ViText(it: Item): string {
    it.vi.GetOr("")
  }

  /** `a.toLowerCase() === b.toLowerCase()`. */
  predicate SameText(a: string, b: string) {
    Lower(a) == Lower(b)
  }

  /** `(a.time || 0)`, the sort key of every time-ordered list. */
  function TimeOf(it: Item): int {
    it.time
  }

  /** The categories both scripts offer, with their labels. */
  const Categories: seq<(string, string)> := [
    ("noun", "Noun"), ("verb", "Verb"), ("adj", "Adj"),
    ("adv", "Adv"), ("phrase", "Phrase"), ("other", "Other")]
}
