# Word Note — a Dafny model of the list and quiz logic

Word Note is a browser extension for collecting vocabulary. On a web page
the capture script (`page_interactor/content.js`) saves a selected word with
a note and a grammatical category. The board page (`board/board.js`) lists
the saved words, filters and sorts them, and imports JSON exports by merging
or replacing. The quiz page (`Quiz/quiz.js`) turns the saved words into
multiple-choice questions: one question per word, its translation among up
to three others, with a month filter and a running score.

This project models that logic as pure Dafny functions over immutable
values, and proves what the code promises about them:

- **Words** (`words.dfy`): `normalizeWords`, the `??` chains that read the
  older storage formats.
- **Months** (`months.dfy`): the `YYYY-MM` keys of `fillMonthOptions` and
  the pool the start button selects. The key of a month in a year from 0
  on selects exactly that month's words, and at least one. The key
  "NaN-NaN" of an Invalid Date selects nothing. The key of a negative year
  such as "-1-01" splits into three fields and selects none of the words
  it was listed for.
- **Random** (`random.dfy`): the Fisher–Yates `shuffle` with `Math.random`
  as an oracle.
- **Questions** (`questions.dfy`): `pickDistractors` and
  `buildQuestionsFrom`. Every question has between one and four distinct
  options, the correct one exactly once and at `answerIndex`.
- **Session** (`session.dfy`): the quiz state `idx`, `score` and
  `finished`, and the transitions the buttons drive. Start, restart,
  navigation, answering and finishing keep the score equal to the number
  of correctly answered questions. The JSON import zeroes the score but
  keeps the answers; the next answer or finish recounts it.
- **Items** (`items.dfy`): the stored vocabulary entry both other scripts
  share.
- **Board** (`board.dfy`, with `keyed.dfy` for the JavaScript `Map` and
  `html.dfy` for attribute escaping): `normalizeItem`, `mergeUnique`, the
  replace import, the list view of `render`, and `sourceHtml`.
- **Capture** (`capture.dfy`): `isValidSelection`, `hasItem`, the list
  update of `addVocab`, `findNote` and `getCatLabel`.
- **Support modules**: `js.dfy` (null, `??`, `Number(x) || d`),
  `strings.dfy` (`trim`, `toLowerCase`, `includes`, `split`, decimal
  digits), `seqs.dfy` (`filter`, `new Set`, `map`+`filter(Boolean)`) and
  `sorting.dfy` (the stable numeric sorts).

Inputs the code reads from the environment become parameters:
- `Date.now()` is `now`.
- `Math.random()` is an oracle `rand: nat -> nat`, read at a position that
  every call threads through.
- The local-time date of a timestamp is a `Calendar`: an Invalid Date, or
  a year (possibly negative) and a month.
- `location.href` is `url`.
- The stored lists are ordinary arguments.

## Model

| member | source | states |
|---|---|---|
| Words.ResolveId | Quiz/quiz.js:51 | the id is the first present of `id`, `wordId`, `_id`, else the 1-based position |
| Words.ResolveWord | Quiz/quiz.js:52 | the word is the first present of `word`, `en`, `text`, else empty; a present blank `word` wins |
| Words.ResolveVi | Quiz/quiz.js:53 | the translation is the first present of `vi`, `vn`, `meaning`, `description`, `desc`, else empty |
| Words.ResolveCat | Quiz/quiz.js:54 | the category is the first present of `cat`, `category`, `type`, else "other" |
| Words.ResolveTime | Quiz/quiz.js:55-61 | the first present of `createdAt`, `time`, `timestamp`, `created` is used when it is a non-zero number; when it is 0 or NaN the clock is used, without looking further; with none present the clock is used; the result is never 0 unless the clock reads 0 |
| Words.NormalizeWords | Quiz/quiz.js:48-65 | the result keeps input order, holds only trimmed non-empty words and translations, and holds each canonical record exactly as often as the input yields it when it has both, and never otherwise |
| Words.Canonical | Quiz/quiz.js:50-62 | a canonical record has a trimmed word and translation, and a time that is 0 only when the clock reads 0 |
| Words.BlankWordDoesNotFallThrough | Quiz/quiz.js:52 | a record whose `word` field is present but blank is dropped even when `en` or `text` hold a word |
| Months.Stamp | Quiz/quiz.js:131 | a word's time is its `createdAt`, or the clock for 0, so it is 0 only when the clock reads 0 |
| Months.YearText | Quiz/quiz.js:132 | a year prints with a leading digit exactly when it is not negative |
| Months.MonthKey | Quiz/quiz.js:132 | a key has at least four characters and starts with a digit for a year from 0 on, with `-` for a negative year, and with `N` for an Invalid Date |
| Months.MonthList | Quiz/quiz.js:128-135 | the listed keys are strictly descending and are exactly the months some word falls in |
| Months.MonthListDistinct | Quiz/quiz.js:129-134 | no month is listed twice |
| Months.ParseSelection | Quiz/quiz.js:293-294 | an empty selection or "all" selects every month, and nothing else does |
| Months.SelectPool | Quiz/quiz.js:292-302 | the pool keeps data order and each word's multiplicity exactly when the word is in the selected month; every word for "all"; none for a key whose parts are not numbers |
| Months.KeyRoundTrip | Quiz/quiz.js:294 | splitting a listed key on "-" and reading the first two parts with `Number` gives back its year and month for a year from 0 on, year 0 and the negated year as month for a negative year, and no month for "NaN-NaN" |
| Months.MonthKeyInjective | Quiz/quiz.js:132 | two local dates, Invalid Date included, have the same key exactly when they are the same |
| Months.ListedMonthHasWords | Quiz/quiz.js:292-302 | a listed key of a year from 0 on gives a non-empty pool of exactly the words of that month; "NaN-NaN" gives an empty pool; a negative year's key selects none of the words it was listed for |
| Random.Shuffle | Quiz/quiz.js:179-185 | the result is a permutation of the input, and `n - 1` draws are used for `n > 0` elements |
| Random.IdentityOracle | Quiz/quiz.js:181-184 | an oracle that always draws the current index leaves the array unchanged |
| Questions.Candidates | Quiz/quiz.js:171-173 | a translation is a candidate exactly when another word with a different, non-empty translation has it |
| Questions.PickDistractors | Quiz/quiz.js:170-177 | it returns `min(n, number of rival translations)` distinct rival translations, all of them when `n` is large enough, using one draw fewer than there are rivals |
| Questions.FindIndex | Quiz/quiz.js:157 | the result is the first position of the value, or -1 exactly when it is absent |
| Questions.Arranged | Quiz/quiz.js:155-156 | shuffling the translation with distinct other distractors gives distinct options holding the translation exactly once |
| Questions.MakeQuestion | Quiz/quiz.js:153-165 | the question is built for its word and unanswered; it has 1 + min(3, rivals) distinct options from the translation and its rivals, with the translation at `answerIndex` |
| Questions.ByRecency | Quiz/quiz.js:151 | the pool is reordered newest first, as a permutation |
| Questions.BuildQuestions | Quiz/quiz.js:150-168 | there is one question per word, the k-th built for the k-th newest word, with distractors from the whole pool |
| Session.CountCorrect | Quiz/quiz.js:261-264 | the score is never more than the number of questions |
| Session.CountExtremes | Quiz/quiz.js:261-264 | the score is 0 when no answer is correct, and the number of questions when every answer is |
| Session.CountIsCorrectSet | Quiz/quiz.js:260-266 | the score counts exactly the questions whose chosen option is the answer |
| Session.CountUpdate | Quiz/quiz.js:260-266 | changing one question changes the count by that question's share alone |
| Session.RecomputeScore | Quiz/quiz.js:260-266 | only the score changes, and it becomes the number of correct answers, between 0 and the number of questions |
| Session.Goto | Quiz/quiz.js:276-279 | the index is clamped into range, or set to -1 when there are no questions; nothing else changes |
| Session.Next | Quiz/quiz.js:280-282 | it moves one question forward, does nothing on the last one, and keeps a valid state valid |
| Session.Prev | Quiz/quiz.js:283-285 | it moves one question back, does nothing on the first one, and keeps a valid state valid |
| Session.Answer | Quiz/quiz.js:235-238 | only the shown question's choice changes, and the score is recounted |
| Session.AnswerKeepsValid | Quiz/quiz.js:235-238 | answering keeps a valid state valid and moves the score by the answered question's share alone |
| Session.Finish | Quiz/quiz.js:319-322 | the quiz is finished; in a valid state nothing else changes |
| Session.UnansweredScoreZero | Quiz/quiz.js:164 | questions no one has answered score 0 |
| Session.Fresh | Quiz/quiz.js:303-309 | the new state is valid, at the first question, with score 0, not finished, and holds the questions built for the pool |
| Session.Start | Quiz/quiz.js:292-315 | the start button selects the pool for the chosen month and gives a fresh valid state for it, the k-th question built for the k-th newest word |
| Session.Restart | Quiz/quiz.js:327-338 | the restart button gives a fresh valid state for the same pool, the k-th question built for the k-th newest word |
| Session.ImportReset | Quiz/quiz.js:355-357 | the import's reset moves to the first question, zeroes the score and clears `finished`, keeping the questions and the pool; a valid state stays valid exactly when none of its answers is correct |
| Session.ResetRecovers | Quiz/quiz.js:355-357 | after the import's reset, finishing or answering recounts the score and gives a valid state again |
| Session.SingleWordQuiz | Quiz/quiz.js:150-177 | a one-word quiz offers only that word's translation, and answering it scores one out of one |
| Sorting.SortDesc | board/board.js:174 | the result is a permutation sorted newest first |
| Sorting.SortAsc | board/board.js:199 | the result is a permutation sorted oldest first |
| Board.NormalizeItem | board/board.js:139-150 | non-objects and blank texts are rejected; otherwise text and translation are trimmed, the category defaults to "other", the url to "manual", and the time falls back to the clock when it is 0 or not a number |
| Board.Accepted | board/board.js:332 | the cleaned records are the results `normalizeItem` does not reject, each as often as it results, their number is the input count less the rejected ones, and all are clean |
| Board.Key | board/board.js:153 | the key is the trimmed join of the lower-cased text and the lower-cased translation with a vertical bar between them, and is never empty |
| Board.KeyIgnoresCase | board/board.js:153 | items whose texts and translations differ only in letter case have the same key |
| Board.Index | board/board.js:154 | the map has one entry per key of the saved list, drawn from it, and the last saved entry of each key is the one kept |
| Keyed.FromList | board/board.js:154 | building a map gives one entry per key, with the keys of the list |
| Keyed.Assign | board/board.js:163 | setting a known key replaces exactly the entry with that key, in place; a new key is appended; every entry with a different key is kept |
| Board.Update | board/board.js:166-169 | a merged entry keeps its text and translation, takes the later time, and takes the incoming category and url only when they are not the defaults |
| Board.UpdateIdempotent | board/board.js:166-169 | merging the same record twice changes nothing the second time |
| Board.Upsert | board/board.js:160-171 | a new key is appended and counted as added; a known key updates its entry in place; keys stay unique |
| Board.UpsertUpdates | board/board.js:166-169 | on a known key only the entry with that key changes, and it becomes its update |
| Board.MergeItems | board/board.js:157-172 | keys stay unique, added plus replaced is the number of accepted records, and the table grows by the added count |
| Board.MergeItemsKeys | board/board.js:157-172 | after the loop the keys are those of the saved list and of the import |
| Board.MergeItemsRefines | board/board.js:157-172 | the loop never drops or moves an entry, changes its text or translation, or makes it older |
| Board.MergeUnique | board/board.js:152-178 | the list is newest first with unique keys, namely the saved keys plus the imported ones; `added` counts the new keys, and `added + replaced` is the number of accepted records |
| Board.MergeKeepsSaved | board/board.js:152-178 | a saved entry that no later saved entry shadows survives the merge with its text and translation, and no older |
| Board.ReplaceImport | board/board.js:331-334 | the list is the accepted records newest first, all clean, and `added` is their number |
| Board.ParseSortMode | board/board.js:195-202 | "time_asc" is oldest first; anything other than the three named modes is newest first |
| Board.View | board/board.js:185-202 | an item is listed, as often as it is stored, exactly when it matches the trimmed, lower-cased search term and the category filter; the time modes sort it |
| Board.Query | board/board.js:185 | the query is empty exactly for a blank term, is already lower-case, and is no longer than the term |
| Board.CatOf | board/board.js:193 | an item's category is its stored one, or "other" when that is empty |
| Board.Shown | board/board.js:187-193 | with no query and "all" every item is shown; a shown item holds the query in its lower-cased text or translation, and has the filtered category |
| Board.SearchIgnoresCase | board/board.js:187-193 | for any list, sort mode and category filter the item passes, an item whose lower-cased text or translation contains the query is listed, and items that differ only in letter case are listed alike |
| Board.SourceHtmlAsWritten | board/board.js:90-95 | a missing or "manual" url gives the manual marker; otherwise the link's attribute holds no quote, and reads back as the url when the url has no `&` |
| Board.SourceHtmlCollides | board/board.js:93 | the stored urls `&quot;` and `"` give the same link, whose attribute reads back as `"` |
| Html.EscapeQuotesRoundTrip | board/board.js:93 | escaping quotes alone is undone by a browser's reading for a url without `&` |
| Board.SourceHtml | board/board.js:90-95 | a link's attribute value holds no quote and reads back as the stored url |
| Html.EscapeAttributeRoundTrip | board/board.js:93 | escaping both `&` and `"` is undone by a browser's reading of the attribute |
| Html.EscapeAttributeInjective | board/board.js:93 | two urls escape alike exactly when they are equal |
| Html.QuoteReferenceCollides | board/board.js:93 | escaping quotes alone sends the stored url `&quot;` and the stored url `"` to the same attribute, which reads back as `"` |
| Capture.IsValidSelection | page_interactor/content.js:40-52 | a selection is accepted exactly when it is present, not blank, and at most 1000 UTF-16 code units long |
| Capture.HasItem | page_interactor/content.js:99-102 | it answers whether some saved entry has the text, in any letter case and from any page |
| Capture.MatchIndex | page_interactor/content.js:108 | the result is the first entry of the text, in any case, on this page, or -1 exactly when there is none |
| Capture.Touch | page_interactor/content.js:113-114 | a non-blank note replaces the old one trimmed, a non-empty category replaces the old one, and nothing else changes |
| Capture.NewEntry | page_interactor/content.js:118-119 | a new entry has the text, page and time, the trimmed note only when one is given, and the given category, or "other" when it is empty |
| Capture.AddVocab | page_interactor/content.js:105-124 | a blank text changes nothing; a new word goes to the front; a known word on this page has only its first entry touched |
| Capture.AddVocabThenHas | page_interactor/content.js:105-124 | after saving a non-blank text, `hasItem` finds it |
| Capture.AddVocabIdempotent | page_interactor/content.js:105-124 | saving the same word twice with the same note and category equals saving it once |
| Capture.Find | page_interactor/content.js:129-130 | the result is the first element satisfying the predicate, or none exactly when none does |
| Capture.FindNote | page_interactor/content.js:127-132 | it returns a noted entry of the text, preferring this page's first one and else the first from any page; none exactly when no entry is noted |
| Capture.LabelOf | page_interactor/content.js:94-95 | a category has a label exactly when the label map lists it |
| Capture.CatLabel | page_interactor/content.js:93-96 | a known category shows its label, another category itself, and a missing one the empty string |
| Capture.CatLabelMatchesMenu | page_interactor/content.js:93-96 | every category of the menu gets the label the menu shows for it |

## Left out

- Storage (`chrome.storage`, `localStorage`), the DOM, toasts, the bubble, the selection event handlers, `translate.js`, the welcome page and the background script: the model receives lists as values and returns new ones.
- `loadAllWords` (which storage key holds the words) and the reading and parsing of the quiz page's JSON import file: storage and file I/O around `normalizeWords`, which is modelled. The import's reset of `idx`, `score` and `finished` is modelled as `Session.ImportReset`.
- `renderQuestion`, `revealFeedback`, `updateProgress` and the percentage text of `showResult`: display only. `Math.round` of the percentage is not modelled.
- Board.View: for the `text_asc` and `text_desc` modes it keeps the filtered storage order, because `localeCompare` with base sensitivity depends on the locale's collation and is not modelled.
- Strings.Lower: `toLowerCase` is modelled for ASCII letters only; Unicode case mapping is out of scope, so `SameText` and `Key` are exact only for ASCII text.
- Strings.Utf16Length: it counts code units from code points; lone surrogates cannot occur in a Dafny string.
- Words.NormalizeWords: `String(x)` of a non-string field is not modelled; fields are typed as optional strings. Numbers are typed as optional `Num` (a finite integer or NaN); fractional timestamps are out of scope.
- Words.ResolveTime: `Number(x)` of a timestamp gives only a finite integer or NaN in the model; Infinity and fractional values are not represented.
- Words.ResolveTime: the code reads `Date.now()` twice, once as the `??` fallback and once after `|| `; the model uses one `now` for both.
- Random.Pick: `(Math.random() * (i + 1)) | 0` becomes `rand(pos) % (i + 1)`. Any index distribution an oracle can produce is covered, but probabilities are not modelled.
- Session.Answer: the change handler does not check `finished`, so the model lets an answer after finishing change the choice and the score, as the code does.
- Capture.CatLabel: `map[cat]` on a plain object also finds inherited properties such as `constructor`; the model's lookup knows only the six categories.
- Words.NormalizeWords: a `null` or `undefined` element of the list cannot be expressed, because every element is a `RawWord`. In the code such an element makes `x.id` throw. `loadAllWords` then falls back to the next source or `[]`, and the import shows its error alert, so the whole list is lost.
- Board.NormalizeItem: `.toString()` of a non-string `text` or `vi` (a number such as 42 read as "42") is not modelled; both fields are typed as optional strings.
- Months.ParseSelection: only decimal-digit fields, the empty field and "NaN" are read as `Number` reads them. Signs, exponents, fractions, hexadecimal and surrounding text other than whitespace read as NaN in the model, so a hand-made selection such as "+5-03" selects nothing where the code selects March of year 5. The option values are always month keys, which hold none of these.
- Board.NormalizeItem: `typeof it !== 'object'` lets arrays through as objects with no fields; the model folds them into `Entry` with every field missing, which the code also rejects for its empty text.
- The `SELECTION_RULE` constants of the capture script are unused by `isValidSelection` and are not modelled.
- Board.MergeUnique: the per-entry update rule is stated on `Upsert`, `UpsertUpdates` and `Update`, and the survival of saved entries on `MergeKeepsSaved`; `MergeUnique`'s own contract states the keys, the order and the counts.
- Sorting.SortDesc: the model is a stable insertion sort; its contract states sortedness and permutation, not stability.
- `fillMonthOptions` option labels ("Tháng MM/YYYY") are display text and are not modelled; the option values are.

## Findings

| source | as written | input that shows it | evidently intended | confidence | as-written member | corrected member |
|---|---|---|---|---|---|---|
| board/board.js:93 | only `"` is escaped when the stored url is written into `href="…"`; `&` is left as it is | the stored urls `&quot;` and `"` give the same `href`, and a browser reads it as `"`, so the link does not lead to the stored url | escape `&` as `&amp;` as well, so that the attribute reads back as the stored url | medium, not executed | Html.QuoteReferenceCollides, Board.SourceHtmlCollides | Board.SourceHtml |
