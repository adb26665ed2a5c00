# DFU presentation core in Dafny

This project models the logic of an offline-capable lecture deck on diabetic
foot ulcers. The deck is a React application, and this model covers the parts
of it that hold the state and the data logic:

- **Slide splitting.** Any slide with more than three bullets is cut into
  consecutive parts. Part `p + 1` gets the id `<id>_pt<p+1>` and the title
  `<title> (cont'd)`.
- **Deck editing.** A slide can be updated, a blank slide or a copy of the
  current slide can be inserted after the current slide, and the current slide
  can be deleted.
- **Navigation.** The slide on screen moves to a target, to the next slide or to
  the previous one.
- **Evidence refresh.** Every slide that has a citation query gets a new
  citation list.
- **Citation resolver.** It normalises PubMed and CrossRef records into
  citations. It then merges the live PubMed citations into the curated list:
  existing entries come first, a live entry is appended only when its id is
  unseen, and the result is capped at ten.
- **IndexedDB cache.** Slides are stored by id, with a separate record of their
  order and the last save time. Loading the order back comes back empty when
  the order is missing, when its length differs from the number of records,
  or when an ordered id has no record. A repeated id can still slip through
  when a stray record evens the counts (`Cache.RepeatedIdLoadsAfterStrayRecord`).
- **Mount-time load.** It uses the cached deck when the stored content version
  is `v5`, and otherwise rebuilds the deck from the bundled slides.
- **Myth-busting quiz.** A small state machine that keeps a score.

The modules are laid out as follows:

- `types.dfy` (`Types`) holds the records.
- `strings.dfy` (`Strings`) holds the JavaScript string operations the code
  relies on.
- `split.dfy` (`SlideSplit`) holds the split. The nested loop is proved against
  a recursive reference definition.
- `pubmed.dfy` (`PubMed`) holds the resolver. Its merge loop is proved against
  the accumulation it performs, and that accumulation is related to an
  independent "unseen citations" definition.
- `deck.dfy` (`Deck`) holds the deck edits as functions on the slide list.
- `cache.dfy` (`Cache`) holds the two object stores as maps in a class.
- `quiz.dfy` (`Quiz`) holds the quiz state class.
- `app.dfy` (`App`) holds the presenter class, which owns the deck, the
  current index, the cache and `localStorage`.

The model treats these as inputs:

- **Network replies** are parameters, already parsed. A `Failed` reply stands
  for a thrown `fetch`, a non-ok status and unparsable JSON alike.
- **Timestamps** are parameters, as are the `Date.now()` ids, which come with a
  precondition that the id is not already in the deck.
- **Database availability** is a boolean parameter.

The cap applies to the whole merged list, so a curated list longer than ten
loses its tail on every refresh (`PubMed.ExistingEntriesWin`,
`PubMed.FailedLookupKeepsExisting`).

## Model

| member | source | states |
|---|---|---|
| Strings.NatToString | src/App.tsx:25 | the part number in an id is written as decimal digits that spell the number, without a leading zero |
| Strings.Trim | src/services/pubmed.ts:95 | the result is the slice of the input left after removing a whitespace prefix and a whitespace suffix, has no whitespace at either end, and equals the input when it is already trimmed |
| Strings.ReplaceFirst | src/services/pubmed.ts:57 | without an occurrence the text is unchanged; otherwise the first occurrence, wherever it is, is replaced and everything around it kept |
| Strings.FirstToken | src/services/pubmed.ts:56 | the result is the prefix of the date before its first space, contains no space, and is followed by a space when shorter than the input |
| SlideSplit.SplitSlidesMaxBullets | src/App.tsx:15-33 | the loop's result equals the reference split `Split(input, max)` |
| SlideSplit.Split | src/App.tsx:15-33 | the reference split: each slide within the limit kept, each oversized one replaced by its parts; `SplitWithinLimit`, `SplitConservesBullets`, `SplitIdempotent` and `SplitLength` state its properties |
| SlideSplit.PushParts | src/App.tsx:21-29 | the inner loop appends exactly the parts of one oversized slide |
| SlideSplit.PartsUpTo | src/App.tsx:22-29 | the first `k` parts are `k` slides, part `j` at position `j` |
| SlideSplit.PartsShape | src/App.tsx:18-22 | a slide within the limit passes through unchanged; an oversized slide becomes ceil(n/max) parts, at least two |
| SlideSplit.PartsNaming | src/App.tsx:23-27 | part 0 keeps id and title; part p > 0 has id `<id>_pt<p+1>` and title `<title> (cont'd)`; every other field is copied |
| SlideSplit.PartsOfOversizedAreBounded | src/App.tsx:21-27 | every part of an oversized slide holds between 1 and max bullets |
| SlideSplit.PartsConserveBullets | src/App.tsx:27 | the parts' bullets, concatenated, are the slide's bullets in order |
| SlideSplit.SplitAppend | src/App.tsx:17-32 | splitting a concatenation is the concatenation of the splits, so input order is preserved |
| SlideSplit.SplitConservesBullets | src/App.tsx:15-33 | no bullet of the deck is lost, duplicated or reordered |
| SlideSplit.SplitWithinLimit | src/App.tsx:15-33 | every slide of the result holds at most max bullets |
| SlideSplit.SplitOfWithinLimit | src/App.tsx:18-19 | a deck already within the limit is returned unchanged |
| SlideSplit.SplitIdempotent | src/App.tsx:15-33 | splitting twice is the same as splitting once |
| SlideSplit.SplitLength | src/App.tsx:15-33 | the split deck is never shorter than the input |
| SlideSplit.SplitFiveBulletsExample | src/App.tsx:15-33 | five bullets at max 3 give `a` with bullets 1-3 and `a_pt2` "T (cont'd)" with bullets 4-5 |
| SlideSplit.SplitNineBulletsExample | src/data/slides.ts:228-253 | the nine-bullet limb salvage slide becomes three parts, the third `limb_salvage_module_pt3` with bullets 7-9 |
| PubMed.SearchPubMed | src/services/pubmed.ts:9-24 | an empty query, a failed exchange or a reply without `idlist` gives no ids; otherwise the reply's `idlist` |
| PubMed.AuthorsLine | src/services/pubmed.ts:46-54 | up to three names joined by ", ", followed by " et al." when there are more; empty when the record has no author list |
| PubMed.AuthorsLineAsWritten | src/services/pubmed.ts:46-50 | the authors expression as written: "undefined" for a record without an author list, else the `AuthorList` of up to three names and " et al." (compared with `AuthorsLine` in `AuthorsLineMissingList`) |
| PubMed.AuthorsLineMissingList | src/services/pubmed.ts:46-54 | the expression as written gives "undefined" for a missing list, where the intended line is empty; both agree whenever a list is present |
| PubMed.ToArticle | src/services/pubmed.ts:44-58 | the article keeps the requested pmid; title and journal default to empty; the authors line is `AuthorsLine` of the record's names; the year is `FirstToken` of the pubdate (its text up to the first space), and empty without a pubdate; the doi is the elocation id with the first "doi: " removed, or empty |
| PubMed.SummariesInOrder | src/services/pubmed.ts:42-59 | at most one article per requested id, each for an id the reply holds, and each built from that id's record |
| PubMed.SummariesAllPresent | src/services/pubmed.ts:42-44 | when every id has a record, the articles follow the requested ids one for one |
| PubMed.SummariesNonePresent | src/services/pubmed.ts:42-43 | when no id has a record, there are no articles |
| PubMed.SummariesAppend | src/services/pubmed.ts:42-44 | the filter-and-map works id by id: the articles for `a + b` are those for `a` followed by those for `b` |
| PubMed.SummariesOfOne | src/services/pubmed.ts:43-45 | one requested id gives its article when the reply holds a record for it, and nothing otherwise |
| PubMed.FetchPubMedSummaries | src/services/pubmed.ts:29-64 | no ids, a failed exchange or a reply without `result` give no articles; otherwise the filtered, ordered articles |
| PubMed.ArticleCitation | src/services/pubmed.ts:121-129 | a PubMed citation keeps the article's fields, with kind pmid and url `https://pubmed.ncbi.nlm.nih.gov/<pmid>/` |
| PubMed.ArticleCitations | src/services/pubmed.ts:121-129 | one citation per article, in article order |
| PubMed.CrossRefAuthorNames | src/services/pubmed.ts:93-95 | one trimmed "family initial" name per author, in order |
| PubMed.CrossRefAuthorName | src/services/pubmed.ts:95 | the family name, a space and the given name's first character, trimmed; its behaviour over a list is stated by `CrossRefAuthorNames` |
| PubMed.CrossRefAuthorsLine | src/services/pubmed.ts:92-96 | the corrected authors line over the items' author names: `AuthorsLine` of `CrossRefAuthorNames`, so empty without `author`, up to three names, and " et al." when there are more |
| PubMed.CrossRefYear | src/services/pubmed.ts:98 | the first number of the first date part when there is one, otherwise the empty text |
| PubMed.CrossRefCitation | src/services/pubmed.ts:88-100 | a DOI citation with url `https://doi.org/<DOI>`, the first title and first container title or empty, the item's authors line and its `CrossRefYear` |
| PubMed.SearchCrossRef | src/services/pubmed.ts:69-106 | an empty query, a failure or a reply without `items` gives nothing; otherwise one citation per item, in reply order |
| PubMed.Cap | src/services/pubmed.ts:141 | the first min(10, n) entries of the list |
| PubMed.MergeCitations | src/services/pubmed.ts:131-141 | the loop with its `seen` set computes the capped accumulation `Merged(existing, live)` |
| PubMed.FetchCitationsForSlide | src/services/pubmed.ts:112-142 | returns the list `CitationsForSlide` specifies: the existing list for an empty query, otherwise search, fetch, normalise and merge |
| PubMed.AppendUnseenIsUnseen | src/services/pubmed.ts:132-139 | the accumulation is the existing list followed by exactly the live citations whose id was not yet seen |
| PubMed.AppendUnseen | src/services/pubmed.ts:132-139 | the merge loop as an accumulation: a live entry is appended when its id is not yet in the list; `AppendUnseenIsUnseen`, `UnseenDistinct` and `UnseenCovers` state its result |
| PubMed.Merged | src/services/pubmed.ts:131-141 | the merged list capped at ten; `MergedShape`, `ExistingEntriesWin`, `MergedDistinct` and `MergeIdempotent` state its properties |
| PubMed.CitationsForSlide | src/services/pubmed.ts:112-141 | the existing list for an empty query, else the merge of the live PubMed citations; `EmptyQueryKeepsExisting`, `FailedLookupKeepsExisting` and `CitationsForSlideBounded` state its cases and bounds |
| PubMed.UnseenFromLive | src/services/pubmed.ts:134-138 | every appended entry is a live citation whose id was unseen |
| PubMed.UnseenDistinct | src/services/pubmed.ts:134-138 | no two appended entries share an id |
| PubMed.UnseenCovers | src/services/pubmed.ts:134-138 | every live id ends up among the existing or the appended ids |
| PubMed.MergedShape | src/services/pubmed.ts:131-141 | the merge is the cap of existing followed by unseen live entries, and never exceeds ten |
| PubMed.ExistingEntriesWin | src/services/pubmed.ts:131-141 | existing entries keep their positions and values; only the cap removes any of them |
| PubMed.AppendedAreNew | src/services/pubmed.ts:134-138 | every entry after the existing ones is a live citation whose id no existing entry has |
| PubMed.MergedDistinct | src/services/pubmed.ts:131-141 | an existing list with distinct ids stays distinct after the merge |
| PubMed.AppendUnseenAllSeen | src/services/pubmed.ts:134-138 | once every live id is present, nothing is appended |
| PubMed.MergeIdempotent | src/services/pubmed.ts:131-141 | merging the same live list into the merged result changes nothing |
| PubMed.EmptyQueryKeepsExisting | src/services/pubmed.ts:116 | an empty query returns the existing list, uncapped |
| PubMed.FailedLookupKeepsExisting | src/services/pubmed.ts:118-141 | a failed search, a search without `idlist`, a failed fetch or a reply without `result`, for any other reply, degrades to the existing list capped at ten |
| PubMed.CitationsForSlideBounded | src/services/pubmed.ts:112-142 | a refreshed list has at most ten entries and keeps distinct ids distinct |
| PubMed.MergeExample | src/services/pubmed.ts:131-141 | existing [100 curated] with live [100 X, 200 Y] gives [100 curated, 200 Y] |
| Deck.PatchLaws | src/App.tsx:242 | an empty update is the identity, an update is idempotent, and two updates compose into one whose later fields win |
| Deck.ApplyPatch | src/App.tsx:242 | `{ ...s, ...u }`: each present field of the update overrides, each absent one keeps the slide's value; `PatchLaws` states its laws |
| Deck.UpdateAt | src/App.tsx:239-245 | the indexed slide takes the update, the length is kept, and every other slide is untouched |
| Deck.UpdateKeepsIds | src/App.tsx:242 | an update without an id keeps the deck's ids, and so their distinctness |
| Deck.Splice | src/App.tsx:264 | the slide is inserted at the clamped position, with the slides before it in place and those after shifted by one |
| Deck.RemoveAt | src/App.tsx:286 | the indexed slide is dropped and the others keep their order; an index outside the deck changes nothing |
| Deck.RemoveUndoesSplice | src/App.tsx:264-286 | removing the slide just inserted gives back the deck |
| Deck.BlankSlide | src/App.tsx:249-261 | the new slide has the given id, one placeholder bullet and no citations or query |
| Deck.AddAfter | src/App.tsx:248-266 | a blank slide lands right after the current one, with everything before and after kept |
| Deck.DuplicateAfter | src/App.tsx:272-277 | a copy of the current slide, differing only in id, lands right after it |
| Deck.SpliceKeepsDistinctIds | src/App.tsx:250 | inserting a slide with a fresh id keeps ids distinct |
| Deck.InsertionsKeepDistinctIds | src/App.tsx:248-277 | adding and duplicating with a fresh id keep ids distinct |
| Deck.DeleteShowsNeighbour | src/App.tsx:283-289 | after deleting, the index is in range and shows the slide that followed, or the previous one when the last slide went |
| Deck.IndexAfterDelete | src/App.tsx:289 | `Math.min(prev, length - 2)`: the result is at most the old index and at most length - 2, and equals one of them |
| Deck.RemoveKeepsDistinctIds | src/App.tsx:286 | deleting keeps ids distinct |
| Deck.NavTarget | src/App.tsx:95-99 | the result is the target exactly when the target is inside the deck, and otherwise the current index; it stays in range |
| Deck.RefreshedSlide | src/App.tsx:223-227 | a slide without a query is untouched; otherwise the citations become the `CitationsForSlide` result for its query, existing list and lookup (at most ten, distinct if they were), the stamp is set, and nothing else changes |
| Deck.RefreshedDeck | src/App.tsx:221-228 | length, order and ids are kept; query-less slides are unchanged; a refreshed slide differs from the old one only in its citations, which are the `CitationsForSlide` result for that slide's lookup (at most ten, distinct if they were), and its stamp |
| Deck.RefreshKeepsDistinctIds | src/App.tsx:221-228 | the refresh keeps ids distinct |
| Deck.IndexAfterInsert | src/App.tsx:268 | the intended navigation after an insertion lands on current + 1 |
| Deck.IndexAfterInsertAsWritten | src/App.tsx:268 | the stale navigation as written: current + 1 when it is inside the old deck, otherwise the index stays |
| Deck.StaleNavigationOnLastSlide | src/App.tsx:268 | on a one-slide deck the new slide is at 1, but the navigation as written stays at 0 |
| Deck.InsertThenShowsNewSlide | src/App.tsx:279 | with the intended navigation, the slide shown after add or duplicate is the inserted one, and it agrees with the code except on the last slide |
| Cache.Stamped | src/services/cache.ts:34-35 | each slide is stored with its own `last_updated` stamp and otherwise unchanged |
| Cache.Collect | src/services/cache.ts:51-55 | never more slides than the order names; when every ordered id is stored, one record per id in order; when one is missing, strictly fewer slides than ids |
| Cache.Load | src/services/cache.ts:45-57 | a non-empty load needs a saved order whose length equals the record count, and holds for each ordered id the record stored under it; an ordered id without a record makes the load empty whatever the counts; conversely, a saved order as long as the record count whose every id is stored loads exactly those records, in order |
| Cache.LastUpdated | src/services/cache.ts:60-63 | a save time exists exactly when the meta store holds one |
| Cache.SlideStore.constructor | src/services/cache.ts:11-24 | a new database has both stores empty |
| Cache.SlideStore.CacheSlides | src/services/cache.ts:28-42 | the slides store holds exactly the deck's stamped slides; meta gains the save time and the id order |
| Cache.SlideStore.GetCachedSlides | src/services/cache.ts:45-57 | the loop returns `Load` of the two stores |
| Cache.SlideStore.GetLastUpdated | src/services/cache.ts:60-63 | returns the stored save time or none |
| Cache.SlideStore.CacheSingleSlide | src/services/cache.ts:66-69 | one stamped record is put under its id, replacing any earlier one; meta is untouched |
| Cache.SlideStore.ClearCache | src/services/cache.ts:72-80 | both stores are emptied |
| Cache.RecordsKeys | src/services/cache.ts:31-35 | the record keys are exactly the deck's ids |
| Cache.Records | src/services/cache.ts:31-35 | the store after clearing and putting each stamped slide in order, a later slide overwriting an earlier one with the same id; `RecordsKeys` and `RecordsOfDistinct` state its contents |
| Cache.RecordsOfDistinct | src/services/cache.ts:31-35 | with distinct ids there is one record per slide, holding that slide stamped |
| Cache.SaveLoadRoundTrip | src/services/cache.ts:28-57 | a deck with distinct ids loads back as itself, each slide stamped, and the save time reads back |
| Cache.DuplicateIdsDefeatLoad | src/services/cache.ts:45-57 | a deck with a repeated id never loads back: the load is empty |
| Cache.SingleSlideReplacesInPlace | src/services/cache.ts:66-69 | re-caching a saved slide replaces it at its position on the next load |
| Cache.SingleNewSlideDefeatsLoad | src/services/cache.ts:66-69 | caching a slide whose id the saved order lacks makes the next load empty |
| Cache.RepeatedIdLoadsAfterStrayRecord | src/services/cache.ts:28-57 | a deck `[a, a', b]` with a repeated id, followed by a single-slide cache of a new id, loads back as `[a', a', b]`: the count check lets the repeat through |
| Cache.ClearedStoreLoadsNothing | src/services/cache.ts:72-80 | after clearing, nothing loads and there is no save time |
| Quiz.CorrectCount | src/components/QuizModal.tsx:18-25 | the number of correct picks is at most the number of questions |
| Quiz.QuizState.constructor | src/components/QuizModal.tsx:10-14 | the quiz opens on question 0 with nothing picked, a zero score and not completed |
| Quiz.QuizState.Select | src/components/QuizModal.tsx:18-25 | ignored once the answer is shown; otherwise it records the pick, shows the result and adds one exactly for the correct option |
| Quiz.QuizState.Next | src/components/QuizModal.tsx:27-35 | it moves to the next question with the pick cleared, or marks the quiz completed on the last; the score is kept |
| Quiz.QuizState.Restart | src/components/QuizModal.tsx:37-43 | back to the opening state |
| Quiz.ScoreBounded | src/components/QuizModal.tsx:22-24 | the score never exceeds the questions answered so far: the current one counts only once its answer is shown |
| Quiz.PerfectRun | src/components/QuizModal.tsx:18-35 | answering every question correctly completes the quiz with a full score |
| App.Presenter.constructor | src/App.tsx:36-38 | the first render shows the bundled slides, split at three bullets, from slide 0 |
| App.UseCached | src/App.tsx:62 | the mount-time test: a non-empty cached deck saved under the current content version; `LoadOnMount` states what each outcome does |
| App.LocalStorage.GetItem | src/App.tsx:61 | the stored value for a present key, `None` (`null`) for an absent one |
| App.LocalStorage.SetItem | src/App.tsx:68 | the key is set to the value and every other key keeps its value |
| App.Presenter.LoadOnMount | src/App.tsx:57-76 | when the database fails nothing changes; a non-empty cache under `v5` is shown as is; otherwise the split defaults are shown, saved under the new save time and their id order (so they load back when ids are distinct) and the version recorded, and the save time read back is `savedAt`; on every database path the save time is the one stored; index and direction are kept |
| App.Presenter.RebuildDefaults | src/App.tsx:64-68 | the fallback shows and saves the split defaults and sets the version to `v5`; index, direction and save time are kept |
| App.Presenter.GoTo | src/App.tsx:95-99 | the index moves to the target only when it is inside the deck, with the direction set |
| App.Presenter.GoNext | src/App.tsx:101-103 | one slide forward with direction next, except on the last; deck and save time kept |
| App.Presenter.GoPrev | src/App.tsx:105-107 | one slide back with direction prev, except on the first; deck and save time kept |
| App.Presenter.HandleUpdateSlide | src/App.tsx:239-245 | the deck becomes `UpdateAt` of the old deck, ids stay distinct, and index, direction and save time are kept |
| App.Presenter.HandleAddSlide | src/App.tsx:248-269 | the deck becomes `AddAfter` and the view moves to the new blank slide with direction next; the save time is kept |
| App.Presenter.HandleDuplicateSlide | src/App.tsx:272-280 | the deck becomes `DuplicateAfter` and the view moves to the copy with direction next; the save time is kept |
| App.Presenter.HandleDeleteSlide | src/App.tsx:283-290 | a single slide is never deleted; otherwise the current slide goes and the index becomes min(current, n - 2); direction and save time are kept |
| App.Presenter.RefreshEvidence | src/App.tsx:219-236 | the deck becomes `RefreshedDeck` and direction is kept; on a successful save the cache holds it with the new save time and order, so a deck with distinct ids loads back stamped, and the save time is set |
| App.Presenter.AutoSave | src/App.tsx:79-93 | the deck is saved with the new save time and order and, with distinct ids, loads back stamped; the save time is set; deck, index and direction are kept |

## Left out

- Rendering is not modelled: the slide, controls, notes, jump panel and citation modal components. Keyboard, touch and fullscreen listeners, and autoplay, are left out too. None of these holds data logic.
- PDF export (`src/services/pdfExport.ts`) is not part of this model.
- Timers are not modelled. The 500 ms auto-save debounce and the skip of the first render are modelled only as `AutoSave` being called. The 50 ms delayed navigation is modelled as taking effect inside the add and duplicate handlers.
- Concurrency is not modelled. The `Promise.all` refresh is modelled as one independent `Lookup` per slide. An interleaving of the async mount load with user navigation is excluded by `LoadOnMount` requiring the index to be 0.
- App.Presenter.LoadOnMount: a database that fails between steps is not modelled. The model uses one availability flag, so the database either works throughout or fails at the first step.
- App.Presenter.RefreshEvidence: the same one-flag model of database failure applies, and the two-transaction save is taken as all-or-nothing.
- Deck.PatchLaws: a `Partial<SlideData>` field that is present but explicitly `undefined` is not modelled, because an `Option` cannot express it.
- App.Presenter.HandleUpdateSlide requires the index to be inside the deck. In JavaScript an index beyond the end would make a sparse array, but the app only passes the current index.
- App.Presenter.HandleAddSlide takes the `slide_${Date.now()}` id as a parameter that must be fresh. Two insertions in the same millisecond could repeat an id; that case is not modelled.
- URL building and `encodeURIComponent` are not modelled: replies are parameters.
- The `retmax=5` and `rows=3` limits are not modelled, because the server applies them, not the code.
- App.Presenter.HandleAddSlide: follows the corrected navigation of the second finding below. On the last slide the code as written keeps the view where it was (`Deck.StaleNavigationOnLastSlide`); the model moves it to the new slide.
- App.Presenter.HandleDuplicateSlide: follows the corrected navigation of the second finding below, as for `HandleAddSlide`.
- PubMed.ToArticle: follows the corrected authors line of the first finding below. For a record without authors the code as written gives "undefined" (`PubMed.AuthorsLineAsWritten`); the model gives the empty line.
- PubMed.CrossRefAuthorsLine: follows the same corrected authors line. For an item without `author` the code as written at src/services/pubmed.ts:92-96 gives "undefined".
- PubMed.CrossRefCitation: its authors line is `CrossRefAuthorsLine`, so it too gives the empty line where the code as written gives "undefined".
- Strings.Trim: the whitespace set is the one `String.prototype.trim` documents. Unicode normalisation is not modelled.
- PubMed.CrossRefAuthorName: `given?.[0]` takes one UTF-16 code unit, while the model takes the first character of the string. The two differ only for an initial outside the Basic Multilingual Plane.
- Strings.ReplaceFirst: the replacement is inserted literally, without expanding `$&`, `$$` and the other replacement patterns. The only use passes the empty string, so no behaviour is lost.

## Findings

| source | as written | input that shows it | evidently intended | confidence | as-written member | corrected member |
|---|---|---|---|---|---|---|
| src/services/pubmed.ts:46-54 | `article.authors?.slice(0, 3)…join(', ') + (…)` yields `undefined + ''`, the text "undefined", when a record has no `authors`; the `?? ''` after it never applies (the CrossRef form at lines 92-96 has the same shape) | an esummary record without an `authors` field | an empty authors line | medium, not executed | PubMed.AuthorsLineMissingList | PubMed.AuthorsLine |
| src/App.tsx:268 | the 50 ms `goTo(currentSlide + 1)` after an insertion uses the `goTo` of the render that scheduled it, whose deck length is the old one, so on the last slide the target is refused (same at line 279 for duplicate) | a one-slide deck, current 0, press add: the new slide is at index 1 but the view stays at 0 | the view moves to the inserted slide | medium, not executed | Deck.StaleNavigationOnLastSlide | Deck.InsertThenShowsNewSlide |
