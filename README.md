# Sentence cards: a verified model

`sentence.js` drives a Turkish–English sentence study page. It finds the
page files `data/page1.json`, `data/page2.json`, … that exist. It deals the
sentences of one page as flip cards in shuffled order. The learner marks each
card "known" (`hiddenWords`) or "to review" (`unlearnedWords`), and the marks
persist in the browser's `localStorage`. A review mode deals every card
marked to review, from every page. A page button gets a line-through once nothing on that
page is left to study. One search box looks sentences up by substring, through a
search button and as the learner types.

This project models that logic in Dafny and proves what it does:

| file | module | models |
|---|---|---|
| `text.dfy` | `Text` | decimal rendering of page numbers and counters, `toLowerCase`, `trim`, `includes` |
| `cards.dfy` | `Cards` | raw and tagged items, the identity key `${page}_${en}`, `fetchPages`, `Array.prototype.filter` |
| `status.dfy` | `Status` | the two stored lists and their updates: `getLS`, the list part of `handleResult`, reset |
| `deck.dfy` | `Deck` | the filters of `renderWords` and `updateStrike`, `shuffle` on an array, the struck-through pages |
| `discovery.dfy` | `Discovery` | the start-up probe loop over pages 1 to 50 |
| `search.dfy` | `Search` | the scan loops of the search button and of search-as-you-type |
| `app.dfy` | `App` | the module-level state as a class `Session`, with one method per handler |

The outside world comes in as parameters:

- **Page files.** One operation sees a `Site`, a map from page number to the
  page's raw items. Page `p` is in the map when its file loads as an array of
  items. Each operation takes its own `Site`, so pages may come and go
  between operations.
- **Randomness.** `Math.random()` is a function `random: nat -> real` whose
  k-th value is the k-th draw, each in [0, 1).
- **Storage.** `localStorage` is a map from key to the decoded string array.

## Model

| member | source | states |
|---|---|---|
| Text.NatToString | sentence.js:45 | the text of `${n}` is a non-empty digit string without a leading zero |
| Text.ParseNatToString | sentence.js:45 | reading the decimal text of `n` back gives `n` |
| Text.NatToStringInjective | sentence.js:59 | two numbers have the same decimal text exactly when they are equal |
| Text.SeparatedInjective | sentence.js:59 | a number's digits, a non-digit separator and a tail determine both the number and the tail |
| Text.TrimStart | sentence.js:225 | the result is a suffix of the input; what it drops is white space; it does not start with white space |
| Text.TrimEnd | sentence.js:225 | the result is a prefix of the input; what it drops is white space; it does not end with white space |
| Text.TrimSlice | sentence.js:225 | `trim` returns one slice of its input, with only white space before and after it |
| Text.TrimEdges | sentence.js:225 | a non-empty trimmed string starts and ends with a character that is not white space |
| Text.TrimEmptyIffBlank | sentence.js:225-226 | the trimmed query is empty, so `!query` stops the search, exactly when the input is all white space |
| Text.Lower | sentence.js:225 | `toLowerCase` keeps the length; its meaning is in Text.LowerIdempotent, Search.LowerCharKeepsSpace and Search.NormalizeIgnoresCase |
| Text.Trim | sentence.js:225 | `trim`; its meaning is in Text.TrimSlice, Text.TrimEdges and Text.TrimEmptyIffBlank |
| Text.LowerIdempotent | sentence.js:225 | lower-casing twice is lower-casing once |
| Text.Contains | sentence.js:238-239 | `includes`; its meaning is in Text.ContainsIffOccurs |
| Text.ContainsIffOccurs | sentence.js:238-239 | `includes` holds exactly when the query occurs at some position of the text |
| Cards.TagPage | sentence.js:34 | tagging keeps the page's length |
| Cards.TagPageMembership | sentence.js:34 | an item is on a tagged page exactly when it carries that page's number and its raw form is in the page file |
| Cards.Key | sentence.js:59 | the identity key `${page}_${en}`, also built at sentence.js:131 and 151; Cards.KeyInjective shows it tells items apart by page and English text |
| Cards.KeyInjective | sentence.js:59 | two items have the same key exactly when they have the same page and the same English text, whatever that text holds |
| Cards.FetchPages | sentence.js:30-38 | the loader yields a list exactly when every requested page loads; each item in it carries a requested, loaded page and comes from that page's file |
| Cards.FetchPagesComplete | sentence.js:32-37 | when all pages load, an item is in the list exactly when it comes from one of the requested pages, tagged with that page |
| Cards.FetchPagesAppend | sentence.js:37 | loading `a + b` gives the items of `a` followed by those of `b`: page order is kept |
| Cards.FetchSinglePage | sentence.js:30-38 | loading one page gives that page's tagged items, or nothing when it fails |
| Cards.Filter | sentence.js:150-154 | a filter result is never longer than its input |
| Cards.FilterCount | sentence.js:150-154 | an accepted element is kept as often as it occurs and a rejected one never |
| Cards.FilterMembership | sentence.js:150-154 | an element is kept exactly when it occurs and is accepted |
| Cards.FilterSnoc | sentence.js:150-154 | filtering a list with one more element adds that element at the end exactly when it is accepted |
| Cards.FilterAppend | sentence.js:150-154 | filtering distributes over concatenation, so order is kept |
| Cards.FilterEmpty | sentence.js:130-135 | the filter result is empty exactly when no element is accepted |
| Status.Read | sentence.js:18 | `getLS`: a missing key reads as the empty list; every lemma of this table about storage states its results through it |
| Status.StorageKey | sentence.js:82-87 | the two buttons write only `hiddenWords` or `unlearnedWords` |
| Status.PushIfAbsent | sentence.js:93-97 | the key ends up in the list; the list keeps its old contents as a prefix; it is unchanged when the key was there and grows by exactly the key at the end when it was not; it gains no repeat; other storage keys are untouched |
| Status.IndexOf | sentence.js:101 | `-1` exactly when the key is absent, otherwise the first position holding it |
| Status.RemoveAt | sentence.js:103 | `splice(i, 1)` shortens the list by one, shifts every later element down one place, keeps every earlier one, and loses exactly one copy of `s[i]` |
| Status.RemoveAtElements | sentence.js:103 | removing a position keeps every other element, and on a list without repeats the removed element is gone |
| Status.SpliceOut | sentence.js:100-105 | nothing changes when the key is absent; on a list without repeats the key is gone, nothing else is lost, and no repeat appears; other storage keys are untouched |
| Status.ResetStore | sentence.js:172-173 | both lists read as empty afterwards, whatever was stored; every other storage key is untouched |
| Status.Mark | sentence.js:92-106 | the storage part of `handleResult`; its meaning is in Status.MarkKeepsValid, Status.MarkAdds, Status.MarkIdempotent, Status.MarkHiddenClearsUnlearned and Status.MarkUnlearnedKeepsHidden |
| Status.MarkKeepsValid | sentence.js:92-106 | classifying keeps both lists free of repeats |
| Status.MarkAdds | sentence.js:92-106 | after a mark the key is in the chosen list, which kept its old contents as a prefix and gained nothing but the key; other storage keys read the same |
| Status.MarkIdempotent | sentence.js:93-105 | on lists without repeats, marking the same key into the same list twice equals marking it once |
| Status.MarkHiddenClearsUnlearned | sentence.js:99-105 | on lists without repeats, marking a key known puts it in `hiddenWords` and takes it out of `unlearnedWords`, which loses nothing else |
| Status.MarkHiddenWithRepeatedKey | sentence.js:101-103 | on a stored `unlearnedWords` holding a key twice, marking it known leaves one copy |
| Status.MarkUnlearnedKeepsHidden | sentence.js:92-106 | marking a key for review leaves `hiddenWords` exactly as it was and puts the key in `unlearnedWords` |
| Status.MarkUnlearnedCanOverlap | sentence.js:92-106 | a known key marked for review is then in both lists |
| Deck.PagesToFetch | sentence.js:147 | every registered page in review mode, the current page otherwise; Deck.StudyDeckExact and Deck.ReviewDeckExact state the decks it leads to |
| Deck.Keep | sentence.js:150-154 | the `renderWords` filter predicate; its meaning is in Deck.StudyDeckExact and Deck.ReviewDeckExact |
| Deck.DeckFilter | sentence.js:150-154 | the `renderWords` filter over the loaded items; its meaning is in Deck.StudyDeckExact, Deck.ReviewDeckExact and Deck.BuildDeck |
| Deck.StudyDeckExact | sentence.js:147-154 | the study deck of a page holds exactly that page's items whose key is in neither list, tagged with the page, each as often as the file lists it |
| Deck.ReviewDeckExact | sentence.js:147-154 | the review deck holds exactly the items of the registered pages whose key is in `unlearnedWords` |
| Deck.ReviewScenario | sentence.js:147-154 | reviewing pages 1 and 2 with `unlearnedWords = ["1_Yes"]` deals only page 1's "Yes", whatever page 2 holds |
| Deck.ReviewScenarioFirstPage | sentence.js:150-154 | page 1's single item "Yes" is kept under `unlearnedWords = ["1_Yes"]` |
| Deck.ReviewScenarioSecondPage | sentence.js:150-154 | no page-2 item is kept under `unlearnedWords = ["1_Yes"]` |
| Deck.SwapIndex | sentence.js:24 | `Math.floor(Math.random() * (i + 1))` lies in [0, i] |
| Deck.Shuffle | sentence.js:22-27 | the in-place shuffle keeps the array's elements with their counts |
| Deck.BuildDeck | sentence.js:150-156 | the dealt deck is a permutation of the filtered items |
| Deck.ClearedIffNoneVisible | sentence.js:130-135 | the filter of `updateStrike` comes out empty exactly when every item of the page is known or marked for review |
| Deck.StruckPages | sentence.js:125-139 | the line-through set `updateStrike` produces; its meaning is in Deck.StruckPagesMembership and Deck.StruckMeansNothingToStudy |
| Deck.StruckPagesMembership | sentence.js:125-139 | a page is struck exactly when it is registered, it loads and nothing on it is left to study |
| Deck.StruckPagesSnoc | sentence.js:125-139 | one more page button adds that page to the struck set exactly when it is cleared |
| Deck.StruckMeansNothingToStudy | sentence.js:119-141 | a page is struck exactly when it is registered, it loads and its study deck would be empty |
| Deck.TwoItemDeck | sentence.js:22-27 | a permutation of two distinct items is one of their two orders |
| Discovery.ProbePages | sentence.js:194-217 | the registered pages are 1, 2, …, n in order, all present, at most 50 of them, and page n + 1 is missing unless the cap was reached |
| Search.Normalize | sentence.js:225 | `value.trim().toLowerCase()`, also at sentence.js:291; its meaning is in Text.TrimEmptyIffBlank and Search.NormalizeIgnoresCase |
| Search.Matches | sentence.js:238-239 | the match test, also at sentence.js:303-306; its meaning is in Text.ContainsIffOccurs and Search.HitsMembership |
| Search.Hits | sentence.js:231-247 | the results of a scan; its meaning is in Search.HitsMembership, Search.HitsAppend and Search.HitsSkipFailed, and Search.Scan computes it |
| Search.HitsAppend | sentence.js:231-247 | results for `a + b` are those of `a` followed by those of `b`: page order is kept |
| Search.HitsMembership | sentence.js:231-247 | an item is found exactly when it is on a registered page that loads, is tagged with that page, and its lower-cased Turkish or English text contains the query |
| Search.HitsSkipFailed | sentence.js:244-246 | a page that fails to load drops nothing from the other pages' results |
| Search.ScanPage | sentence.js:236-243 | the loop over one page collects exactly its matches, tagged, in file order |
| Search.Scan | sentence.js:231-247 | the scan loop collects exactly the results defined by `Hits` |
| Search.SearchButton | sentence.js:224-249 | a blank query runs nothing; otherwise "not found" exactly when there is no result, else exactly the results |
| Search.LiveSearch | sentence.js:290-339 | a blank query leaves the list empty; otherwise the list is every match in scan order, or the single "no match" line exactly when there is none |
| Search.LowerCharKeepsSpace | sentence.js:225 | lower-casing neither creates nor removes white space |
| Search.TrimStartLower | sentence.js:225 | trimming the start commutes with lower-casing |
| Search.TrimEndLower | sentence.js:225 | trimming the end commutes with lower-casing |
| Search.NormalizeIgnoresCase | sentence.js:225 | two inputs that agree up to case give the same query |
| Search.SinglePageHits | sentence.js:236-243 | on a one-item site the item is found exactly when it matches |
| Search.SearchScenarioTurkish | sentence.js:236-241 | "mer" finds "Merhaba"/"Hello" through the Turkish text |
| Search.SearchScenarioEnglish | sentence.js:236-241 | "hel" finds "Merhaba"/"Hello" through the English text |
| Search.SearchScenarioNone | sentence.js:236-241 | "xyz" finds nothing |
| Search.XyzMatchesNeither | sentence.js:238-239 | "xyz" is in neither text of "Merhaba"/"Hello" |
| Search.NormalizeWord | sentence.js:225 | a three-letter lower-case word is its own query |
| Search.NoXNoMatch | sentence.js:238-239 | a text without an `x` does not contain "xyz" |
| App.ProgressText | sentence.js:44-46 | `updateProgress`; its meaning is in App.ProgressReadsBack |
| App.ShowNextCard | sentence.js:48-56 | what `showNextCard` displays; its meaning is in App.ProgressReadsBack and App.EmptyDeckCompletesAtOnce |
| App.ProgressReadsBack | sentence.js:44-56 | the banner shows exactly when the cursor is past the last card; a shown card is the one at the cursor; the progress text reads as `index+1/length` while active and `length/length` at completion |
| App.EmptyDeckCompletesAtOnce | sentence.js:51-53 | an empty deck shows the completion banner at once, reading "0/0" |
| App.Session.constructor | sentence.js:12-15 | the initial state is page 1, study mode, no registered pages, an empty deck at index 0 |
| App.Session.UpdateStrike | sentence.js:119-141 | in study mode the struck pages become exactly `StruckPages` of the registered pages; review mode changes nothing |
| App.Session.AfterShow | sentence.js:51-55 | the marks are refreshed only once the cursor is past the deck |
| App.Session.RenderWords | sentence.js:143-169 | on a failed load nothing changes; otherwise the deck is a permutation of the filtered items of the pages to fetch, the cursor is 0 and the marks are refreshed |
| App.Session.Deal | sentence.js:149-167 | the deck is a permutation of the filtered items, the cursor is 0 and the marks are refreshed |
| App.Session.Classify | sentence.js:92-111 | storage becomes `Mark` of the old storage for the shown card's key; the cursor advances by exactly one; the marks refresh when that completes the deck |
| App.Session.Reset | sentence.js:171-183 | both lists are dropped, study mode is set, and the deck is rebuilt from an empty store; on a failed load only the marks are cleared |
| App.Session.SelectPage | sentence.js:206-210 | the chosen page in study mode is dealt |
| App.Session.ReviewUnlearned | sentence.js:185-188 | review mode deals the marked items of every registered page |
| App.Session.Start | sentence.js:191-220 | the probed pages are appended to the registered pages and the current page is dealt |
| App.Session.JumpTo | sentence.js:265-277 | clicking a search result shows a one-card deck holding that item on its page, with progress "1/1" |
| App.StudyToCompletion | sentence.js:51-56 | from index 0, a card shows until `deck.length` classifications are done, then the banner shows |
| App.TwoMarks | sentence.js:92-106 | on an empty store, marking one key known and another for review leaves one key in each list |
| App.TwoCardDeal | sentence.js:147-154 | a page holding two items deals both from an empty store |
| App.TwoCardStart | sentence.js:191-220 | start-up over a one-page site with an empty store deals both cards in some order |
| App.TwoCardSession | sentence.js:92-111 | on that site, marking the first card known shows the other with progress "2/2"; marking it for review leaves one key in each list and shows the banner "2/2"; its steps are asserted in the body |

## Left out

- DOM work is not modelled: element creation, styling, class toggles, `innerHTML`, `scrollIntoView` and the card flip. The page-button "active" toggles are left out too. The struck marks are kept as a set of page numbers.
- `fetch`, promises and `async`/`await` are not modelled. Each operation sees one snapshot of the page files. Pages that load and then fail, or change during one operation, are not modelled.
- Concurrency is not modelled. `updateStrike` here applies every page's result at once, in page order. Stale in-flight searches and probes are not modelled.
- `localStorage` and JSON are not modelled. A stored list is a decoded `seq<string>`. Stored text that fails to parse would throw in `getLS`, and the model does not represent it.
- The raw items are assumed to have string fields `tr` and `en`. Items with missing or non-string fields, which would throw in the search loops, are not modelled.
- Deck.Shuffle: the contract states a permutation only. Uniformity of the shuffle depends on `Math.random` and is not stated. `random` is an oracle, with every draw in [0, 1).
- Text.LowerChar: `toLowerCase` is modelled for ASCII, the Latin-1 capitals and the Turkish capitals Ğ and Ş only. Other characters are left unchanged. This includes İ (U+0130), whose JavaScript lower case is two code points.
- Lookups use `localStorage.getItem(...) || "[]"`. A stored empty string reads as `[]`, and an absent key does too. The model has no empty-string entry.
- RenderWords reads `hiddenWords`/`unlearnedWords` before the fetch (sentence.js:144-145), and the model reads them after it. Each handler in the model runs atomically. While the fetch is pending the previous card's buttons still work and can write storage. The read order matters only under that interleaving, which is left out with the rest of the concurrency.
- RenderWords: `showNextCard` refreshes the marks when the new deck is empty, and `renderWords` refreshes them again right after. The model refreshes once, because both give the same marks.
- App.Session.Valid does not track that the struck pages are registered pages.
- The deck is a `seq` field of the session. The in-place shuffle works on a fresh array that holds the filtered items.
- `if (!liveResults) return` guards against a missing DOM element. It is left out.
- The live-search click also clears the result list and the input box, which is DOM state. The search-button and live-search clicks share one `JumpTo`.
- The discovery loop's `catch` (a network error or bad JSON) and `!res.ok` both stop the probe. The model uses one membership test for both.
- App.Session.Start and Discovery.ProbePages: the probe and the page loaders share one membership test, although the source's tests differ. The probe needs a success status and accepts any JSON (sentence.js:197-199). `fetchPages` and the search loops ignore the status and fail unless the body is an array (sentence.js:33-34, 233-236, 299-302). So the model cannot represent a page that the probe registers and every later load then fails, such as a file holding `{}`.
- App.Session.constructor: it requires both stored lists to be free of repeats. That holds when no writer other than this script has touched the two keys; Status.MarkKeepsValid and Status.ResetStore show the script's own writes never create a repeat. Storage with repeats written from outside is not a starting state of the model.

### Behaviour worth knowing

- **Duplicate items.** The deck deals an item as often as the page file lists it, and `Deck.StudyDeckExact` states that count.
- **Empty deck.** An empty deck shows the normal completion banner, reading "0/0" (`App.EmptyDeckCompletesAtOnce`). Nothing tells "nothing to study" from "all done".
- **Clearing from `unlearnedWords`.** Marking a card known removes only the first stored copy of its key from `unlearnedWords`. On lists without repeats, which is all the script itself writes (`Status.MarkKeepsValid`), that is full removal. A list stored with a repeat keeps a copy (`Status.MarkHiddenWithRepeatedKey`).
- **Stored text.** Malformed stored JSON throws in `getLS`; it is not read as an empty list.
- **Failed pages.** One failing page makes the whole deck load fail, and the mark refresh inside the same `.then` (sentence.js:167) fails with it. `updateStrike` fetches each page on its own (sentence.js:129), so a failing page loses only its own line-through (`Deck.StruckPagesMembership`). Search skips the failed page and goes on with the rest (`Search.HitsSkipFailed`).
- **Review mode after a search jump.** Clicking a search result leaves the review flag as it was.
