# Note store model

A Dafny model of the note store of a browser extension that keeps notes
per web page (`storage/StorageService.js`). The store keeps every note in
one object under the storage key `notes`. Each note is stored under its id.
Every operation runs the same cycle:

1. read the value under the key;
2. drop the entries that fail `isValidNote` (`filterValidNotes`);
3. change the collection;
4. write the whole collection back.

The model makes that cycle explicit. Each operation takes the value found
under the key as a parameter `slot: Option<Raw>`; `None` means the key is
absent. A writing operation returns the collection it would persist.
`Persist` turns that collection into the next `slot`. The clock (`Date.now()`)
and the generated id (`generateUUID()`) are parameters too.

Modules, in dependency order:

- `Wrappers`: `Option` and `Result`. Every failure of an operation is one
  `Err`, as the source rethrows one generic error per operation.
- `Json`: `Raw`, the loosely typed values the store can hold (null, booleans,
  integers, strings, objects), with JavaScript truthiness.
- `Sanitizer`: `sanitizeInput`. It removes the matches of `/<[^>]*>/g` by a
  left-to-right scan. It then trims the code points that
  `String.prototype.trim` removes.
- `Text`: ASCII `toLowerCase` and `String.prototype.includes`.
- `Notes`: the `Note` record, `isValidNote`, `filterValidNotes` and the
  load/persist pair.
- `Ordering`: `Array.prototype.filter` (`Select`) and the comparator sort
  `(a, b) => b.createdAt - a.createdAt`. The sort is a stable insertion
  sort (`SortDesc`), because `Array.prototype.sort` is stable. The module
  proves that filtering commutes with this sort.
- `NoteStore`: the five operations `createNote`, `getNotesByUrl`,
  `updateNote`, `deleteNote` and `searchNotes`.
- `Findings`: `deleteNote` and `updateNote` as written, for ids that name
  members every object inherits.
- `Scenarios` and `SanitizerCases`: worked examples on small inputs, proved.

`Object.values` lists an object's entries in an order set by the engine.
The model leaves that order unspecified: `Listing` picks keys by ghost
choice. So `GetNotesByUrl` and `SearchNotes` are ghost functions, and what
is proved about them holds for every enumeration order. Two notes with
equal `createdAt` keep their enumeration order; everything else about the
order is determined.

Except for the `notes[id]` lookup described under "Findings", the model
follows the code where the code and its documented intent differ:

- A note with empty content is valid.
- The key under which a note is stored is never compared with the note's
  `id`. So "a deleted id is never returned again" holds only for
  collections whose every note is stored under its own id. See
  `NoteStore.DeleteThenGet` and `Scenarios.SwappedKeysOutliveDelete`.
- `updateNote` writes `updatedAt = now` without comparing it with
  `createdAt`. If the clock went back before the note's creation, the
  updated note becomes invalid and the next load drops it. See
  `NoteStore.UpdateThenReload`.
- `searchNotes` tests the trimmed query for blankness but matches with
  the untrimmed query.
- A fresh id that collides with a stored key overwrites that entry.

## Model

| member | source | states |
|---|---|---|
| Sanitizer.IndexOf | storage/StorageService.js:32 | the position found holds the sought character and no earlier position does: the first `>` that ends a tag |
| Sanitizer.StripTags | storage/StorageService.js:32 | removing tags never makes a string longer |
| Sanitizer.TrimStart | storage/StorageService.js:32 | the result is a suffix of the input, does not start with white space, and everything removed is white space |
| Sanitizer.TrimEnd | storage/StorageService.js:32 | the result is a prefix of the input, does not end with white space, and everything removed is white space |
| Sanitizer.TrimBothEnds | storage/StorageService.js:32 | trimming the back after the front leaves a contiguous slice of the input with white space at neither end, everything dropped before and after the slice is white space, and nothing is left only when the input is all white space |
| Sanitizer.Trim | storage/StorageService.js:32 | `trim` returns a slice of its input with no white space at either end, having dropped only white space from the front and the back, and returns "" only for all-white-space input |
| Sanitizer.Sanitize | storage/StorageService.js:31-32 | a sanitized string has no white space at either end, no `<` followed later by `>`, and is no longer than the input |
| Sanitizer.SanitizeInput | storage/StorageService.js:26-33 | any non-string input gives ""; a string gives a trimmed result in which no `<` is followed later by a `>` |
| Sanitizer.StripTagsNoTag | storage/StorageService.js:32 | after tag removal no `<` is followed anywhere later by a `>` |
| Sanitizer.NoTagSlice | storage/StorageService.js:32 | every slice of a tag-free string is tag-free, so trimming keeps the string tag-free |
| Sanitizer.StripTagsFixesTagFree | storage/StorageService.js:32 | tag removal leaves a tag-free string unchanged |
| Sanitizer.StripTagsKeepsText | storage/StorageService.js:32 | text before the first `<` is kept verbatim |
| Sanitizer.StripTagsDropsTag | storage/StorageService.js:32 | a `<`, text without `>`, and a `>` form one tag, which is removed with the text inside it |
| Sanitizer.StripTagsAroundTag | storage/StorageService.js:32 | one tag between two tag-free texts leaves exactly the two texts joined |
| Sanitizer.StripTagsAroundWord | storage/StorageService.js:32 | two tags around a word, with tag-free text outside them, leave the three texts joined |
| Sanitizer.TrimFixesTrimmed | storage/StorageService.js:32 | trimming leaves a string without white space at its ends unchanged |
| Sanitizer.SanitizeFixedPoints | storage/StorageService.js:26-33 | sanitizing leaves a string unchanged exactly when it has no `<` followed later by `>` and no white space at either end |
| Sanitizer.SanitizeIdempotent | storage/StorageService.js:26-33 | sanitizing a sanitized string changes nothing |
| Sanitizer.SanitizeInputIdempotent | storage/StorageService.js:26-33 | feeding `sanitizeInput`'s output back into it changes nothing, for every input value, string or not |
| Text.LowerChar | storage/StorageService.js:265 | upper-case ASCII letters map to their lower-case letter; every other character is unchanged |
| Text.Lower | storage/StorageService.js:265-268 | lower-casing keeps the length and lower-cases each character in place |
| Notes.IsValidNote | storage/StorageService.js:40-76 | a stored value passes exactly when it is an object with string `id`, `content`, `url`, `pageTitle` and numeric `createdAt`, `updatedAt`, where `id` and `url` are non-empty, both times are positive, and `updatedAt >= createdAt`; `content` and `pageTitle` may be empty |
| Notes.ReadEncode | storage/StorageService.js:127-134 | the object literal written for a note reads back as the same note |
| Notes.EncodeValidIff | storage/StorageService.js:40-76 | the object written for a note passes `isValidNote` exactly when the note is well formed |
| Notes.FilterValidNotes | storage/StorageService.js:83-99 | the result holds exactly the entries whose values pass `isValidNote`, under their own keys with their own values; a non-object gives `{}` |
| Notes.FilterValidNotesIdempotent | storage/StorageService.js:83-99 | filtering a filtered collection changes nothing |
| Notes.FilterValidNotesFixes | storage/StorageService.js:83-99 | filtering returns its input unchanged exactly when every entry is valid |
| Notes.Load | storage/StorageService.js:137-138 | the collection an operation works on is all valid: `{}` when the key is absent, otherwise the filtered value under it |
| Notes.LoadPersist | storage/StorageService.js:137-144 | reading back a written collection filters it, and returns it unchanged when every entry is valid |
| Ordering.SelectCount | storage/StorageService.js:168 | a filter keeps every occurrence of each element that passes and drops every occurrence of each element that fails |
| Ordering.SelectMembers | storage/StorageService.js:168 | an element is in the filtered list exactly when it is in the list and passes |
| Ordering.SelectWithin | storage/StorageService.js:266-269 | a filtered list holds nothing its input does not, and nothing more often |
| Ordering.SelectSorted | storage/StorageService.js:168-169 | filtering a newest-first list leaves it newest first |
| Ordering.InsertDesc | storage/StorageService.js:169 | inserting into a newest-first list keeps it newest first and adds exactly the new element |
| Ordering.InsertDescStep | storage/StorageService.js:169 | a head newer than the inserted element stays in front of everything behind it |
| Ordering.SortDesc | storage/StorageService.js:169 | the sort returns a permutation of its input ordered by `createdAt`, non-increasing |
| Ordering.HeadIsNewest | storage/StorageService.js:169 | every member of a newest-first list is no newer than its head |
| Ordering.SelectCons | storage/StorageService.js:168 | filtering a list with a given head keeps the head exactly when it passes, followed by the filtered rest |
| Ordering.InsertBehind | storage/StorageService.js:169 | an element older than the head is inserted behind the head |
| Ordering.SelectInsertFront | storage/StorageService.js:169 | when the inserted element goes in front, filtering after insertion equals inserting into the filtered list, or the filtered list alone if the element fails |
| Ordering.SelectBehindHead | storage/StorageService.js:168-169 | behind a head newer than the inserted element, filtering with and without the insertion both split into the head and the filtered tail |
| Ordering.SelectInsertBehindKept | storage/StorageService.js:168-169 | for an element that passes, filtering commutes with insertion behind the head when it commutes for the tail |
| Ordering.SelectInsertBehindDropped | storage/StorageService.js:168-169 | for an element that fails, filtering after insertion behind the head equals filtering without it when that holds for the tail |
| Ordering.SelectInsert | storage/StorageService.js:168-169 | filtering after inserting into a sorted list equals inserting into the filtered list, or just filtering when the element fails |
| Ordering.SelectSortCommute | storage/StorageService.js:261-273 | filtering then sorting gives the same list as sorting then filtering |
| NoteStore.PickKey | storage/StorageService.js:167 | the next key listed is a key of the collection |
| NoteStore.KeysHoldingRemove | storage/StorageService.js:167 | removing one key removes that key, and only that key, from the keys holding a note |
| NoteStore.ListingCount | storage/StorageService.js:167 | `Object.values` lists each note once for every key holding it |
| NoteStore.GetNotesByUrlSorted | storage/StorageService.js:167-171 | `getNotesByUrl` returns its notes newest first |
| NoteStore.GetNotesByUrlCount | storage/StorageService.js:160-171 | `getNotesByUrl` returns a permutation of the valid stored notes whose url equals the argument verbatim: each as often as keys hold it, nothing else |
| NoteStore.GetNotesByUrlMembers | storage/StorageService.js:160-171 | a note is returned exactly when it has the url and some loaded entry holds it, and every returned note is well formed; no match gives the empty list |
| NoteStore.SearchIsFilteredGet | storage/StorageService.js:254-273 | a blank query returns exactly `getNotesByUrl`; any other query returns the matching notes of `getNotesByUrl` in the same order |
| NoteStore.SearchNotesSorted | storage/StorageService.js:272-273 | search results are newest first |
| NoteStore.SearchNotesWithinGet | storage/StorageService.js:261-270 | every search result is returned by `getNotesByUrl`, and no more often |
| NoteStore.SearchNotesMatches | storage/StorageService.js:264-269 | for a non-blank query, a note is a result exactly when `getNotesByUrl` returns it and its lower-cased content or title includes the lower-cased, untrimmed query |
| NoteStore.CreateNote | storage/StorageService.js:108-146 | create fails exactly when the sanitized content or url is empty; the new note carries the given id, the sanitized fields and `now` as both times; the collection gains that id and keeps every other loaded entry; the new entry is valid exactly when the id is non-empty and `now > 0` |
| NoteStore.CreateThenGet | storage/StorageService.js:137-146 | after a create with a non-empty id and positive clock, `getNotesByUrl` for the note's url returns the new note |
| NoteStore.Touch | storage/StorageService.js:205-206 | the update sets content and `updatedAt`, keeps every other property of the stored object, and the object stays valid exactly when `now >= createdAt` |
| NoteStore.UpdateNote | storage/StorageService.js:184-211 | update, with the id looked up among own keys (the corrected lookup; see Findings), fails exactly when the sanitized content is empty or the id is not a loaded key; on success only the target's content and `updatedAt` change, its id, url, title and `createdAt` are kept, the keys are the loaded keys and every other entry is unchanged |
| NoteStore.UpdateThenReload | storage/StorageService.js:205-209 | reloading after an update gives the persisted collection, minus the updated note if the clock went back before its creation |
| NoteStore.ReloadAfterWrite | storage/StorageService.js:138-144 | writing one entry into a valid collection and reloading keeps the new entry exactly when it is valid |
| NoteStore.UpdateMonotone | storage/StorageService.js:206 | when the clock has not gone back since the last write, the new `updatedAt` is at least both stored times and the note stays well formed |
| NoteStore.DeleteNote | storage/StorageService.js:223-239 | delete, with the id looked up among own keys (the corrected lookup; see Findings), fails exactly when the id is not a loaded key; on success the collection is the loaded one without that key, everything else unchanged |
| NoteStore.DeleteTwiceFails | storage/StorageService.js:229-236 | deleting the same id again after a successful delete fails |
| NoteStore.CreateKeepsKeysAreIds | storage/StorageService.js:141 | create keeps every valid note under its own id |
| NoteStore.UpdateKeepsKeysAreIds | storage/StorageService.js:205-206 | update keeps every valid note under its own id |
| NoteStore.DeleteKeepsKeysAreIds | storage/StorageService.js:236 | delete keeps every valid note under its own id |
| NoteStore.DeleteThenGet | storage/StorageService.js:231-239 | when every note is stored under its own id, no note with a deleted id comes back from `getNotesByUrl` |
| Findings.DeleteAsWritten | storage/StorageService.js:231-236 | delete as written succeeds exactly when the id is loaded or names an inherited member, and removes only an own key: every remaining entry keeps its loaded value, and for an inherited name nothing is removed |
| Findings.DeleteAsWrittenAgrees | storage/StorageService.js:231-236 | for every id that names no inherited member, delete as written is the intended delete |
| Findings.DeleteInheritedNameSucceeds | storage/StorageService.js:231-236 | deleting "toString" from an empty store succeeds, and succeeds again, while the intended delete fails |
| Findings.UpdateAsWritten | storage/StorageService.js:200-209 | update as written succeeds exactly when the sanitized content is non-empty and the id is loaded or names an inherited member; for an inherited name it persists the loaded collection unchanged |
| Findings.UpdateAsWrittenAgrees | storage/StorageService.js:200-209 | for every id that names no inherited member, update as written succeeds exactly when the intended update does, and then persists the same collection |
| Findings.UpdateInheritedNameSucceeds | storage/StorageService.js:200-209 | updating "toString" on a store without such a note succeeds and changes nothing, while the intended update fails |
| Scenarios.CreateRejectsEmptyContent | storage/StorageService.js:111-118 | empty content and non-string content are both refused |
| Scenarios.EmptyContentIsValid | storage/StorageService.js:50-52 | a stored note with empty content and empty title passes validation |
| Scenarios.SortedPair | storage/StorageService.js:169 | a newest-first list holding exactly two notes of different ages has the newer one first |
| Scenarios.PairHolding | storage/StorageService.js:90-92 | in a two-note collection stored under its ids, each of the two notes is held by one key and no other note is held |
| Scenarios.PairLoads | storage/StorageService.js:83-99 | a collection of two well-formed notes loads back unchanged |
| Scenarios.PairListed | storage/StorageService.js:160-171 | `getNotesByUrl` on two notes with the same url returns exactly those two |
| Scenarios.GetPairNewestFirst | storage/StorageService.js:160-171 | two notes with the same url come back from `getNotesByUrl` newer first |
| Scenarios.SwappedKeysOutliveDelete | storage/StorageService.js:90-92 | with two notes stored under each other's ids, deleting one id succeeds and `getNotesByUrl` still returns the note with that id |
| Scenarios.AllValidLoads | storage/StorageService.js:83-99 | a collection whose every entry is the stored form of one of two well-formed notes loads back unchanged |
| Scenarios.HeldIsListed | storage/StorageService.js:160-171 | a note that some loaded key holds is returned by `getNotesByUrl` for its url, whatever the key |
| Scenarios.UpdateRefused | storage/StorageService.js:187-202 | an update of an id that is not stored fails, and so does content that is only a tag |
| Scenarios.PlainKept | storage/StorageService.js:26-33 | text without `<` and without white space at either end passes the sanitizer unchanged |
| Scenarios.CreateStoresSanitized | storage/StorageService.js:108-134 | creating a note from content "  <b>Hi</b> there  ", url "https://e.com/x" and title "T" succeeds and stores the content "Hi there" with url and title as given |
| Scenarios.SanitizeExampleInputs | storage/StorageService.js:111-113 | the three inputs of that example sanitize to "Hi there", the url itself and the title itself |
| Scenarios.ExampleUrlKept | storage/StorageService.js:112 | the url "https://e.com/x" passes the sanitizer unchanged |
| Scenarios.ExampleTitleKept | storage/StorageService.js:113 | the title "T" passes the sanitizer unchanged |
| Scenarios.TwoOrders | storage/StorageService.js:167 | a list holding exactly two different notes lists them in one of the two orders |
| Scenarios.TwoLettersNotBlank | storage/StorageService.js:264 | a two-character query without white space is not blank, so the query filter applies |
| Scenarios.HiNotBlank | storage/StorageService.js:264-265 | the query "hi" is not blank and is its own lower case |
| Scenarios.HiMatches | storage/StorageService.js:266-268 | the query "hi" matches a note whose content is "Hi there" |
| Scenarios.LeadingHi | storage/StorageService.js:265-267 | lower-cased text that starts with "Hi" includes the lower-cased "hi" |
| Scenarios.HiMissesBye | storage/StorageService.js:266-268 | the query "hi" matches neither the content "Bye" nor the title "T" |
| Scenarios.HiMissesLetters | storage/StorageService.js:265-268 | a query of two letters starting with "h" is included neither in the lower-cased "Bye" nor in any one-character title |
| Scenarios.FirstLetterAbsent | storage/StorageService.js:267-268 | `includes` fails when the text holds no occurrence of the query's first character |
| Scenarios.SelectOneOfTwo | storage/StorageService.js:266-269 | filtering two notes, in either order, of which only one passes keeps exactly that one |
| Scenarios.SearchHiFindsFirst | storage/StorageService.js:252-273 | searching "hi" among notes "Hi there" and "Bye" for the same url returns only the first |
| SanitizerCases.MarkupPieces | storage/StorageService.js:32 | "  <b>Hi</b> there  " is the text "  ", the tag `<b>`, "Hi", the tag `</b>` and " there  " |
| SanitizerCases.MarkupStrip | storage/StorageService.js:32 | tag removal turns "  <b>Hi</b> there  " into "  Hi there  " |
| SanitizerCases.MarkupTrimStart | storage/StorageService.js:32 | the leading spaces of "  Hi there  " are removed |
| SanitizerCases.MarkupTrimEnd | storage/StorageService.js:32 | the trailing spaces of "Hi there  " are removed |
| SanitizerCases.SanitizeStripsMarkup | storage/StorageService.js:26-33 | "  <b>Hi</b> there  " sanitizes to "Hi there" |
| SanitizerCases.ComparisonPieces | storage/StorageService.js:32 | "1 < 2 and 3 > 2" is "1 ", one tag, and " 2" |
| SanitizerCases.ComparisonStrip | storage/StorageService.js:32 | tag removal turns "1 < 2 and 3 > 2" into "1  2" |
| SanitizerCases.SanitizeEatsComparison | storage/StorageService.js:26-33 | "1 < 2 and 3 > 2" sanitizes to "1  2": the text between the comparison signs is taken for a tag |
| SanitizerCases.SanitizeKeepsUnclosedTag | storage/StorageService.js:26-33 | "a <b" is kept whole, because no `>` closes the `<` |

## Left out

- `generateUUID` (storage/StorageService.js:5-11) draws on `Math.random`. Its output is the `freshId` parameter of `CreateNote`, and the clock is the `now` parameter.
- `chrome.storage.local` reads and writes are foreign asynchronous calls. The value under the key is a parameter. A failed read or write is not modelled: it would be one more `Err` with the store unchanged.
- Races between concurrent callers that interleave read and write (last writer wins) are concurrency, outside a sequential model.
- Console warnings and error message texts are left out. Every failure is a single `Err`.
- The popup user interface (popup/popup.js) is not part of this model.
- Arrays are not represented in `Raw`. An array stored as the value under the key passes the object test of `filterValidNotes` (storage/StorageService.js:84), and `Object.entries` lists its elements under the keys "0", "1", …; so its valid elements would load as notes under those keys. That case is not modelled. An array stored as an entry value has no note properties and fails `isValidNote` like any other invalid value.
- Numbers are integers. NaN, infinities and fractional timestamps are floating-point behaviour. NaN passes the positivity checks of `isValidNote` in JavaScript; the model cannot express it.
- Text.Lower: lower-cases ASCII letters only. `toLowerCase` also folds other scripts, and some code points lengthen when lower-cased.
- Sanitizer.IsSpace lists the code points `trim` removes in current engines. Dafny strings are sequences of Unicode scalar values, while JavaScript strings are UTF-16 code units. The difference does not reach `<`, `>` or the white-space code points, which are all single code units. No normalisation is modelled.
- Notes.ReadNote shows the six note properties only. Other properties of a stored object are kept in the store by `updateNote`, but are not visible in the `Note` the model returns.
- A stored key `__proto__` is not modelled. In JavaScript, `validNotes["__proto__"] = note` sets the object's prototype rather than adding an entry.
- NoteStore.GetNotesByUrl and NoteStore.SearchNotes leave the `Object.values` enumeration order unspecified. As a result, the order among notes with equal `createdAt` is unspecified.
- NoteStore.UpdateMonotone: the new `updatedAt` is never compared with the stored times. The property holds only when the clock has not gone back, and the lemma requires that.
- NoteStore.DeleteThenGet: the property holds only when every note is stored under its own id, because loading never compares keys with ids. `Scenarios.SwappedKeysOutliveDelete` shows the failure otherwise.
- NoteStore.UpdateNote looks the id up among the loaded collection's own keys. The source's `!notes[id]` test (storage/StorageService.js:200) also passes for the names every object inherits, and for those the source succeeds; that behaviour is `Findings.UpdateAsWritten`, and the two agree on every other id (`Findings.UpdateAsWrittenAgrees`).
- NoteStore.DeleteNote looks the id up among the loaded collection's own keys. The source's `!notes[id]` test (storage/StorageService.js:231) also passes for the names every object inherits, and for those the source succeeds without removing anything; that behaviour is `Findings.DeleteAsWritten`, and the two agree on every other id (`Findings.DeleteAsWrittenAgrees`).
- Findings.UpdateAsWritten returns only the collection it persists. As written, `updateNote` with an inherited name returns the inherited member itself, and the two assignments change that shared member (for `__proto__`, the prototype of every object). That value and those side effects are not represented.

## Findings

| source | as written | input that shows it | evidently intended | confidence | as-written member | corrected member |
|---|---|---|---|---|---|---|
| storage/StorageService.js:231 | `if (!notes[id])` tests truthiness of a property read on a plain object, which also finds inherited members | `deleteNote("toString")` on an empty store succeeds, twice, and removes nothing | fail with "Note not found" unless the collection holds an entry under `id` | high; follows from JavaScript property lookup (not executed) | Findings.DeleteAsWritten, shown by Findings.DeleteInheritedNameSucceeds | NoteStore.DeleteNote, with NoteStore.DeleteTwiceFails |
| storage/StorageService.js:200 | the same truthiness test in `updateNote` | `updateNote("toString", "x")` on a store without such a note succeeds and returns a function instead of a note | fail with "Note not found" unless the collection holds an entry under `id` | high; follows from JavaScript property lookup (not executed) | Findings.UpdateAsWritten, shown by Findings.UpdateInheritedNameSucceeds | NoteStore.UpdateNote, with NoteStore.UpdateThenReload |
