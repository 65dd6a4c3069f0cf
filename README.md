# TriPathChallenge in Dafny

This project models the three exercises of the TriPathChallenge repository and proves
properties of each model.

- **Task 1: reversal that keeps special elements in place.** The input is a list of
  strings and numbers. A string is special when it contains a character outside
  `[a-zA-Z0-9]`. Every special element keeps its index. The other slots receive the
  non-special elements in reverse order (`special_reverse.dfy`).
- **Task 3: the memory-match game.** It is modelled in both of its versions:
  - the TypeScript file (`memory_game_ts.dfy`);
  - the compiled script, which has extra guards and a separate unlock step
    (`memory_game_dist.dfy`).

  Both share the card deck, the pair generator and the drawing rule
  (`memory_deck.dfy`), as well as the Fisher–Yates shuffle (`fisher_yates.dfy`).
  Cards are objects whose flags change in place, and the game state is a class.
  Each `setTimeout` continuation is an explicit step method, so interleavings can be
  stated. For example, a new game started while a comparison is still pending ends
  with a card stuck face up.
- **Task 2, saved-breed store.** The `localStorage` CRUD store of breed records is a
  class over the parsed list, with create, read, update, delete, clear and search
  (`breed_store.dfy`).
- **Task 2, CRUD page.** The page's sub-breed parser and its edit-mode flags are a
  class holding the form fields (`crud_page.dfy`).
- **Task 2, Dog CEO API helpers.** Their inputs are the already-parsed responses
  (`dog_api.dfy`).
- **Task 2, breed table component** (`dog_table.dfy`).
- **Task 2, gallery loader** of the compiled page script (`dog_gallery.dfy`).
- **Task 2, breed-name formatter.** There are four identical copies of it in the
  sources, modelled once (`breed_names.dfy`).

The string functions the code takes from JavaScript are in `text.dfy`:
- `trim`;
- ASCII `toLowerCase`;
- `includes`;
- `split`;
- `join`.

Generic list lemmas are in `seqs.dfy`, and `Option` is in `wrappers.dfy`.

The compiled JavaScript copies of the Task 2 store and CRUD page
(`Task2/dist/services/localStorageService.js`, `Task2/dist/crud.js`) say the same as their
TypeScript sources. Each is modelled once, and the table below cites the TypeScript
lines. The same holds for the page script `Task2/dist/main.js`: its own copies of the
breed-list fetch, the image fetch and the name formatter are the members that model
`Task2/API/config.ts` and `Task2/page/crud.ts`.

The two Task 3 files behave differently, so each has its own model.

Randomness and I/O are modelled as follows:
- `Math.random` becomes a supplied sequence of draws `draws[i] <= i`.
- `generateId` becomes a supplied id.
- `fetch` followed by `json()` becomes a function from URL to parsed response. `None`
  stands for an exception.

## Model

| member | source | states |
|---|---|---|
| SpecialReverse.HasNonAlphanumericIff | Task1/main.ts:4 | the regular-expression test succeeds exactly when some character of the string lies outside `[a-zA-Z0-9]` |
| SpecialReverse.ReverseArrayKeepingSpecialChars | Task1/main.ts:8-27 | the two loops (the map of special positions, then the walk with the counter `i`) compute the reference reversal; the output has the input's length, every special element keeps its index, the non-special elements read left to right are the input's in reverse order, and the output is a permutation of the input |
| SpecialReverse.SpecialPositions | Task1/main.ts:10-15 | the map holds exactly the indices of the special elements, each bound to the element there |
| SpecialReverse.WalkStep | Task1/main.ts:21-26 | the counter advances exactly at non-special slots and is always a valid index into the reversed list when it is read |
| SpecialReverse.ReverseKeepingSpecialCorrect | Task1/main.ts:13-26 | the reference reversal keeps the length, keeps every special element at its index, makes the set of special positions identical, reverses the non-special elements and is a permutation |
| SpecialReverse.ReverseKeepingSpecialPositions | Task1/main.ts:22-24 | an index holds a special element in the output exactly when it does in the input, and then the element is the same |
| SpecialReverse.ReverseKeepingSpecialMultiset | Task1/main.ts:13-26 | the output holds every element exactly as often as the input |
| SpecialReverse.ReverseKeepingSpecialInvolution | Task1/main.ts:13-26 | applying the reversal twice returns the original list |
| SpecialReverse.WorkedExample | Task1/main.ts:29-39 | the input written in the file yields exactly the expected array written there |
| FisherYates.Swap | Task3/main.ts:61 | positions `i` and `j` trade elements and every other position is unchanged |
| FisherYates.ShuffleCards | Task3/main.ts:56-65 | the countdown loop over a copy yields the reference shuffle for the given draws, with the input's length and multiset (the input list itself is a value and cannot change) |
| FisherYates.ShufflePermutes | Task3/main.ts:56-65 | every shuffle is a permutation of its input |
| FisherYates.ShuffleFromKeepsAbove | Task3/main.ts:59-62 | after the steps from `i` down, every position above `i` still holds its original element |
| FisherYates.ShuffleFromTop | Task3/main.ts:59-62 | once the countdown has passed index `i`, that index holds the element its own draw picked |
| FisherYates.ShuffleInjective | Task3/main.ts:59-62 | on a list without repeats, different draw sequences give different orders, so each sequence of draws selects its own arrangement |
| FisherYates.ShuffleMap | Task3/main.ts:56-65 | shuffling and then projecting a field equals projecting and then shuffling with the same draws |
| FisherYates.ShuffleFromDistinct | Task2/API/config.ts:57-65 | shuffling a list without repeats gives a list without repeats |
| MemoryDeck.Card.constructor | Task3/main.ts:2-7 | a new card has the given id and emoji and is neither flipped nor matched |
| MemoryDeck.EmojisDistinct | Task3/main.ts:18 | the twelve emojis are pairwise different |
| MemoryDeck.PairValuesAt | Task3/main.ts:42-47 | card `k` of a generated deck carries emoji `k / 2`, so the two cards of a pair have consecutive ids |
| MemoryDeck.PairValuesCount | Task3/main.ts:34-51 | in a deck of `m` pairs each of the first `m` emojis occurs exactly twice and every other emoji never occurs |
| MemoryDeck.GenerateCardPairs | Task3/main.ts:34-51 | `generateCardPairs(count)` returns twice as many fresh, distinct cards as `CARD_EMOJIS.slice(0, count)` has emojis (so a negative count counts from the end) with ids `0, 1, 2, …` in order, the emojis of the reference deck, and every card face down and unmatched |
| MemoryDeck.DealtValuesCount | Task3/main.ts:70-75 | after the shuffle of `initGame`, each of the first eight emojis occurs exactly twice among the sixteen cards and the other four not at all |
| MemoryGameTs.GameState.constructor | Task3/main.ts:21-26 | the initial game state is empty, unlocked, with no moves and no message |
| MemoryGameTs.GameState.InitGame | Task3/main.ts:70-81 | sixteen fresh face-down cards whose emojis and ids are the generated deck shuffled under the draws; no flipped cards, unlocked, zero moves, message cleared; the game invariant holds |
| MemoryGameTs.GameState.HandleCardClick | Task3/main.ts:169-195 | a click refused by a guard changes nothing; an accepted click flips the card and appends it; on the second flip the move counter rises by one, the board locks and the comparison of the two flipped cards is scheduled; the invariant is kept |
| MemoryGameTs.GameState.CheckCardMatch | Task3/main.ts:200-204 | locks the board and captures the first two flipped cards for the comparison |
| MemoryGameTs.GameState.ResolveMatch | Task3/main.ts:207-245 | equal emojis mark both cards matched and leave them face up, then run the win check; different emojis turn both face down; either way the flipped list empties, the board unlocks, and no matched card loses its mark |
| MemoryGameTs.GameState.CheckGameWin | Task3/main.ts:251-257 | the message shows the move count exactly when every card is matched, and is otherwise left as it was |
| MemoryGameTs.GameState.AcceptsIffFaceDownInteractive | Task3/main.ts:144-178 | in a consistent state a card takes a click exactly when it is drawn face down (`FaceOf`, the styling of `updateCardVisualState`) and is interactive |
| MemoryGameTs.RestartDuringComparison | Task3/main.ts:70-81 | a new game started while a comparison is pending: the stale comparison empties the new game's flipped list, leaving a flipped, unmatched card that is not listed, cannot be clicked and breaks the game invariant |
| MemoryGameDist.GameState.constructor | Task3/dist/main.js:5-10 | the initial game state is empty, unlocked, with no moves and no message |
| MemoryGameDist.GameState.InitGame | Task3/dist/main.js:42-61 | `PAIRS_COUNT` shuffled fresh pairs, with no flipped cards, unlocked, zero moves and the message cleared; the invariant holds |
| MemoryGameDist.GameState.HandleCardClick | Task3/dist/main.js:143-180 | each of the five guards (locked, flipped, matched, two flipped, same id) refuses the click with no change; an accepted click flips and appends the card; on the second flip the moves rise by one while the board stays unlocked, and the pre-check step is scheduled |
| MemoryGameDist.GameState.CheckCardMatch | Task3/dist/main.js:184-191 | with fewer than two flipped cards nothing happens; otherwise the board locks and the two flipped cards are captured |
| MemoryGameDist.GameState.Evaluate | Task3/dist/main.js:193-204 | matching emojis mark both cards matched (and run the win check); different ones turn both face down; the flipped list empties while the board stays locked |
| MemoryGameDist.GameState.Settle | Task3/dist/main.js:205-208 | the later step unlocks the board |
| MemoryGameDist.GameState.HandleMatch | Task3/dist/main.js:214-238 | both cards become matched and the win check runs |
| MemoryGameDist.GameState.HandleMismatch | Task3/dist/main.js:242-261 | both cards are turned face down |
| MemoryGameDist.GameState.CheckGameWin | Task3/dist/main.js:283-288 | the message shows the move count exactly when every card is matched |
| MemoryGameDist.GameState.DuplicateGuardRedundant | Task3/dist/main.js:161 | in a consistent state the same-id guard never refuses a click the face-down guard lets through |
| MemoryGameDist.GameState.AcceptsIffFaceDownInteractive | Task3/dist/main.js:127-163 | a current card takes a click exactly when it is drawn face down, is interactive and fewer than two cards are flipped |
| MemoryGameDist.GameState.WindowRefusesClicks | Task3/dist/main.js:157 | between the second flip and the lock, unmatched cards are drawn as interactive yet every click is refused |
| MemoryGameDist.StartComparison | Task3/dist/main.js:184-191 | two clicks on a fresh game followed by the pre-check leave a consistent, locked game with exactly those two cards flipped |
| MemoryGameDist.RestartDuringComparison | Task3/dist/main.js:42-61 | a new game started while a comparison is pending: the stale evaluation empties the new game's flipped list, so a card flipped in the new game stays face up, unmatched and unclickable |
| BreedStore.FindIndex | Task2/services/localStorageService.ts:76 | `-1` exactly when no record has the id; otherwise the index of the first record with it |
| BreedStore.WithoutProperties | Task2/services/localStorageService.ts:100 | the filtered list holds exactly the records with another id, in their order, and is shorter exactly when some record had the id |
| BreedStore.SearchProperties | Task2/services/localStorageService.ts:143-159 | a blank term returns every record; otherwise exactly the records whose name or a sub-breed, lower-cased, contains the trimmed lower-cased term, each as often as it is stored, in store order |
| BreedStore.Storage.constructor | Task2/services/localStorageService.ts:18-23 | a new store holds nothing under the key |
| BreedStore.Storage.CreateBreed | Task2/services/localStorageService.ts:37-53 | the stored list becomes the old list (what `getAllSavedBreeds` reads, `[]` when nothing is stored) plus the new record at its end, and the new record is returned; a fresh id is found afterwards by `readBreed` and keeps the ids unique |
| BreedStore.Storage.ReadBreed | Task2/services/localStorageService.ts:60-63 | `null` exactly when no record has the id; otherwise the first record with it |
| BreedStore.Storage.UpdateBreed | Task2/services/localStorageService.ts:71-91 | an absent id returns `null` and changes nothing; otherwise only the first matching record is replaced by `Merge` of it with the update (`{...b, ...updates}`: the id kept, each supplied field taken), which is returned; the length and id uniqueness are kept |
| BreedStore.Storage.DeleteBreed | Task2/services/localStorageService.ts:98-108 | returns whether some record had the id; if none did nothing changes, otherwise every record with the id is removed and the rest keep their order |
| BreedStore.Storage.ClearAllBreeds | Task2/services/localStorageService.ts:134-136 | the key is removed, so the list reads as empty |
| BreedStore.Storage.SearchBreeds | Task2/services/localStorageService.ts:143-159 | a blank term returns the whole list; otherwise exactly the matching records, each as often as it is stored, in store order |
| Text.Trim | Task2/services/localStorageService.ts:145 | the result is a slice of the string with only whitespace before and after it, has no whitespace at either end, and is empty exactly when the string is all whitespace |
| Text.ContainsIff | Task2/services/localStorageService.ts:152 | `includes` holds exactly when the term occurs at some index |
| Text.JoinSplit | Task2/page/crud.ts:244-247 | joining the pieces of a split with the separator gives back the string |
| Text.SplitJoin | Task2/page/crud.ts:66 | splitting a join of separator-free pieces gives back the pieces |
| CrudPage.ParseSubBreeds | Task2/page/crud.ts:64-67 | blank text gives `[]`; every parsed sub-breed is non-empty, trimmed and free of commas |
| CrudPage.ParseJoinRoundTrip | Task2/page/crud.ts:122 | the text `startEdit` writes parses back to the same list whenever every sub-breed is non-empty, trimmed and comma-free |
| CrudPage.Page.constructor | Task2/page/crud.ts:24-25 | the page starts out of edit mode with empty fields |
| CrudPage.Page.ResetForm | Task2/page/crud.ts:103-111 | editing is off, the edit id is cleared and every field is empty, so a later submit has no update target |
| CrudPage.Page.StartEdit | Task2/page/crud.ts:116-130 | editing is on with the record's id, and the fields show its id, its name and its sub-breeds joined with `", "`; a later submit updates that id unless it is empty, in which case it creates |
| CrudPage.Page.EditClicked | Task2/page/crud.ts:216-221 | clicking edit on a stored record starts editing it: the fields show its id, the first matching record's name and its sub-breeds joined with `", "`; on a record no longer stored nothing changes |
| CrudPage.Page.HandleFormSubmit | Task2/page/crud.ts:55-91 | a blank trimmed name changes neither page nor store; without an update target one record with the trimmed name and parsed sub-breeds is appended and the form is reset; with one the record is updated, and the form is reset only when the update found it |
| CrudPage.Page.SubmitCreate | Task2/page/crud.ts:83-90 | the create branch appends one record with the new id, the name and the sub-breeds to the stored list and clears the form |
| CrudPage.Page.SubmitUpdate | Task2/page/crud.ts:69-82 | the store is updated as `updateBreed` does; the form resets exactly when the update succeeded |
| CrudPage.Page.HandleDelete | Task2/page/crud.ts:135-150 | without confirmation nothing changes; otherwise the record is deleted when present, and the form resets exactly when the deleted record was the one being edited |
| BreedNames.Capitalize | Task2/main.ts:10 | the empty word stays empty; otherwise the first character is upper-cased and the rest is kept, so the length is kept |
| BreedNames.JoinCapitalized | Task2/page/crud.ts:243-248 | split, capitalise and join with a space equals the character-wise rule on the whole name |
| BreedNames.FormatBreedNameCharwise | Task2/page/crud.ts:243-248 | each `-` becomes a space, the first character and every character after a `-` are upper-cased, every other character is kept, and the length is preserved |
| BreedNames.FormatNoHyphen | Task2/main.ts:7-12 | the formatted name contains no `-` |
| BreedNames.FormatEmpty | Task2/dist/main.js:40-45 | the empty name formats to the empty string |
| BreedNames.FormatIdempotent | Task2/components/DogTable.ts:24-29 | formatting a formatted name changes nothing |
| DogApi.BreedImage | Task2/API/config.ts:13 | the image URL is the base URL, `/breed/`, the breed and `/images/random`, in that order |
| DogApi.BreedImageInjective | Task2/API/config.ts:13 | two breeds get the same image URL exactly when they are the same breed |
| DogApi.EndpointsDistinct | Task2/API/config.ts:11-13 | no image URL is the breed-list URL |
| DogApi.ObtenerTodasLasRazas | Task2/API/config.ts:28-42 | `[]` on an exception, a failed status or a non-object message (the guard `ObjectEntries`); otherwise the keys of the object, in order |
| DogApi.AllBreedsDistinct | Task2/API/config.ts:35 | the key list of every response has no repeats, since a parsed object keeps each key once |
| DogApi.SubBreedsOfAt | Task2/API/config.ts:108 | the lookup of a key finds that entry's value, with `null` read as `[]` |
| DogApi.ObtenerSubRazas | Task2/API/config.ts:100-115 | `[]` when the list response fails and when the breed is not a key |
| DogApi.ObtenerTodasLasRazasConSubRazas | Task2/API/config.ts:131-150 | `[]` on failure; otherwise one record per key in order, with the key's value or `[]` |
| DogApi.WithSubBreedsAgree | Task2/API/config.ts:136-143 | record `i` names the `i`-th breed of `obtenerTodasLasRazas`, and its sub-breeds are what `obtenerSubRazas` returns for it |
| DogApi.ObtenerImagenRaza | Task2/API/config.ts:80-93 | a successful string response for that breed's URL gives its text; an exception, a failed status or a non-string message give `''`; a non-empty result always comes from a successful string response |
| FisherYates.ShufflePrefix | Task2/API/config.ts:58-68 | a `slice(0, n)` of a shuffled list holds no element more often than the list, and has no repeats when the list has none |
| DogApi.ObtenerRazasAleatorias | Task2/API/config.ts:49-73 | `[]` for an empty list; otherwise the `slice(0, cantidad)` prefix of the shuffled list, hence `min(cantidad, n)` elements for `cantidad ≥ 0`, drawn from the list without reuse (a sub-multiset, repeat-free when the list is) |
| DogTableComponent.RowFor | Task2/components/DogTable.ts:68-101 | the row shows the formatted breed and either one formatted item per sub-breed, in order, or the placeholder exactly when there are none |
| DogTableComponent.RowHasNoHyphen | Task2/components/DogTable.ts:75-88 | no cell text of a row contains `-` |
| DogTableComponent.DogTable.constructor | Task2/components/DogTable.ts:14-17 | the table holds the data and one row per record |
| DogTableComponent.DogTable.CrearElemento | Task2/components/DogTable.ts:35-107 | the body has one row per record, in order, each built by the row rule |
| DogTableComponent.DogTable.ActualizarDatos | Task2/components/DogTable.ts:121-134 | the new data replaces the old and the table is rebuilt from it |
| DogTableComponent.DogTable.ObtenerDatos | Task2/components/DogTable.ts:140-142 | a fresh array, element-wise equal to the data |
| DogTableComponent.UpdateThenRead | Task2/components/DogTable.ts:121-142 | after `actualizarDatos(d)`, `obtenerDatos()` returns the elements of `d` |
| DogGallery.GalleryCardsOrder | Task2/dist/main.js:76-87 | the cards keep list order, each has a non-empty image and belongs to one of the breeds, and there is one card per breed exactly when every image came back |
| DogGallery.GalleryStep | Task2/dist/main.js:77-87 | one turn of the loop adds the breed's card (formatted name and image URL, `CardFor`) exactly when its image URL is non-empty |
| DogGallery.CargarRazasDePerros | Task2/dist/main.js:49-89 | the error message shows exactly when the breed list is empty; otherwise the cards are those of the first `min(20, n)` breeds that have an image, in list order, so there are at most `min(20, n)` |

## Left out

- DOM building and styling are not modelled, nor are toasts, alerts, scrolling and animation classes. This covers `renderCards`, `createCardElement`, `createBreedCard`, `showMessage`, `disableAllCards` and `enableAvailableCards`. Of `updateCardVisualState` only the drawn face (`FaceOf`) and the interactivity rule (`Interactive`) are kept.
- The delays of `setTimeout` are not modelled. Each continuation is an explicit step method, and which step runs when is up to the caller. The 100 ms `enableAvailableCards` call and the 500 ms class removals only touch the DOM.
- `Math.random` and `Date.now` are replaced by parameters: the shuffles take a sequence of draws and `createBreed` takes the new id.
- The network is not modelled as I/O. It becomes a function from URL to parsed response, so two requests for the same URL see the same answer.
- The `async`/`await` ordering is not modelled.
- `JSON.parse`, `JSON.stringify` and `localStorage` I/O are not modelled; the store holds the parsed list. The quota exception of `saveAllBreeds` is left out.
- A JSON value in storage that is not a list of records is left out.
- Case mapping covers ASCII letters only, because full Unicode case mapping is a library behaviour. The regular expression `/[^a-zA-Z0-9]/` becomes a character-class predicate.
- DogApi.ObtenerSubRazas: an entry value is either a list of strings or `null`. JSON values such as `0`, `""` or `false`, which `|| []` also turns into `[]`, and any other non-list value, which `|| []` passes through unchanged, are not modelled.
- DogApi.ObtenerTodasLasRazasConSubRazas: the same restriction of entry values to lists and `null` applies to its `subBreeds || []`.
- DogApi.ObtenerSubRazas: inherited object keys such as `constructor`, which `razas[raza]` would also find, are not modelled.
- DogApi: a `null` message, where `typeof` also gives `object`, is treated like any other wrong type. Both end in the empty result.
- BreedStore.Merge: the model takes `updates` with only `breed` and `subBreeds`, which is what the page passes. An `updates` object that sets a field to `undefined` is not modelled.
- DogTableComponent.DogTable: the table holds its data by value. The source keeps the caller's array itself (`this.data = data`) and `obtenerDatos` returns a shallow copy, so a caller's later writes to that array, or to a field of a returned record, change the table's data without rebuilding its element. That sharing is not modelled.
- The header row, CSS classes and ARIA attributes of the table are left out. So is `getElement`, and so is the replacement of the old element in its parent.
- `Task2/components/DogCard.ts` and `Task2/dist/components/DogCard.js` are not part of this model; their only logic is another copy of the formatter. Neither are `Task2/search.ts`, which is DOM glue, or `Task2/dist/API/config.js`, which holds constants only.
- The loader of `Task2/main.ts` (lines 18-76) is not modelled. It starts the image requests in parallel and appends each card when its request finishes, so the card order depends on network timing. Only its formatter is modelled.
- The game code has no timer, score, difficulty level or cancellation of a pending comparison, and the model adds none.
- `formElement.reset()` is modelled as restoring the empty text fields the form starts with.
- `confirm` becomes a boolean parameter of `HandleDelete`.
