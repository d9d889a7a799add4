# Directory browser state machine, in Dafny

This project models the record-list logic of a one-screen React directory
browser (`src/App.js`). The browser loads person records from randomuser.me.
It lets the user search them, sort them by name, and edit one record at a
time in a modal form.

The `App` component keeps this state:

- `users`: the full list.
- `filteredUsers`: the visible list.
- `searchInput`: the search text.
- `sortAscending`: the sort direction flag.
- `isEditing` and `editedUser`: the edit session.

The `EditModal` component keeps a scratch copy of the record being edited,
`editedUserData`.

Layout, one module per file:

- `seqs.dfy` (`Seqs`): `Array.prototype.filter` as `Keep`, and `reverse` as `Reverse`, with their laws.
- `text.dfy` (`Text`): JavaScript string order `LessEq`, `toLowerCase` (ASCII) as `Lower`, `includes` as `Contains`, and `split('.')[1]` as `UpToDot`.
- `sorting.dfy` (`Sorting`): lodash `_.sortBy` with a string key, as the stable sort `SortBy`.
- `records.dfy` (`Records`): the record type, the display name `NameKey` and the search text `SearchText`.
- `query.dfy` (`Query`): the search filter `Filter` of `filterUsers`.
- `edit_modal.dfy` (`EditModal`): the scratch copy, `handleInputChange`, the merge `{...user, ...editedUserData}`, and the class `Modal` holding the modal's state.
- `directory.dfy` (`Directory`): the save replacement `ReplaceByUsername`, the sort view `Ordered`, and the class `App` whose methods are the handlers.
- `scenarios.dfy` (`Scenarios`): three records taken through a search, two sort presses, a saved rename and a cancelled edit. It also has two records sharing a display name, whose sort presses do not mirror each other (`TwinsNotMirrored`).

Records are typed as follows:

- `login` is `Login(username, uuid)`.
- `picture` is `Picture(large, medium, thumbnail)`.
- `email` and `cell` are strings.
- `name` and `location` are string dictionaries, because the form writes into them by a key taken from the input's name.
- `extra` holds any other top-level string member that an edit adds, such as the merged `image`.
- A missing dictionary member renders as `"undefined"` inside a template literal, as in JavaScript (`Records.Get`).

Behaviour of the code worth knowing, which the model keeps as written:

- Saving sets the visible list to the whole updated list. It does not re-apply the search or the sort. The search text stays as it was.
- Starting an edit while another is open silently replaces it.
- Loading does not reset the sort flag or the search text.
- Saving replaces every record with the same username, not only the first one.
- The merged record keeps all of the original's members. The scratch `image` lands in a new top-level `image` member, and `picture` is left unchanged.
- Once saved, an uploaded photo is never shown again. The form previews it only while it is open (src/App.js:243-253). The card shows only `picture.large` (src/App.js:132), and reopening the editor seeds the scratch `image` from `picture.large` again (src/App.js:151). Saving that record again without choosing a new file overwrites the uploaded `image` with the portrait URL (`EditModal.SaveUnedited`).
- Two sort presses that start descending mirror each other only when display names are distinct. Records that share a name come back in the same order, not the reverse (`Scenarios.TwinsNotMirrored`).

## Model

| member | source | states |
|---|---|---|
| Records.Get | src/App.js:55 | No contract of its own. A missing dictionary member renders as `"undefined"` in a template literal; characterised through `Query.FilterSpec` and `Directory.OrderedSpec`, which use it. |
| Records.NameKey | src/App.js:65 | No contract of its own. The sort key `${first} ${last}`; characterised by `Directory.OrderedSpec`. |
| Records.SearchText | src/App.js:55 | No contract of its own. The six searched members joined by spaces; characterised by `Query.FilterSpec`. |
| Query.Matches | src/App.js:55-56 | No contract of its own. The lowered search text includes the lowered query; characterised by `Query.FilterMember` and `Query.MatchIgnoresQueryCase`. |
| Query.Filter | src/App.js:53-57 | No contract of its own. `users.filter` with the match predicate; characterised by `Query.FilterSpec`. |
| Seqs.Keep | src/App.js:54-57 | No contract of its own. `Array.prototype.filter`; characterised by `Query.FilterSpec` and `Seqs.KeepReverse`. |
| Seqs.Reverse | src/App.js:66 | No contract of its own. `Array.prototype.reverse`; characterised by `Seqs.ReverseAt` and `Seqs.ReversePermutes`. |
| Text.LessEq | src/App.js:65 | No contract of its own. String order, a proper prefix first; characterised by `Text.LessEqTotal`, `Text.LessEqTransitive` and `Text.LessEqAntisymmetric`. |
| Text.Contains | src/App.js:56 | No contract of its own. `includes`: the query occurs at some position; characterised by `Text.ContainsEmpty` and `Text.ContainsTransitive`. |
| Text.UpToDot | src/App.js:180-193 | `split('.')[1]` of a `name.`/`location.` input name: the result is a dot-free prefix of the rest, ended by a dot or by the end of the string. |
| Sorting.SortBy | src/App.js:65 | No contract of its own. `_.sortBy` by a string key; characterised by `Sorting.SortPermutes`, `Sorting.SortSorted`, `Sorting.SortStable` and `Sorting.SortedUnique`. |
| Directory.Ordered | src/App.js:65-66 | No contract of its own. The list a sort press shows for a flag; characterised by `Directory.OrderedSpec`. |
| Directory.ReplaceByUsername | src/App.js:85-87 | No contract of its own. `users.map` replacing by username; characterised by `Directory.ReplaceSpec`. |
| EditModal.ApplyInput | src/App.js:176-206 | No contract of its own. The text-input branches of `handleInputChange`; characterised by `EditModal.ApplyInputSpec`. |
| EditModal.Merge | src/App.js:211 | No contract of its own. `{ ...user, ...editedUserData }`; characterised by `EditModal.MergeSpec`. |
| Query.FilterSpec | src/App.js:53-57 | The filter result is an order-preserving subsequence of the full list. Each record occurs in it as often as in the list if its lower-cased search text contains the lower-cased query, and not at all otherwise. |
| Query.FilterMember | src/App.js:54-57 | A record is visible after filtering exactly when it is in the full list and matches the query. |
| Query.EmptyQueryKeepsAll | src/App.js:54-56 | The empty query keeps every record, in order. |
| Query.FilterIdempotent | src/App.js:53-58 | Filtering a filter result again with the same query changes nothing. |
| Query.FilterNarrowing | src/App.js:47-58 | When the new query extends the old one, filtering the old result equals filtering the full list. |
| Query.MatchIgnoresQueryCase | src/App.js:55-56 | Matching does not depend on the letter case of the query. |
| Text.Lower | src/App.js:55-56 | `toLowerCase` keeps the length and lowers each character. |
| Text.LowerChar | src/App.js:55-56 | Upper-case ASCII letters map to their lower-case letter; every other character is unchanged. |
| Text.LowerIdempotent | src/App.js:55-56 | Lowering twice is the same as lowering once. |
| Text.ContainsEmpty | src/App.js:56 | Every string includes the empty string. |
| Text.ContainsTransitive | src/App.js:56 | A string that includes `q` includes every substring of `q`. |
| Text.LessEqTotal | src/App.js:65 | Any two name keys are comparable under JavaScript string order. |
| Text.LessEqTransitive | src/App.js:65 | JavaScript string order is transitive. |
| Text.LessEqAntisymmetric | src/App.js:65 | Two keys that are each at most the other are equal. |
| Sorting.SortPermutes | src/App.js:65 | `_.sortBy` returns a permutation of its input. |
| Sorting.SortSorted | src/App.js:65 | The result of `_.sortBy` is nondecreasing by key. |
| Sorting.SortStable | src/App.js:65 | `_.sortBy` is stable: for every key, the records with that key appear in their input order. |
| Sorting.SortLength | src/App.js:65 | Sorting keeps the list's length. |
| Sorting.SortedUnique | src/App.js:65 | Two key-ordered lists that agree on the records of every key are equal, so the sort contract fixes the result. |
| Sorting.SortOfSorted | src/App.js:65 | Sorting an already ordered list leaves it unchanged. |
| Sorting.ReverseSortedDescending | src/App.js:66 | The reversal of an ordered list is nonincreasing by key. |
| Seqs.ReverseAt | src/App.js:66 | Position k of the reversed list holds the element at the mirrored position. |
| Seqs.ReversePermutes | src/App.js:66 | Reversing keeps every element with its multiplicity. |
| Seqs.KeepReverse | src/App.js:66 | The records of one key in the reversed list are those of the list, reversed. |
| Directory.OrderedSpec | src/App.js:65-66 | The sort view is a permutation of the visible list. When the flag is true it is nondecreasing by display name, and equal names keep their order. When the flag is false it is nonincreasing, and equal names appear in exactly the reverse order. |
| Directory.SecondPressMirrors | src/App.js:64-67 | After an ascending press, the next press shows exactly the reverse of its list, whatever the display names. |
| Directory.DescendingPressMirrors | src/App.js:64-67 | After a descending press, the next press shows exactly the reverse of its list when display names are distinct. |
| Directory.SortOfPermutation | src/App.js:65 | With distinct display names, every rearrangement of the visible list sorts to the same list. |
| Directory.ThirdPressRestores | src/App.js:64-67 | Starting ascending: if display names are distinct, the third press restores the first press's list. |
| Directory.ThirdPressRestoresDescending | src/App.js:64-67 | Starting descending: if display names are distinct, the third press restores the first press's list. |
| Directory.ReplaceSpec | src/App.js:85-87 | Save keeps the list's length. Each position whose username equals the updated record's holds the updated record; every other position is unchanged. |
| Directory.ReplaceKeepsUsernames | src/App.js:85-87 | Save never changes which username sits at which position. |
| Directory.ReplaceMissing | src/App.js:85-87 | Saving a record whose username matches no record leaves the list unchanged. |
| Directory.ReplaceIdempotent | src/App.js:85-87 | Saving the same record twice gives the same list as saving it once. |
| Directory.SaveEditedRecord | src/App.js:85-87 | Saving the edit of the record at position i keeps the length. Position i then holds the merged record, which has the same username and the edited name and location. Records with other usernames are untouched. |
| Directory.App.constructor | src/App.js:11-16 | Initial state: both lists empty, empty search text, ascending flag set, no edit session. The visible-within-full invariant holds. |
| Directory.App.Load | src/App.js:36-37 | Both lists become the fetched records. Nothing else changes. |
| Directory.App.FilterUsers | src/App.js:53-59 | The visible list becomes the filter of the full list, never of the visible list. The full list, flag and edit session are unchanged. The invariant is kept. |
| Directory.App.HandleSearchChange | src/App.js:47-50 | Records the search text, then filters the full list by it. |
| Directory.App.HandleSortByName | src/App.js:64-68 | The visible list becomes the sort view for the old flag, a permutation of the old visible list. The flag flips. The full list, search text and edit session are unchanged. |
| Directory.App.HandleEditClick | src/App.js:73-79 | The edit session is on for the given record, replacing any earlier one. Both lists are unchanged. |
| Directory.App.HandleSaveEdit | src/App.js:82-97 | The full list becomes the username replacement, and the visible list becomes that same whole list. The edit session ends. The search text and flag are unchanged. |
| Directory.App.HandleCancelEdit | src/App.js:100-103 | The edit session ends. Both lists, the search text and the flag are unchanged. |
| EditModal.InitScratch | src/App.js:149-155 | The scratch copy holds the record's name and location, its large portrait as `image`, its email and cell, and no other member. |
| EditModal.SetTop | src/App.js:202-206 | A top-level input sets only its own member. Name, location and every other member are unchanged. |
| EditModal.ApplyInputSpec | src/App.js:176-206 | A `name.f` input changes only `name[f]`, a `location.f` input changes only `location[f]`, and any other input changes only its own top-level member. Everything else in the scratch copy is unchanged. |
| EditModal.FieldOfInputName | src/App.js:176-201 | For the form's inputs `name.first`, `location.city` and so on, the field after the dot is the one written. |
| EditModal.MergeSpec | src/App.js:211 | The merged record keeps the record's `login`, so its username still matches, and keeps its `picture`. It takes `name` and `location` from the scratch copy. Each string member comes from the scratch copy when the scratch copy has it, and from the record otherwise; the scratch `image` becomes a top-level member. |
| EditModal.SaveUnedited | src/App.js:210-212 | Saving with no edits returns the record plus one new member, `image`, equal to its large portrait URL. |
| EditModal.Modal.constructor | src/App.js:148-155 | Opening the modal stores the record and initialises the scratch copy from it. |
| EditModal.Modal.HandleInputChange | src/App.js:158-207 | A text input applies the input's branch to the scratch copy. A file input leaves the scratch copy unchanged until the read completes. |
| EditModal.Modal.ImageLoaded | src/App.js:166-171 | When the file read completes, the data URL becomes the scratch `image`. Every other member is unchanged. |
| EditModal.Modal.HandleSave | src/App.js:210-212 | Returns the merge of the record and the scratch copy. It keeps the record's login and picture and carries the edited name and location. |
| Scenarios.SearchScenario | src/App.js:53-58 | Among Alice Smith, Bob Jones and Carol Jones, the query "jones" keeps Bob and Carol in that order. |
| Scenarios.SortScenario | src/App.js:64-67 | The first press shows Alice, Bob, Carol; the second shows Carol, Bob, Alice. |
| Scenarios.TwinsNotMirrored | src/App.js:64-67 | Two records with the same display name: a descending press then an ascending press show them in the same order, so the second list is not the reverse of the first. |
| Scenarios.RenameScenario | src/App.js:82-97 | Renaming Bob to Robert and saving keeps three records. Bob's position shows Robert Jones with username "b", and the other records are unchanged. |

## Left out

- Fetching from randomuser.me (src/App.js:24-42) is network I/O. `App.Load` models only the two state updates on success. The failure path only logs, so it is not modelled.
- Reading the chosen image file (src/App.js:161-175) is an asynchronous browser call. `Modal.HandleInputChange` leaves the scratch copy unchanged for a file input. `Modal.ImageLoaded` takes the resulting data URL as a parameter. When no file is chosen, no read starts, so `ImageLoaded` is never called.
- Rendering, the modal dialog, inline styles and CSS (src/App.js:106-142, 216-278) are UI. This includes the `login.uuid` comparison that decides which card shows the editor (src/App.js:121).
- React's batching of state updates and the handlers' closures over earlier state are not modelled. Each handler is one atomic, synchronous transition.
- `toLowerCase` is modelled on ASCII letters only; full Unicode case mapping is not.
- String comparison in `_.sortBy` is lexicographic order on characters. lodash's special ordering of `undefined`, `null`, `NaN` and symbols is not needed, because the key is always a string.
- Members of the fetched records that are not strings are not represented: `location.street`, `location.coordinates`, `location.timezone` and a numeric `postcode`. The same holds for the members of `login` other than `username` and `uuid`. No handler reads or writes them, and the spread merge would carry them over unchanged.
- EditModal.ApplyInput requires the input's name to be a `name.*` or `location.*` path, or a top-level member other than `login`, `name`, `location` and `picture`. In JavaScript such an input would replace an object member with a string, and the model's record type cannot hold that. The form has no input with such a name. The same precondition is on `Modal.HandleInputChange`.
- EditModal.Modal.HandleInputChange: inherits that precondition for text inputs.
