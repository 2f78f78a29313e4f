# SmartClipboard core, modelled in Dafny

SmartClipboard is a desktop clipboard manager. Its core keeps the clipboard
history in a SQLite store (`ClipboardDB`). The store holds:

- history rows, which can be pinned, bookmarked, tagged, annotated and grouped into collections;
- a trash with expiry;
- settings;
- temporary items.

On top of the store, an action engine (`ClipboardActionManager`) matches each
newly copied text against user-defined regex rules. It then runs the rule's
action: fetching a page title, formatting a phone number or an e-mail
address, notifying, or transforming the text. This project models:

- the store;
- the action engine;
- the tag-editing helpers of the tag dialog;
- the developer script that writes a snapshot of the signal connections of `MainWindow`.

It proves what each operation promises.

The modules:

- `Wrappers`: the `Option` type.
- `Text`: the Python string operations the core relies on.
  - `str.strip()` and `str.strip(c)`;
  - `split`, `join` and `replace`;
  - substring search (`in`, `instr`);
  - ASCII `lower`/`upper`;
  - code-point ordering, as used by `sorted` and by SQLite text comparison;
  - `str(int)` and `int(str)`.
- `TagEdit`: `add_tag` and `get_tags` of the tag dialog, as functions over the tag text.
- `History`: the tables as values, with a specification function for every query and update.
  - The history rows are a `seq<Row>` in insertion (id) order.
  - The same module holds the eviction policy of `cleanup`, the listing order, the pin-order rewrite, the tag queries, deduplication, soft delete and restore, and the collections.
- `ClipboardDatabase`: the class `ClipboardDB`.
  - Its fields are the tables and the `add_count` counter.
  - Each method updates them in place and is proved against the `History` functions.
  - Every method keeps the invariant `Valid()`: ids are ascending and below the next id the store will hand out, and `add_count` stays below the vacuum interval.
- `Actions`: the URL extractor, the action executors, the rule cache and `process`.
  - `Process` is a loop over the cache, proved equal to the specification `Processed`.
  - The class `ActionManager` holds the rule cache.
- `SignalSnapshot`: `build_snapshot`, with its three scanning loops, and the text that `main` writes.

Outside effects are inputs or recorded values:

- Storage failures are a `fault` flag.
- The clock is a parameter (`now`, `today`, `expiresAt`).
- Python's regex engine and `json.loads` are function-valued parameters:
  - `compiles` says whether a pattern compiles;
  - `matches` says whether it matches a text;
  - `decode` decodes JSON.
- The background title fetch and the Qt signals are recorded as `Effect` values:
  - `ScheduleFetch`;
  - `Emit(name, result)`.

## Behaviour of the code worth noting

- Soft delete followed by restore brings back only the content, the image and the type of a row (`soft_delete`/`restore_item`, database.py:936-973). The pin state, tags, note, bookmark and collection are reset. See `History.SoftDeleteThenRestore`.
- Deduplication in `add_item` deletes one unpinned row with the same content, of any type (database.py:205-209). Pinned copies stay, so several rows with the same content can remain.
- The listing order is `pinned DESC, pin_order ASC, id DESC` (database.py:255). `update_pin_order` may also set `pin_order` on an unpinned row, and the order key keeps that value.
- `process` goes through the rule cache in the order the rows were given to `reload_actions`. The priority ordering happens in the query that produces those rows, which is outside this model.

## Model

| member | source | states |
|---|---|---|
| Text.StripIsStrippedInfix | smartclipboard_app/ui/dialogs/tags.py:52-53 | `strip()` gives text with no whitespace at either end. The result is the infix of the input that starts after the leading whitespace, and only whitespace lies around it. |
| Text.StripOfStripped | smartclipboard_app/ui/dialogs/tags.py:52-53 | stripping text that has no surrounding whitespace returns it unchanged |
| Text.StripAfterSpaces | smartclipboard_app/ui/dialogs/tags.py:47 | a stripped piece preceded by whitespace (the blank after each ", ") strips back to that piece |
| Text.StripKeepsOut | smartclipboard_app/ui/dialogs/tags.py:47 | stripping never introduces a character that was not in the text |
| Text.StripChar | smartclipboard_core/database.py:713 | `strip(",")` leaves no comma at either end and never lengthens the text. Text without a comma is returned unchanged. |
| Text.StripCharAll | smartclipboard_core/database.py:713-715 | text made only of commas strips to the empty string |
| Text.ContainsIff | smartclipboard_core/database.py:723-726 | a substring test (`instr(...) > 0`, `LIKE %q%`) holds exactly when the needle occurs at some index |
| Text.Replace | smartclipboard_core/database.py:724 | `REPLACE` with no occurrence of the target returns the text unchanged. `Text.ReplaceLength`, `Text.ReplaceSelf` and `Text.ReplaceRemovesChar` state what a replacement does. |
| Text.ReplaceLength | smartclipboard_core/database.py:724 | the length changes by `|replacement| - |target|` for each occurrence replaced, counted left to right without overlap |
| Text.ReplaceSelf | smartclipboard_core/database.py:724 | replacing a target by itself returns the text unchanged |
| Text.ReplaceRemovesChar | smartclipboard_core/database.py:713 | after a one-character target is replaced by text without that character, the character no longer occurs (no full-width comma survives `replace("，", ",")`) |
| Text.ReplaceCharBySame | smartclipboard_core/database.py:713 | replacing one character by another is a character-by-character map of the text |
| Text.SplitOn | smartclipboard_app/ui/dialogs/tags.py:47 | `split(c)` yields at least one piece, and no piece contains `c` |
| Text.SplitOnNoSeparator | smartclipboard_app/ui/dialogs/tags.py:47 | splitting text without the separator yields just that text |
| Text.SplitOnJoin | smartclipboard_app/ui/dialogs/tags.py:47-50 | splitting pieces joined by a separator gives the pieces back, each later one behind the separator's tail |
| Text.JoinNonEmptyEnds | smartclipboard_app/ui/dialogs/tags.py:50 | a join of non-empty pieces begins with the first piece's first character and ends with the last piece's last character |
| Text.JoinSplitOn | smartclipboard_core/database.py:598-600 | joining the pieces of `split(c)` with `c` rebuilds the text |
| Text.FramedTokenMatch | smartclipboard_core/database.py:723-726 | `,q,` occurs in `,` + tokens joined by commas + `,` exactly when `q` is one of the tokens, for comma-free `q` and tokens |
| Text.Lower | smartclipboard_core/actions.py:169 | `lower()` keeps the length and leaves no capital letter. Each capital becomes its small letter, and every other character is kept. |
| Text.Upper | smartclipboard_core/actions.py:177 | `upper()` keeps the length and leaves no small letter. Each small letter becomes its capital, and every other character is kept. |
| Text.LowerOfUpper | smartclipboard_core/actions.py:172-180 | lower-casing after upper-casing gives the same text as lower-casing alone |
| Text.LowerIdempotent | smartclipboard_core/actions.py:169 | lower-casing twice is lower-casing once, and no capital letter remains |
| Text.LexLessIrreflexive | smartclipboard_core/database.py:604 | the code-point order that `sorted` and SQLite use is irreflexive |
| Text.LexLessTransitive | smartclipboard_core/database.py:604 | the code-point order is transitive |
| Text.LexLessTotal | smartclipboard_core/database.py:604 | any two distinct texts are ordered one way or the other |
| Text.NatToString | scripts/refactor_signal_snapshot.py:31 | `str(n)` of a natural number is a non-empty run of decimal digits |
| Text.DigitsValueOfNatToString | scripts/refactor_signal_snapshot.py:31 | reading back the digits of `str(n)` gives `n` |
| Text.ParseInt | smartclipboard_core/database.py:478-481 | `int(s)` succeeds only when the stripped text is non-empty. Otherwise it fails, and the failure is the `ValueError` branch. |
| Text.ParseIntOfDecimal | smartclipboard_core/database.py:478-481 | `int()` reads whitespace, an optional `+` or `-`, ASCII digits and whitespace as the signed value of the digits (`int(" +007 ") == 7`) |
| Text.ParseIntOfIntToString | smartclipboard_core/database.py:465-481 | `int(str(i)) == i` for every integer, so a stored setting reads back as the value written |
| TagEdit.Cleaned | smartclipboard_app/ui/dialogs/tags.py:47 | every tag kept by the list comprehension is non-empty, stripped and comma-free |
| TagEdit.TagList | smartclipboard_app/ui/dialogs/tags.py:46-47 | the current tag list holds only well-formed tags |
| TagEdit.WithTag | smartclipboard_app/ui/dialogs/tags.py:48-49 | appending a well-formed tag keeps every tag well-formed |
| TagEdit.AddTag | smartclipboard_app/ui/dialogs/tags.py:45-50 | `add_tag`: the current tag list, with the tag appended when it is absent, joined by ", ". Its properties are `TagEdit.AddTagList`, `TagEdit.AddTagIdempotent` and `TagEdit.AddTagIsStripped`. |
| TagEdit.GetTags | smartclipboard_app/ui/dialogs/tags.py:52-53 | the tag text has no surrounding whitespace and occurs in the edit field |
| TagEdit.GetTagsIdempotent | smartclipboard_app/ui/dialogs/tags.py:52-53 | reading the tags of text already read gives the same text |
| TagEdit.CleanedIff | smartclipboard_app/ui/dialogs/tags.py:47 | a tag is kept exactly when it is non-empty and some piece strips to it |
| TagEdit.TagListIff | smartclipboard_app/ui/dialogs/tags.py:46-47 | `t` is a current tag exactly when `t` is non-empty and some comma-separated piece of the stripped text strips to `t` |
| TagEdit.TagListOfJoin | smartclipboard_app/ui/dialogs/tags.py:46-50 | tags written as `", ".join(tags)` are read back as the same list, in the same order |
| TagEdit.AddTagList | smartclipboard_app/ui/dialogs/tags.py:45-50 | adding a tag already present changes no tag; a new tag is appended last behind the kept list; either way the tag is present afterwards |
| TagEdit.AddTagIdempotent | smartclipboard_app/ui/dialogs/tags.py:45-50 | adding the same tag twice is adding it once |
| TagEdit.AddTagIsStripped | smartclipboard_app/ui/dialogs/tags.py:50-53 | `get_tags` right after `add_tag` returns exactly the text `add_tag` wrote |
| History.FindRow | smartclipboard_core/database.py:304-305 | a lookup by id finds a row holding that id, or reports that no row holds it |
| History.FindRowUnique | smartclipboard_core/database.py:573-575 | with ascending ids, the row found is the only row with that id |
| History.AppendKeepsIds | smartclipboard_core/database.py:211-217 | inserting at the next id keeps ids ascending and below the new next id, since AUTOINCREMENT never reuses an id |
| History.RemoveWhere | smartclipboard_core/database.py:336-356 | `DELETE ... WHERE` keeps exactly the rows not selected, in order. The number removed is the number selected. |
| History.DropOldestMembers | smartclipboard_core/database.py:496-498 | the limited delete adds no row and keeps every row it does not select |
| History.DropOldest | smartclipboard_core/database.py:496-498 | the `DELETE ... ORDER BY id ASC LIMIT n` sub-query: the `n` oldest selected rows go. It never lengthens the table, and the `DropOldest*` lemmas state the rest. |
| History.DropOldestAscending | smartclipboard_core/database.py:496-498 | the limited delete keeps the id order |
| History.DropOldestCounts | smartclipboard_core/database.py:496-498 | `DELETE ... ORDER BY id LIMIT n` removes exactly `min(n, selected)` selected rows and no other row |
| History.DropOldestRemovesOldest | smartclipboard_core/database.py:510-514 | every removed row is selected and older than every selected row that is kept |
| History.DropOldestKeepsLast | smartclipboard_core/database.py:510-514 | when fewer rows are removed than are selected, the newest row survives |
| History.ClampCap | smartclipboard_core/database.py:482 | the clamp lies in [10, 500] and is the identity inside that range |
| History.MaxHistoryFrom | smartclipboard_core/database.py:475-482 | the history cap always lies in [10, 500]. A missing or non-integer setting gives 100. |
| History.MaxHistoryOfStored | smartclipboard_core/database.py:465-482 | after `set_setting("max_history", n)` the cap is `n` clamped to [10, 500] |
| History.EvictImagesBounds | smartclipboard_core/database.py:489-499 | image eviction leaves at most 20 unpinned images. It removes no pinned row and nothing that is not an unpinned image. |
| History.EvictImages | smartclipboard_core/database.py:490-499 | the image pass of `cleanup`: when more than 20 unpinned images exist, the surplus oldest ones go |
| History.EvictUnpinned | smartclipboard_core/database.py:501-518 | the count pass of `cleanup`: when more unpinned rows than the cap exist, the surplus oldest ones go |
| History.Evicted | smartclipboard_core/database.py:484-518 | what `cleanup(cap)` leaves: the image pass, then the count pass. `History.EvictedBounds`, `History.EvictedOldestFirst` and `History.EvictedKeepsNewest` state its properties. |
| History.EvictUnpinnedBounds | smartclipboard_core/database.py:501-518 | count eviction leaves at most `cap` unpinned rows and removes no pinned row |
| History.EvictedBounds | smartclipboard_core/database.py:484-518 | after cleanup, no row is new and every pinned row is kept. At most 20 unpinned images remain, and at most `max(cap, 0)` unpinned rows. |
| History.EvictedKeepsIds | smartclipboard_core/database.py:484-518 | cleanup keeps the ids ascending and below the next id |
| History.EvictImagesOldestFirst | smartclipboard_core/database.py:494-499 | every image removed is older than every unpinned image kept |
| History.EvictUnpinnedOldestFirst | smartclipboard_core/database.py:510-514 | every row removed by the count cap is older than every unpinned row kept |
| History.EvictedOldestFirst | smartclipboard_core/database.py:490-518 | cleanup removes only unpinned rows, and only oldest first within each step |
| History.EvictedKeepsNewest | smartclipboard_core/database.py:484-518 | with a cap of at least 1, the newest row survives cleanup |
| History.Keep | smartclipboard_core/database.py:235-259 | a `WHERE` filter keeps exactly the rows that satisfy it, in id order |
| History.ListedBeforeOrder | smartclipboard_core/database.py:255 | `ORDER BY pinned DESC, pin_order ASC, id DESC` is a strict order, total on rows with distinct ids |
| History.InsertListedSorted | smartclipboard_core/database.py:255 | inserting a row into a sorted listing keeps it sorted, with exactly one more member |
| History.ListingSorted | smartclipboard_core/database.py:255-256 | the listing is sorted by the `ORDER BY` and holds exactly the given rows |
| History.Listing | smartclipboard_core/database.py:255-256 | the rows in `ORDER BY pinned DESC, pin_order ASC, id DESC` order, built by insertion |
| History.ListingUnique | smartclipboard_core/database.py:255 | two sorted listings with the same rows are equal: the order fixes the result |
| History.FilterOf | smartclipboard_core/database.py:244-253 | "전체" selects no filter, and a type filter always names one of the five stored types |
| History.Listed | smartclipboard_core/database.py:237-253 | the `WHERE` clause of `get_items`: the search text occurs in the content, and the row passes the caption's filter |
| History.Edited | smartclipboard_core/database.py:262-273 | `UPDATE ... WHERE id = ?` changes only the row with that id and keeps the row order and the ids |
| History.MaxPinOrder | smartclipboard_core/database.py:310-311 | `MAX(pin_order)` over pinned rows is absent iff no row is pinned. Otherwise it is attained by a pinned row and bounds every pinned order. |
| History.NextPinOrder | smartclipboard_core/database.py:310-311 | a newly pinned row's order is above every pinned order: 0 when none is pinned, otherwise the maximum plus one |
| History.PinOrdersAccepted | smartclipboard_core/database.py:275-299 | when `update_pin_orders` succeeds: the list is empty, or its ids are distinct and each names a pinned row, so every `UPDATE` in the loop changes exactly one row |
| History.WithPinOrders | smartclipboard_core/database.py:287-291 | the table after the loop: every row whose id is listed gets its position in the list as pin order |
| History.IndexIn | smartclipboard_core/database.py:287 | `enumerate` gives each listed id its first position |
| History.WithPinOrdersStep | smartclipboard_core/database.py:287-293 | one loop step changes only the pin order of the row with that id |
| History.PinnedListingFollowsOrder | smartclipboard_core/database.py:275-299 | after `update_pin_orders(ids)`, two pinned rows named in `ids` are listed in the order of `ids` |
| History.PinOrdersLoopStep | smartclipboard_core/database.py:287-293 | the loop's pinned check succeeds exactly for ids of pinned rows, and each step extends the rewrite by one id |
| History.WithPinOrdersOnlyOrders | smartclipboard_core/database.py:289-292 | reordering changes only the pin orders of the listed rows: the row count, the ids and every other field are kept |
| History.TagTokens | smartclipboard_core/database.py:724 | the stored tags split into at least one comma-free token |
| History.NormalizeQueryTag | smartclipboard_core/database.py:713 | the searched tag: full-width commas become commas, then whitespace and then commas are stripped from both ends |
| History.NormalizeStoredTags | smartclipboard_core/database.py:724 | the stored tags as the query rewrites them: full-width commas, `", "` and `" ,"` become plain commas |
| History.TagMatches | smartclipboard_core/database.py:722-726 | the row has non-empty tags, and `,q,` occurs in `,` + normalised tags + `,`. `History.TagMatchesToken` states what this means. |
| History.TagMatchesToken | smartclipboard_core/database.py:710-733 | a comma-free tag matches a row exactly when its tags are non-empty and the tag is one of its comma-separated tokens, not just a substring |
| History.QueryTagOfCommas | smartclipboard_core/database.py:713-715 | an empty tag, or one made only of commas, normalises to "" and so matches nothing |
| History.AllTagsIff | smartclipboard_core/database.py:592-607 | a tag is in use exactly when some row lists it |
| History.AllTags | smartclipboard_core/database.py:594-602 | the set of tags in use: the stripped non-empty pieces of every non-empty tag text |
| History.PieceTagsIff | smartclipboard_core/database.py:599-603 | the tags of a tag text are exactly its non-empty stripped comma pieces |
| History.RowTagsIff | smartclipboard_core/database.py:597-603 | a row with empty tags contributes nothing; otherwise it contributes its stripped non-empty pieces |
| History.LeastExists | smartclipboard_core/database.py:604 | a non-empty finite set of tags has a least element, so `sorted` has a first element |
| History.TypeCountsAt | smartclipboard_core/database.py:387-388 | `GROUP BY type` has an entry exactly for each type present, holding its row count |
| History.AddItemDedup | smartclipboard_core/database.py:205-217 | adding a non-image drops one row exactly when an unpinned row has the same content, and the row dropped is the oldest such row. Every pinned row and every row with other content is kept. After the insert, the unpinned rows with that content number `max(n, 1)`, where `n` is how many there were. |
| History.Deduped | smartclipboard_core/database.py:205-209 | the table before `add_item`'s insert: for a non-image, one unpinned row with the same content is removed when there is one |
| History.DedupedKeepsIds | smartclipboard_core/database.py:205-217 | deduplication and insertion keep the ids ascending and below the next id |
| History.AddImageKeepsAll | smartclipboard_core/database.py:205 | adding an image removes no row |
| History.FindTrash | smartclipboard_core/database.py:961 | a trash lookup finds the entry with that id, or reports that none has it |
| History.TrashWithout | smartclipboard_core/database.py:967 | deleting from the trash keeps exactly the entries with other ids |
| History.TrashUnexpired | smartclipboard_core/database.py:1001 | the expiry purge keeps exactly the entries that expire at or after now |
| History.TrashWithoutAppended | smartclipboard_core/database.py:936-973 | removing a freshly appended trash entry restores the previous trash |
| History.SoftDeleteThenRestore | smartclipboard_core/database.py:936-973 | after soft delete then restore, the trash is back to what it was. The restored row carries the content, image and type. Pins, tags, note, bookmark and collection are reset. |
| History.UnlinkedKeepsItems | smartclipboard_core/database.py:673-674 | deleting a collection keeps every row, its ids and every field but the collection link. No row points to the collection any more, and the number of pinned rows is unchanged. |
| History.CollectionsWithout | smartclipboard_core/database.py:674 | deleting a collection keeps exactly the other collections |
| History.CollectionUpdatedKeepsIds | smartclipboard_core/database.py:651-665 | updating a collection keeps every collection id below the next collection id |
| History.NewestFirst | smartclipboard_core/database.py:368-376 | `ORDER BY id DESC` returns exactly the given rows, newest first |
| History.PinnedGoesLast | smartclipboard_core/database.py:301-324 | a newly pinned row is pinned, and every other pinned row is listed before it |
| ClipboardDatabase.SortedTags | smartclipboard_core/database.py:604 | `sorted(set)` yields a strictly ascending sequence with exactly the set's members |
| ClipboardDatabase.ClipboardDB.constructor | smartclipboard_core/database.py:37-47 | a new store has empty tables, `add_count` 0, and is valid |
| ClipboardDatabase.ClipboardDB.AddItem | smartclipboard_core/database.py:200-228 | on failure nothing changes and the result is None. On success the new id is the next id, the history is deduplicated then extended, the counter advances, and cleanup runs every tenth add. |
| ClipboardDatabase.ClipboardDB.Cleanup | smartclipboard_core/database.py:484-527 | the history becomes the eviction result under the given or stored cap, and `add_count` wraps at the vacuum interval |
| ClipboardDatabase.ClipboardDB.AddTempItem | smartclipboard_core/database.py:1007-1020 | a temporary item is appended with its expiry and the next id. A fault stands for a failing INSERT: the result is None and nothing changes. |
| ClipboardDatabase.ClipboardDB.CleanupExpiredItems | smartclipboard_core/database.py:1022-1036 | exactly the rows expired before now are deleted, and the number returned is how many. On a storage error it returns 0 and deletes nothing. |
| ClipboardDatabase.ClipboardDB.GetItems | smartclipboard_core/database.py:230-260 | the result holds exactly the rows matching the search and the filter, sorted in listing order. It is empty on a storage error. |
| ClipboardDatabase.ClipboardDB.GetItemsByCollection | smartclipboard_core/database.py:695-707 | the result holds exactly the rows of the collection, in listing order. It is empty on a storage error. |
| ClipboardDatabase.ClipboardDB.GetItemsByTag | smartclipboard_core/database.py:710-733 | the result holds exactly the rows whose normalised tags hold the normalised tag as a comma-delimited run of tokens, in listing order. A comma-free tag must be a whole token (`History.TagMatchesToken`). It is empty for a blank tag and on a storage error. |
| ClipboardDatabase.ClipboardDB.GetBookmarkedItems | smartclipboard_core/database.py:904-912 | the result holds exactly the bookmarked rows, newest first. It is empty on a storage error. |
| ClipboardDatabase.ClipboardDB.GetAllTextContent | smartclipboard_core/database.py:368-376 | the result holds exactly the non-image rows, newest first. It is empty on a storage error. |
| ClipboardDatabase.ClipboardDB.GetContent | smartclipboard_core/database.py:358-366 | the result is absent iff no row has the id or the read fails. Otherwise it is that row's content, image and type. |
| ClipboardDatabase.ClipboardDB.GetStatistics | smartclipboard_core/database.py:378-393 | total rows, pinned rows, and a per-type count with an entry exactly for each present type. All are zero and the map is empty on a storage error. |
| ClipboardDatabase.ClipboardDB.GetTodayCount | smartclipboard_core/database.py:736-746 | the number of rows created on the given day, or 0 on a storage error |
| ClipboardDatabase.ClipboardDB.UpdatePinOrder | smartclipboard_core/database.py:262-273 | on success only that row's pin order changes; on failure nothing changes |
| ClipboardDatabase.ClipboardDB.UpdatePinOrders | smartclipboard_core/database.py:275-299 | the call succeeds iff the ids are distinct, all name pinned rows, and storage does not fail. Then the pin orders follow the list; otherwise nothing changes. |
| ClipboardDatabase.ClipboardDB.TogglePin | smartclipboard_core/database.py:301-324 | a missing row gives the missing status. Pinning gives the next pin order, unpinning clears it, and on failure nothing changes. |
| ClipboardDatabase.ClipboardDB.ToggleBookmark | smartclipboard_core/database.py:888-902 | the bookmark flag of the row flips and the new state is reported. A missing row or a failure changes nothing. |
| ClipboardDatabase.ClipboardDB.IncrementUseCount | smartclipboard_core/database.py:326-334 | only the row with that id gets its use count raised by one |
| ClipboardDatabase.ClipboardDB.DeleteItem | smartclipboard_core/database.py:336-345 | exactly the row with that id is removed |
| ClipboardDatabase.ClipboardDB.ClearAll | smartclipboard_core/database.py:347-356 | exactly the pinned rows remain |
| ClipboardDatabase.ClipboardDB.GetSetting | smartclipboard_core/database.py:454-463 | the stored value when the key is present and the read succeeds, otherwise the default |
| ClipboardDatabase.ClipboardDB.SetSetting | smartclipboard_core/database.py:465-473 | the key maps to the value and every other setting is kept |
| ClipboardDatabase.ClipboardDB.GetItemTags | smartclipboard_core/database.py:571-580 | the row's tags, or "" when no row has the id or the read fails |
| ClipboardDatabase.ClipboardDB.SetItemTags | smartclipboard_core/database.py:582-590 | only that row's tags change |
| ClipboardDatabase.ClipboardDB.GetAllTags | smartclipboard_core/database.py:592-607 | the result is strictly ascending and holds exactly the tags some row lists. It is empty on a storage error. |
| ClipboardDatabase.ClipboardDB.UpdateUrlTitle | smartclipboard_core/database.py:609-620 | on success only that row's URL title changes; on failure nothing changes |
| ClipboardDatabase.ClipboardDB.SetNote | smartclipboard_core/database.py:915-922 | only that row's note changes |
| ClipboardDatabase.ClipboardDB.GetNote | smartclipboard_core/database.py:924-933 | the row's note, or "" when no row has the id or the read fails |
| ClipboardDatabase.ClipboardDB.AddCollection | smartclipboard_core/database.py:623-638 | a new collection with the next collection id is appended. On failure nothing changes and the result is None. |
| ClipboardDatabase.ClipboardDB.UpdateCollection | smartclipboard_core/database.py:651-665 | on success only that collection's name, icon and color change |
| ClipboardDatabase.ClipboardDB.DeleteCollection | smartclipboard_core/database.py:667-680 | on success the collection is gone, its rows are unlinked, and no row is removed. On failure nothing changes. |
| ClipboardDatabase.ClipboardDB.AssignToCollection | smartclipboard_core/database.py:682-693 | on success only that row's collection changes |
| ClipboardDatabase.ClipboardDB.SoftDelete | smartclipboard_core/database.py:936-954 | a present row moves to the trash with its content, image, type and expiry. A missing row or a failure changes nothing. |
| ClipboardDatabase.ClipboardDB.RestoreItem | smartclipboard_core/database.py:956-973 | a trash entry is re-inserted under the next history id and leaves the trash. A missing entry or a failure changes nothing. |
| ClipboardDatabase.ClipboardDB.EmptyTrash | smartclipboard_core/database.py:985-993 | the trash becomes empty and nothing else changes |
| ClipboardDatabase.ClipboardDB.CleanupExpiredTrash | smartclipboard_core/database.py:995-1004 | exactly the trash entries expired before now are purged |
| Actions.RunLength | smartclipboard_core/actions.py:29 | the URL-character run starting at a position is maximal |
| Actions.FirstMatchFrom | smartclipboard_core/actions.py:29 | the search finds the first position where `https?://` and a non-empty run match, or none |
| Actions.MatchAtSound | smartclipboard_core/actions.py:29 | a match reported at a position is a maximal URL there |
| Actions.MatchAtComplete | smartclipboard_core/actions.py:29 | any URL occurring at a position is found there |
| Actions.ExtractFirstUrlNone | smartclipboard_core/actions.py:25-30 | `extract_first_url` returns None iff no URL occurs anywhere in the text |
| Actions.ExtractFirstUrlLeftmost | smartclipboard_core/actions.py:25-30 | the URL returned is the maximal match at the leftmost position where a URL occurs |
| Actions.ExtractFirstUrl | smartclipboard_core/actions.py:25-30 | `extract_first_url`: None for empty text, otherwise the leftmost match of the URL pattern. It is characterised by `Actions.ExtractFirstUrlNone` and `Actions.ExtractFirstUrlLeftmost`. |
| Actions.ParamsOf | smartclipboard_core/actions.py:81-85 | empty or undecodable parameters give the empty object |
| Actions.DigitsIff | smartclipboard_core/actions.py:158 | `re.sub(r"\D", "", text)` keeps a character exactly when it is a digit of the text |
| Actions.DigitsAppend | smartclipboard_core/actions.py:158 | the digits of two texts joined are the digits of each in turn, so the order of the digits is kept |
| Actions.FormatPhoneSpec | smartclipboard_core/actions.py:156-165 | a phone number is formatted exactly when the text holds eleven digits starting `010`, or ten digits. The result keeps the original, has dashes after the third digit and after the seventh (eleven digits) or sixth digit, and without its dashes is the digit string. |
| Actions.FormatPhone | smartclipboard_core/actions.py:156-165 | `format_phone`: the digits laid out 3-4-4 for eleven digits starting `010`, or 3-3-4 for ten digits, otherwise None. `Actions.FormatPhoneSpec` states this. |
| Actions.FormatEmailIdempotent | smartclipboard_core/actions.py:167-170 | formatting an e-mail address twice is formatting it once |
| Actions.FormatEmail | smartclipboard_core/actions.py:167-170 | `format_email`: the original text, and the text stripped and lower-cased |
| Actions.TransformText | smartclipboard_core/actions.py:172-180 | `transform_text`: strip, upper-case or lower-case by mode, and None for any other mode |
| Actions.TransformIdempotent | smartclipboard_core/actions.py:172-180 | applying `trim`, `upper` or `lower` to its own result changes nothing more |
| Actions.ExecuteAction | smartclipboard_core/actions.py:106-118 | notify and transform raise exactly on a non-object parameter value. An unknown action type returns None. |
| Actions.MalformedParamsUseDefaults | smartclipboard_core/actions.py:81-117 | parameters that fail to decode behave as the defaults |
| Actions.CompiledIff | smartclipboard_core/actions.py:49-66 | a rule enters the cache exactly when it has a non-empty pattern that compiles |
| Actions.CompiledAppend | smartclipboard_core/actions.py:49-66 | the cache keeps the order of the rows |
| Actions.Compiled | smartclipboard_core/actions.py:45-68 | the rule cache that `reload_actions` builds: the rules with a non-empty pattern that compiles, in row order, never more than the rows |
| Actions.StepOf | smartclipboard_core/actions.py:73-103 | a rule yields at most one result, only when its pattern matches, named after the rule |
| Actions.Processed | smartclipboard_core/actions.py:70-104 | what `process` produces: each cached rule's results and effects, in cache order. `Actions.ProcessedFromFiringRules` shows every output comes from a firing rule. `Actions.ProcessedCollects` shows every result a firing rule's action returns is in the output. |
| Actions.ProcessedAppend | smartclipboard_core/actions.py:73-103 | processing a cache split in two is processing each part in turn: a failing rule does not stop the rest |
| Actions.ProcessedFromFiringRules | smartclipboard_core/actions.py:73-79 | every result and effect is named after a cache rule that fires on the text, with at most one per rule |
| Actions.ProcessedCollects | smartclipboard_core/actions.py:96-99 | a rule that fires, is not `fetch_title` and whose action returns a result has that result, under its name, in the output |
| Actions.FetchTitleOutcome | smartclipboard_core/actions.py:90-95 | without a URL, a notify result is returned. With a URL and web support, a fetch is scheduled. With a URL and no web libraries, a notify effect is emitted at once and nothing is returned. |
| Actions.TitleDecision | smartclipboard_core/actions.py:144-154 | the title is stored iff both title and item id are truthy, and then the title event is emitted. Otherwise only a notify result is produced. |
| Actions.ActionManager.constructor | smartclipboard_core/actions.py:38-43 | the cache is built from the stored rules |
| Actions.ActionManager.ReloadActions | smartclipboard_core/actions.py:45-68 | the cache becomes exactly the compiled rules in row order |
| Actions.ActionManager.Process | smartclipboard_core/actions.py:70-104 | the results and effects are exactly the specification `Processed` over the cache |
| Actions.ActionManager.HandleTitleResult | smartclipboard_core/actions.py:144-154 | the store is updated iff both title and item id are truthy, and the emitted result follows `TitleDecision` |
| SignalSnapshot.ClassStartFrom | scripts/refactor_signal_snapshot.py:13-17 | the result is the first line from the position on that starts with the class header, or none |
| SignalSnapshot.GuardFrom | scripts/refactor_signal_snapshot.py:21-25 | the result is the first line after the class header, from the scan position on, that starts with the main guard. The last line is never examined. |
| SignalSnapshot.ClassEnd | scripts/refactor_signal_snapshot.py:21-25 | the class body ends between its start and the end of the file |
| SignalSnapshot.ConnectLines | scripts/refactor_signal_snapshot.py:27-31 | every collected line number lies inside the class body |
| SignalSnapshot.ConnectLinesExact | scripts/refactor_signal_snapshot.py:27-31 | a line is collected iff it lies inside the class body and holds `.connect(`, and the lines collected are strictly ascending |
| SignalSnapshot.FindClassStart | scripts/refactor_signal_snapshot.py:13-19 | the loop returns the first class-header line |
| SignalSnapshot.FindClassEnd | scripts/refactor_signal_snapshot.py:21-25 | the loop returns the line before the guard, or the line count |
| SignalSnapshot.CollectEntries | scripts/refactor_signal_snapshot.py:27-31 | the loop collects exactly the snapshot entries of the class body |
| SignalSnapshot.BuildSnapshot | scripts/refactor_signal_snapshot.py:9-32 | the method returns the specification snapshot |
| SignalSnapshot.Snapshot | scripts/refactor_signal_snapshot.py:9-32 | what `build_snapshot` returns: nothing without a class header, otherwise one `lineno:stripped` entry per `.connect(` line of the class body |
| SignalSnapshot.SnapshotText | scripts/refactor_signal_snapshot.py:44 | the text `main` writes: the entries joined by newlines, with a final newline when there are any |
| SignalSnapshot.NoClassNoSnapshot | scripts/refactor_signal_snapshot.py:18-19 | without a class header, the snapshot is empty |
| SignalSnapshot.ClassRange | scripts/refactor_signal_snapshot.py:13-25 | the class body starts at the header and ends before the guard or at the end of the file |
| SignalSnapshot.SnapshotEntries | scripts/refactor_signal_snapshot.py:27-32 | there is one entry per collected line, built from its 1-based number and stripped text |
| SignalSnapshot.EntryRoundTrip | scripts/refactor_signal_snapshot.py:31 | the number before the first ':' of an entry reads back as the line number, and the rest is the stripped line |
| SignalSnapshot.SnapshotTextShape | scripts/refactor_signal_snapshot.py:44 | the written text is empty iff there are no entries; otherwise it ends with a newline |
| SignalSnapshot.SnapshotTextRoundTrip | scripts/refactor_signal_snapshot.py:44 | for entries without a newline, splitting the written text (less its final newline) at newlines gives the entries back |
| SignalSnapshot.SnapshotFileRoundTrip | scripts/refactor_signal_snapshot.py:41-44 | for a source without embedded newlines, the written snapshot file splits back into exactly the snapshot entries |

## Left out

- SQLite itself (connections, WAL pragmas, schema creation and migration, `commit`/`rollback`) is replaced by sequences and maps held in the class fields. `VACUUM` is modelled only as the counter that triggers it.
- The `threading.RLock` around every store method is left out: the model is sequential.
- The clock is a parameter: `now`, `today` and expiry times are passed in as text. `datetime` arithmetic for the expiry window is left to the caller.
- The fetch worker, the network, `requests` and BeautifulSoup, and Qt signals are left out. A fetch is recorded as `ScheduleFetch`, and an emitted signal as `Emit`. The relative order of the returned results and the emitted effects is not kept.
- Python's `re` is replaced by the `compiles` and `matches` oracles for user rule patterns. The one fixed pattern, `https?://[^\s<>'"\]\)]+`, is modelled exactly.
- `json.loads` is replaced by the `decode` oracle. Objects hold text values only, and any other JSON value is `JOther`. So a member whose value is not text reads as missing. `{"message": 5}` gives the default notify message in the model, where the source's `params.get` returns 5. `{"mode": 5}` gives a trim in the model, where the source's `transform_text` matches no mode and returns None. `Actions.ExecuteAction` is exact only for parameters whose values are all text.
- The snippets, vault, copy rules, action CRUD, backup, `get_collections`, `get_deleted_items` and `get_top_items` parts of the store are not part of this model.
- `get_clipboard_actions`, which sorts the rules by priority, is not part of this model. Its rows are the input to `ReloadActions`.
- `move_to_collection` (database.py:875-885) runs the same update as `assign_to_collection` and is modelled by `ClipboardDatabase.ClipboardDB.AssignToCollection`.
- Queries return whole rows rather than the selected columns.
- SQL NULL tags, notes and titles are modelled as "".
- Text.Lower: ASCII case mapping only. Python's full Unicode case mapping is not modelled.
- Text.Upper: ASCII case mapping only.
- Actions.Digits: `\D` is modelled as the complement of the ASCII digits. Python treats all Unicode decimal digits as digits.
- Text.ParseInt: accepts an optional sign and ASCII digits between whitespace. Python's `int` also accepts underscores between digits and non-ASCII digits.
- ClipboardDatabase.ClipboardDB.GetItems, History.Listed: the search is a case-sensitive plain substring test. SQLite's `LIKE` is ASCII case-insensitive and treats `%` and `_` in the search text as wildcards.
- ClipboardDatabase.ClipboardDB.AddItem, History.Deduped, History.AddItemDedup: the duplicate deleted is the oldest unpinned row with the same content. The source's `SELECT` has no `ORDER BY`, so which duplicate SQLite picks is not fixed by the code.
- ClipboardDatabase.ClipboardDB.Cleanup: storage errors during cleanup are not modelled. The source logs them without rolling back a partial cleanup.
- ClipboardDatabase.ClipboardDB.DeleteItem: only the successful call is modelled. In the source, a storage error is rolled back and logged and leaves the tables unchanged. The same holds for IncrementUseCount, ClearAll, SetSetting, SetItemTags and EmptyTrash, which therefore take no fault flag.
- ClipboardDatabase.ClipboardDB.SetNote: only the successful call is modelled. On a storage error `set_note` logs it and does not roll back, so the open transaction is left to the next commit on the connection.
- ClipboardDatabase.ClipboardDB.CleanupExpiredTrash: only the successful call is modelled. On a storage error `cleanup_expired_trash` logs it and does not roll back, so the open transaction is left to the next commit on the connection.
- ClipboardDatabase.ClipboardDB.AddTempItem: a fault stands for a failing INSERT, which changes nothing. The source does not roll back, so a failure at `commit` would leave the insert in the open transaction, for the next commit to store, while the result is None. That case is not modelled.
- ClipboardDatabase.ClipboardDB.CleanupExpiredItems: a fault stands for a failing `DELETE`, which changes nothing. The source does not roll back either, so a failure at `commit` would leave the delete in the open transaction while the result is 0. That case is not modelled.
- ClipboardDatabase.ClipboardDB.constructor: models opening a new database file, so every table starts empty. Opening an existing file starts from the rows already stored, and any state satisfying `Valid()` stands for that, since every method requires only `Valid()`.
- ClipboardDatabase.ClipboardDB.SetSetting: the value is text. The `str(value)` conversion is left to the caller.
- History.PinOrdersAccepted: `len(set(ids)) == len(ids)` is modelled as the ids being pairwise distinct.
- TagEdit.AddTagList: stated for a well-formed tag (non-empty, stripped, comma-free). `add_tag` with a tag containing a comma or surrounding whitespace is not covered by these lemmas.
- TagEdit.AddTagIdempotent: stated for a well-formed tag only, as above.
- SignalSnapshot.BuildSnapshot: reading and writing the files is left out. The input is the file's lines, and the written text is the function `SnapshotText`.
