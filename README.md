# Student record store, in Dafny

This project models the record store at the heart of `studentrecord.py`. That
program is a Tkinter application that keeps student records (roll number, name,
GPA) in two structures:

- a singly linked list of nodes (`LinkedList`);
- a dictionary `hash_map` from normalised roll to node.

It saves the records to a JSON file after every change. The model keeps the
data structures and the handler logic and drops the window.

- `text.dfy` (module `Text`): `str.strip()` and `str.upper()`/`str.lower()` over
  ASCII, `normalize_roll`, and Python's code-point order on strings.
- `records.dfy` (module `Records`): the `Student` record, `to_dict`/`from_dict`,
  and the dictionary arrays that the JSON file holds. Loading what was saved
  gives back the same records.
- `linked_list.dfy` (module `LinkedLists`): `Node` and `LinkedList` as classes.
  - The ghost sequences `nodes` and `students` follow the chain from `head`.
  - `append`, `to_list`, `rebuild_from_list`, `remove_by_roll` and
    `find_node_by_roll` are loop methods, each proved against those sequences.
- `quicksort.dfy` (module `Quicksort`): `quicksort_students` on an array, with
  the middle pivot, the two inward pointers and the two recursive calls of
  `_quicksort`. It is proved to sort by the key and to rearrange the records.
- `roll_index.dfy` (module `RollIndex`): what `rebuild_hash_map` computes, as a
  function `IndexFor` of the nodes and their keys. Keys are written in list
  order, so a later node overwrites an earlier one with the same key. The
  lemmas say how that index changes when a record is appended, rekeyed or
  removed.
- `store_spec.dfy` (module `StoreSpec`): each handler as a function from the
  records before to the reported outcome and the records after.
  - `validate_inputs` becomes `ValidateInputs`.
  - `add_student`, `update_student` and `delete_student` become `AddStep`,
    `UpdateStep` and `DeleteStep`.
  - The lemmas prove that each handler keeps normalised rolls unique, and that
    sorting by GPA and reversing puts the highest GPA first.
- `store.dfy` (module `RecordStore`): the `Store` class, holding the list and the
  index the way `StudentApp` does. Each handler is a method.
  - Its contract ties the reported result and the new records to the
    `StoreSpec` function.
  - Each handler keeps `Valid()`: the index is exactly what rebuilding it from
    the list gives.
  - When rolls are unique, the `pop` and item assignment that `update_student`
    and `delete_student` do on `hash_map` give the same map as that rebuild.

Widget reads become parameters:

- the entry texts;
- the GPA entry, already classified as blank, not a number, or a number;
- the roll of the selected row, for update;
- the answer to the delete confirmation.

Every handler that changes the records ends by rebuilding `hash_map`.

- `add_student`, `update_student` and `delete_student` do it through
  `persist_and_refresh`, which also saves the records and redraws the table.
- `sort_and_refresh` calls `rebuild_hash_map` and `save_students_to_file`
  itself.

The model keeps only the rebuild.

Two behaviours of the code are kept as they are.

- Records loaded from the file are not checked, so two of them can share a
  normalised roll. The index then holds the last of them. Unique rolls are
  therefore a property that every handler preserves, not an invariant of the
  store.
- `delete_student` removes the first record whose roll equals, character for
  character, the roll of the record the index holds (the last record with the
  key). When two loaded records have the same exact roll, the record removed
  is the first of them, not the indexed one. `DeleteStep` states this as
  written. The handler reports only the normalised key, and so does the model.
  With unique rolls, `DeleteStepRemoves` proves that the one record with that
  key is removed.
- `quicksort_students` is not stable. Both scans of `_quicksort` stop on a key
  equal to the pivot, and the two records are then swapped. Sorted by name,
  `[x/Ann, y/Ann]` becomes `[y/Ann, x/Ann]`, and a second sort turns it back.
  A repeated sort by name, or by GPA or roll where keys repeat, is therefore
  not idempotent. `Store.Sort` promises a sorted rearrangement, which fixes
  the order only up to records with equal keys. Where no two records share a
  key the order is fixed (`SortedUnique`), so a repeated sort by roll on
  records with unique rolls keeps the order (`RollSortDetermined`).

## Model

| member | source | states |
|---|---|---|
| Records.ToDict | studentrecord.py:33-34 | the dictionary has exactly the keys "roll", "name" and "gpa" |
| Records.FromDict | studentrecord.py:36-38 | succeeds exactly when the three keys are present with values of the right kind; the result's own dictionary agrees with the input on those keys; a missing "roll" is reported first |
| Records.DictRoundTrip | studentrecord.py:33-38 | from_dict undoes to_dict |
| Records.SaveRecords | studentrecord.py:162-169 | the saved array has one dictionary per record, in list order, each the record's to_dict |
| Records.LoadRecords | studentrecord.py:145-153 | loading succeeds exactly when from_dict succeeds on every element, and then the i-th record is from_dict of the i-th element |
| Records.SaveLoadRoundTrip | studentrecord.py:145-169 | loading the saved array gives back the same records in the same order |
| Records.LoadStudents | studentrecord.py:145-159 | a missing or unreadable file, or any record that fails to load, gives the empty list; otherwise the loaded records |
| Records.SaveThenLoad | studentrecord.py:145-169 | what save_students_to_file writes, load_students_from_file reads back |
| Text.TrimStart | studentrecord.py:183 | the result is a suffix of the input, everything dropped is whitespace, and the result does not start with whitespace |
| Text.TrimEnd | studentrecord.py:183 | the result is a prefix of the input, everything dropped is whitespace, and the result does not end with whitespace |
| Text.Strip | studentrecord.py:183 | the result is a slice of the input with only whitespace outside it; it neither starts nor ends with whitespace, and is empty exactly when the input is all whitespace |
| Text.Upper | studentrecord.py:183 | same length, every character upper-cased |
| Text.Lower | studentrecord.py:478 | same length, every character lower-cased |
| Text.NormalizeRoll | studentrecord.py:181-183 | the key has no lower-case ASCII letter and no surrounding whitespace, and is empty exactly when the roll is all whitespace |
| Text.NormalizeRollSlice | studentrecord.py:181-183 | the key is the roll's slice between its leading and trailing whitespace, each character upper-cased |
| Text.StripTrimmed | studentrecord.py:183 | a string without surrounding whitespace is its own strip |
| Text.NormalFormFixed | studentrecord.py:181-183 | a key with no lower-case letter and no surrounding whitespace normalises to itself |
| Text.NormalizeIdempotent | studentrecord.py:181-183 | normalising twice is normalising once, so a stored normalised roll is its own index key |
| Text.NormalizeStripped | studentrecord.py:383-387 | stripping before normalising, as delete_student and search_student do, changes nothing |
| Text.UpperKeeps | studentrecord.py:183 | upper-casing a string with no lower-case letter leaves it unchanged |
| Text.TextLessAsymmetric | studentrecord.py:121-124 | Python's `<` on strings is asymmetric |
| Text.TextLessTransitive | studentrecord.py:121-124 | Python's `<` on strings is transitive |
| Text.TextLessTotal | studentrecord.py:121-124 | any two strings are equal or ordered one way or the other |
| LinkedLists.FirstRoll | studentrecord.py:86-87 | the position of the first record whose roll equals the given one exactly: none before it matches, and it matches unless it is the end |
| LinkedLists.Node.constructor | studentrecord.py:43-45 | a new node holds the record and has no successor |
| LinkedLists.LinkedList.constructor | studentrecord.py:50-52 | a new list is empty and well formed |
| LinkedLists.LinkedList.Append | studentrecord.py:54-64 | the records gain s at the end and keep the earlier ones; the new node is fresh and last; size grows by one and equals the number of records |
| LinkedLists.LinkedList.ToList | studentrecord.py:66-73 | the result is the records in list order |
| LinkedLists.LinkedList.RebuildFromList | studentrecord.py:75-80 | the records are exactly the given sequence, in fresh nodes, and size is its length |
| LinkedLists.LinkedList.RemoveByRoll | studentrecord.py:82-97 | removes something exactly when some record has the roll; then the first such record and its node go, the rest keep their order and size drops by one; otherwise nothing changes |
| LinkedLists.LinkedList.Unlink | studentrecord.py:88-93 | the k-th node leaves the chain and size drops by one |
| LinkedLists.LinkedList.UnlinkHead | studentrecord.py:88-90 | head moves to the second node, which drops the first record |
| LinkedLists.LinkedList.UnlinkAfter | studentrecord.py:91-92 | the predecessor skips the k-th node, which drops the k-th record and nothing else |
| LinkedLists.LinkedList.SetStudent | studentrecord.py:369-371 | the p-th record is replaced in place; the nodes and the other records stay as they were |
| LinkedLists.LinkedList.FindNodeByRoll | studentrecord.py:99-105 | null exactly when no record has the roll; otherwise the node of the first record that has it |
| Quicksort.KeyLessStrictTotal | studentrecord.py:121-124 | KeyLess, the `<` and `>` of the pointer loops, is irreflexive and total on keys of one kind |
| Quicksort.KeyLessAsymmetric | studentrecord.py:121-124 | the key order is asymmetric |
| Quicksort.KeyLeTransitive | studentrecord.py:121-124 | "not greater than" on keys is transitive |
| Quicksort.KeyLeAntisymmetric | studentrecord.py:121-124 | two keys neither of which is greater than the other are equal |
| Quicksort.SortedUnique | studentrecord.py:112-138 | two sorted rearrangements of the same records are equal when no two records share a key; where keys repeat it leaves the order of equal keys open |
| Quicksort.ScanUp | studentrecord.py:121-122 | i stops at the first key not below the pivot, with every key it passed below the pivot |
| Quicksort.ScanDown | studentrecord.py:123-124 | j stops at the first key not above the pivot, with every key it passed above the pivot |
| Quicksort.Swap | studentrecord.py:125-128 | swapping a[i] and a[j] keeps the range a rearrangement and keeps the keys on each side of the pointers bounded by the pivot |
| Quicksort.PartitionRound | studentrecord.py:120-128 | one round of the outer loop keeps the range a rearrangement and the keys left of i at most, right of j at least, the pivot |
| Quicksort.Partition | studentrecord.py:118-128 | after the loop the pointers have crossed, the range is a rearrangement, keys before i are at most the pivot and keys after j at least it |
| Quicksort.SwapPermutes | studentrecord.py:127 | a swap inside a range rearranges the range and touches nothing outside it |
| Quicksort.JoinSorted | studentrecord.py:129-133 | two sorted parts split by the pivot make one sorted range |
| Quicksort.Combine | studentrecord.py:129-133 | after both recursive calls the whole range is sorted and a rearrangement of what it was |
| Quicksort.QuicksortRange | studentrecord.py:116-133 | _quicksort(a, lo, hi) sorts a[lo..hi] by the key, as a rearrangement, and leaves the rest of the array alone |
| Quicksort.QuicksortStudents | studentrecord.py:112-138 | the array ends sorted by the key and is a rearrangement (same multiset) of what it was; arrays of length at most one are unchanged |
| RollIndex.Keys | studentrecord.py:213 | one key per record, its normalised roll |
| RollIndex.IndexFor | studentrecord.py:209-215 | the index that rebuild_hash_map builds has exactly the records' keys; IndexForHas says which node each maps to |
| RollIndex.IndexOverAt | studentrecord.py:209-215 | a key is indexed exactly when some record has it, at the position of the last record that has it |
| RollIndex.IndexForHas | studentrecord.py:209-215 | the rebuilt index has a key exactly when some record has it, and maps it to the node of the last such record |
| RollIndex.IndexForAt | studentrecord.py:209-215 | with distinct keys, each record's key maps to its own node |
| RollIndex.IndexForSnoc | studentrecord.py:332-334 | indexing one more node at the end writes its key last |
| RollIndex.IndexForStep | studentrecord.py:211-215 | one step of the walk: the index of k+1 nodes is the index of k with the k-th key written |
| RollIndex.IndexForUpdate | studentrecord.py:373-376 | with distinct keys before and after, rekeying node p drops its old key and maps the new one to that node |
| RollIndex.IndexForRemove | studentrecord.py:394-395 | with distinct keys, removing node p drops exactly its key from the index |
| RollIndex.AddKeepsDistinct | studentrecord.py:327-332 | appending a key nobody has keeps the keys distinct |
| RollIndex.UpdateKeepsDistinct | studentrecord.py:358-360 | changing a key to itself or to one nobody has keeps the keys distinct |
| RollIndex.RemoveMembers | studentrecord.py:394-395 | removing a key keeps the keys distinct, and the keys left are the others |
| StoreSpec.ValidateInputs | studentrecord.py:294-321 | succeeds exactly when the roll (if required) and the name are non-empty and the GPA is a number in [0, 4.0], and then yields the normalised roll, the stripped name and the GPA; otherwise the first failing check is reported, in the handler's order: MissingRoll, MissingName, MissingGpa for a blank GPA, GpaNotNumber, GpaOutOfRange |
| StoreSpec.ValidatedIsKeyed | studentrecord.py:294-321 | a validated record's roll is its own index key, and its GPA is in range |
| StoreSpec.AddStep | studentrecord.py:323-336 | succeeds exactly when validation passes and no record has the key; then the validated record is appended; a taken key reports DuplicateRoll; every failure leaves the records as they were |
| StoreSpec.UpdateStep | studentrecord.py:338-380 | succeeds exactly when a row is selected, validation passes, the new key is the original one or unused, and the original key is indexed; then only the last record with the original key changes, to the validated record; no selection reports NoSelection; every failure leaves the records as they were |
| StoreSpec.UpdateStepFailures | studentrecord.py:338-366 | which error a failed update reports, in the handler's order of checks: the validation error, then DuplicateRoll for a new key another record has, then NotFound for an original key no record has |
| StoreSpec.DeleteStep | studentrecord.py:382-401 | succeeds exactly when the stripped roll is non-empty, its key is indexed and the deletion is confirmed, and then reports the normalised key; a blank roll reports MissingRoll, an unknown key NotFound, a refused confirmation Cancelled; every failure leaves the records as they were |
| StoreSpec.DeleteAt | studentrecord.py:394 | deleting through index entry i reports record i's key and removes exactly one record, the first with record i's exact roll, at or before i |
| StoreSpec.DeletePosition | studentrecord.py:391-394 | a successful deletion goes through the last record with the key |
| StoreSpec.DeleteStepOutcome | studentrecord.py:391-395 | a successful deletion removes the first record with the exact roll of the indexed record, which comes no later and has the same key |
| StoreSpec.DeleteOutcome | studentrecord.py:394 | deleting through the index entry at i has that outcome |
| StoreSpec.FirstRollKey | studentrecord.py:394 | the first record with the exact roll of record i comes no later and has the same key |
| StoreSpec.DeleteTakesIndexed | studentrecord.py:394 | with unique rolls, the first record with record i's exact roll is record i |
| StoreSpec.AddStepUnique | studentrecord.py:327-334 | add_student keeps normalised rolls unique |
| StoreSpec.UpdateStepUnique | studentrecord.py:357-371 | update_student keeps normalised rolls unique |
| StoreSpec.DeleteStepUnique | studentrecord.py:382-397 | delete_student keeps normalised rolls unique |
| StoreSpec.DeleteStepRemoves | studentrecord.py:382-397 | with unique rolls, a deletion removes exactly the one record with the reported key, the length drops by one and the key is no longer used |
| StoreSpec.RemoveKeepsUnique | studentrecord.py:394 | removing one record keeps rolls unique and leaves its key unused |
| StoreSpec.IndexAfterRekey | studentrecord.py:373-376 | with unique rolls, popping the original key and inserting the new roll gives the index that the rebuild gives |
| StoreSpec.IndexAfterRemove | studentrecord.py:394-397 | with unique rolls, popping the key after the removal gives the index that the rebuild gives |
| StoreSpec.Reversed | studentrecord.py:486 | list.reverse(): same length, the i-th element from the end comes i-th |
| StoreSpec.ReversedMultiset | studentrecord.py:486 | reversing is a rearrangement |
| StoreSpec.ReversedDescending | studentrecord.py:484-486 | sorting by GPA and then reversing lists the highest GPA first |
| StoreSpec.KeyForOneKind | studentrecord.py:475-482 | the sort key is the lower-cased name for "name", the GPA as a number for "gpa" and the roll key for anything else, so one sort compares keys of one kind only |
| StoreSpec.PermutationKeepsUnique | studentrecord.py:484-490 | any rearrangement of records with unique rolls has unique rolls, so sorting keeps them unique |
| StoreSpec.RollSortDetermined | studentrecord.py:471-494 | sorting by roll is idempotent on records with unique rolls: any two sorted rearrangements of them coincide |
| RecordStore.Store.IndexMatches | studentrecord.py:209-215 | the index's keys are exactly the normalised rolls of the records, and each maps to a node of the list whose record has that key |
| RecordStore.Store.constructor | studentrecord.py:204-207 | the store starts with the loaded records and the index rebuilt from them |
| RecordStore.Store.RebuildIndex | studentrecord.py:209-215 | the index becomes the rebuild of the list; the list is untouched |
| RecordStore.Store.BuildIndex | studentrecord.py:209-215 | the walk from the head yields the index of the whole list |
| RecordStore.Store.Put | studentrecord.py:333 | one index entry written, the list untouched |
| RecordStore.Store.Pop | studentrecord.py:375 | one index entry dropped, the list untouched |
| RecordStore.Store.Add | studentrecord.py:323-336 | result and new records are AddStep's; a failure changes neither list nor index; a success appends one fresh node and the entry written for it is what the rebuild gives |
| RecordStore.Store.Update | studentrecord.py:338-380 | result and new records are UpdateStep's; the nodes stay the same; a failure leaves the index alone; with unique rolls a success moves the original key's entry to the new roll |
| RecordStore.Store.Rekey | studentrecord.py:369-376 | the p-th record takes the new values in place, and with unique rolls the index moves the original key to the new roll |
| RecordStore.Store.Delete | studentrecord.py:382-401 | result and new records are DeleteStep's; a failure changes neither list nor index; with unique rolls a success drops exactly the key from the index |
| RecordStore.Store.Take | studentrecord.py:394-397 | the confirmed deletion removes what DeleteAt says, and with unique rolls pops exactly the record's key |
| RecordStore.Store.Unindex | studentrecord.py:394-395 | remove_by_roll with the indexed record's roll always removes, and removes the first record with that roll; the key is popped |
| RecordStore.Store.Search | studentrecord.py:403-412 | finds a record exactly when the stripped roll is non-empty and some record has its key, and then returns the last record with the key; a blank roll reports MissingRoll, an unknown key NotFound |
| RecordStore.Store.Sort | studentrecord.py:471-494 | the records become a rearrangement of what they were, sorted by roll key or lower-cased name, or by descending GPA for "gpa"; the index is rebuilt, and unique rolls stay unique; a sort by roll of records with unique rolls that are already sorted leaves them as they are |

## Left out

- The Tkinter window is left out: `create_widgets`, `refresh_table`, `clear_inputs`, the row selection handlers, the highlighting loop in `search_student`, message boxes and `main`. Entry texts, the selected row's roll and the delete confirmation are parameters, and the message shown is the returned `StoreError`.
- File input and output are left out: the existence check, reading, JSON parsing, the temporary file and `os.replace`. The file is the `Stored` value, and `save_students_to_file` is only the array it would write. A failed save has no effect on the records, so it is not modelled.
- `export_csv` is left out. It is a file dialog plus CSV formatting.
- Records.FromDict: accepts only a string for "roll" and "name" and a number for "gpa". `Student.__init__` applies `str()` and `float()`, so it also accepts a number as a roll or a numeric string as a GPA. Those conversions are not modelled.
- StoreSpec.ValidateInputs: `float()` parsing of the GPA entry is abstracted. The entry arrives already classified as `Blank`, `Unparsable` or `Parsed(real)`. The range check is on reals, not on binary floating point.
- Text.NormalizeRoll: its own contract gives the key's shape only. That the key is the trimmed roll upper-cased is stated by `NormalizeRollSlice`, because a quantified contract on a function called at every handler step makes the handler proofs too costly.
- Text.IsSpace: whitespace and case mapping are ASCII only. Python's Unicode `strip()`, `upper()` and `lower()` also treat other characters.
- Quicksort.KeyLess: a key function returns strings or numbers, never both. Python would raise `TypeError` when comparing the two kinds, and the model instead fixes an arbitrary order between them.
- RecordStore.Store.Update: the "could not read selected row" error is not modelled. A selected row always has values.
- RecordStore.Store.Take: the "internal error" branch of `delete_student` is proved unreachable. `remove_by_roll` always finds the record the index holds.
- RecordStore.Store.Update and RecordStore.Store.Delete: equality of the incremental `hash_map` updates with the rebuild is proved only when rolls are unique. Otherwise the rebuild in `persist_and_refresh` decides, and `Valid()` holds either way.
- Student objects are values, so a node's record is replaced rather than its fields assigned. This is indistinguishable here, because no two nodes share a record object.
