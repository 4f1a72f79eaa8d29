# A verified model of the vendored JSON library and the CRC-32

The BAC server carries a copy of cJSON with its utilities (parser, printer, minifier, linked-list tree, JSON
Pointer, JSON Patch, JSON Merge Patch), and the client library computes a table-driven CRC-32. This project
models that code in Dafny and proves what it promises. `dafny verify dfyconfig.toml` checks the whole of it.

How the model is laid out:

- **Text layer.** `Texts` says what is printed, `Layouts` how that is laid out; `Printing` is the print buffer, a
  class whose methods grow it, store into it and count offsets. `Grammar` says what every C string parses to, `OpenWindows` what happens in a
  window that has no terminator; `Parsing` is the parse buffer with its two loops per string, at work on an
  allocator that may refuse any request. `StringLiterals` holds the two passes over a string literal and the
  UTF-16 to UTF-8 conversion, `UnicodeStrings` what literals mean, `Minifying`, `MinifiedPieces` and `MinifyInPlace`
  the minifier, `TextRoundTrip` the round trip. `Numerals`, `LiteralTexts` and `JsonTexts` are a grammar of the texts
  that the parser accepts, proved to be exactly those, and `Faults` says where it gives up in the others.
- **Tree layer.** `Siblings`, `LinkedSort`, `SiblingRuns`, `Duplicating` and `HeapObjects` work on heap nodes with
  `next`, `prev` and `child`. `SiblingLinks` says what each list operation does to a list whose link from the first
  sibling to the last may be broken; `JsonTrees` has the tree as a value (`Json`, whose objects carry that link) and
  its meaning with member order forgotten (`Val`, `Abs`). `HeapObjects` proves that the heap operations do to the
  trees what the value operations say. `Sorting`, `Comparing`, `Reorderings` and `ComparingLoops` are the sort and
  the two comparisons, with what they leave of their arguments; `KeyOrders` says which objects are in key order then.
- **Patch layer.** `Pointers`, `ArrayIndices` and `BadPointers` are JSON Pointer. `Diffing` lists the edits of
  `create_patches`, `Differences` says which those are, `Edits` says what an edit means, `Patching` is `apply_patch`, `PatchGenerator` and `Documents` are the loops and the
  state they change, `PatchRoundTrip` the round trip; `Operations` has the operations that generated patches do not
  use, and `Refusals` what becomes of every patch, well aimed or not. `Limits` has the exact vocabularies, `BrokenLinks` tests inside a run of patches, and `PatchesBelow`, `WalkRuns`
  and `SortedSources` patches applied to the tree they were generated from.
- **Merge patch layer.** `MergePatching`, `MergeRoundTrip` and `MergeDocuments` are merge patches, `MergeLimits` the
  exact vocabulary, `MergeTargets` targets with broken links, `MergeOrders` what a merge leaves alone.
- **CRC.** `Crc`.

A string is a sequence of characters that stand for bytes; the terminating NUL is the end of the sequence, except
where the code handles the buffer itself. A document is *in order* when all its objects have their link from the
first member to the last, as every parsed or duplicated document has; the round trips are about documents in order,
and the places where the library itself leaves a document out of order have their own exact conditions.

Places where the code does not do what its comments or the standards say are kept as they are, and the lemmas say
exactly where that shows:

- `sort_object` does not restore the link from the first member to the last. What is appended afterwards goes to
  its place only if both ends have kept theirs; if the first member is another one the item is lost, and if only the
  last is, everything behind the old last member is lost instead (`LinkedSort.SortThenAppend`,
  `SiblingRuns.OldTailCuts`). A duplicate is in order again (`HeapObjects.SortThenAppendToDuplicate`).
- `compare_json` sorts what it compares, in the document and in the patch, so an add behind a test can be lost with
  status 0 (`BrokenLinks.TestThenAdd`, `BrokenLinks.AddBehindTestIsLost`).
- `create_patches` and `generate_merge_patch` sort their arguments, so applying what they generate to the very tree
  it was generated from can lose members (`SortedSources.SourceReachesTarget`, `MergeTargets.SourceMergesIntoTarget`).
- `decode_pointer_inplace` does not undo the escaping of every key, and `detach_path` ignores case in case-sensitive
  mode, too: `Limits.VocabularyIsExact` says for which keys the patch round trip holds.
- A merge patch cannot set a null member (`MergeRoundTrip.MergeReachesTarget`). The generator sorts under the case
  mode but walks with strcmp, and generates nested patches ignoring case: `MergeLimits.AgreeingIsExact` says for
  which keys the merge round trip holds.
- The array index decoder takes more tokens for numbers than RFC 6901 does (`ArrayIndices.IndicesReadExactly`).
- `minify_string` misreads a literal that ends in an escaped backslash (`Minifying.FormattedMinifiesToUnformatted`).
- `parse_hex4` counts a bad digit as zero: a first code unit with bad digits is accepted as U+0000, a second one is
  refused (`UnicodeStrings.BadDigitsRead`).
- In a window without terminator `parse_object` reads one byte behind it when its last byte is the comma of an object
  (`OpenWindows.OutsideEndsInComma`, `OpenWindows.BrokenOff`).
- A fixed print buffer needs one character more than the text and its terminator (`Printing.PrintPreallocated`).

## Model

| member | source | states |
|---|---|---|
| `PatchRoundTrip.PatchingReachesTarget` | BAC-Server/cJSON/cJSON_Utils.c:1038-1309 | JSON Patch round trip: for any two trees over a key vocabulary that the quirks of the code cannot touch, applying the generated patches to any document in order that equals `from` up to member order gives status 0 at every step and a document in order that equals `to` up to member order |
| `Limits.VocabularyIsExact` | BAC-Server/cJSON/cJSON_Utils.c:1038-1309 | the vocabulary is exact: the round trip holds for all trees and documents over some keys if and only if the decoder gets each key back and, in case-sensitive mode, no two keys differ only in case |
| `SortedSources.SourceReachesTarget` | BAC-Server/cJSON/cJSON_Utils.c:1141-1309 | applied to `from` itself, which generating has sorted: every patch applies and the result equals `to` if and only if every object that receives an addition has kept its first and last members in the sort, or has lost its last one before |
| `SortedSources.SteadyLosesNothing` | BAC-Server/cJSON/cJSON_Utils.c:1141-1309 | in particular it does for every tree in order whose objects all keep their first and last members when sorted, whatever the target |
| `SortedSources.AdditionToSourceIsLost` | BAC-Server/cJSON/cJSON_Utils.c:1141-1309 | for all keys a < b < c: patches from {b, a} to {b, a, c} all apply to their source with status 0, and c is nowhere |
| `SortedSources.AfterDiffReorders` | BAC-Server/cJSON/cJSON_Utils.c:1141-1279 | what generating leaves of its two arguments differs from them only in member order and links |
| `KeyOrders.PatchingSortsShared` | BAC-Server/cJSON/cJSON_Utils.c:1141-1279 | and it sorts exactly the objects that stand at the same place of both trees; what one tree has alone is as it was |
| `Limits.PlainPatchesReachTarget` | BAC-Server/cJSON/cJSON_Utils.c:1141-1279 | the round trip for all trees whose keys have no upper-case letter, `~` or `/`, in both case modes, for every document in order that equals `from` |
| `Limits.PlainKeysAreSafe` | BAC-Server/cJSON/cJSON_Utils.c:83-109 | such keys are a vocabulary on which both orders of keys agree, no two keys differ only in case, and the in-place decoder gets every key back |
| `Limits.RemovalAppliesExactly` | BAC-Server/cJSON/cJSON_Utils.c:430-481 | the generated removal of the only member of an object applies if and only if the decoder gets the key back; otherwise it fails with status 13 and leaves the document alone |
| `Limits.RemovalIgnoresCase` | BAC-Server/cJSON/cJSON_Utils.c:461-471 | for all keys a and b that differ only in case: a case-sensitive removal of b from {a, b} takes a, with status 0 |
| `Limits.CaseBreaksRoundTrip` | BAC-Server/cJSON/cJSON_Utils.c:430-481 | so for any such keys the patches from {a, b} to {a} do not lead there |
| `Diffing.DiffRuns` | BAC-Server/cJSON/cJSON_Utils.c:1141-1279 | the edit list, run at a path of any larger tree, changes the subtree there from `from` to `to` and nothing else |
| `Differences.EditsAreDifferences` | BAC-Server/cJSON/cJSON_Utils.c:1141-1279 | the edit list holds exactly the differences of the two trees: a replacement where two values differ and are not two objects or two arrays, a removal or an addition for every child that only one of two such containers has, and nothing else; in the order of the paths, and only the removals and the additions at the end of the same array share a path |
| `Differences.NoPatchForEqual` | BAC-Server/cJSON/cJSON_Utils.c:1141-1279 | no patch is generated if and only if the trees are equal up to member order |
| `PatchRoundTrip.ApplyMeans` | BAC-Server/cJSON/cJSON_Utils.c:807-1036 | one generated patch does to the document exactly what its edit means: status 0, and the new meaning is the edit of the old one |
| `Edits.LookFurther` | BAC-Server/cJSON/cJSON_Utils.c:301-346 | looking below a path is looking at the path and then at the token: the frame law that confines edits to their subtree |
| `Edits.PutLook` | BAC-Server/cJSON/cJSON_Utils.c:301-346 | what is put at a path is found there |
| `Operations.MoveMeans` | BAC-Server/cJSON/cJSON_Utils.c:905-1010 | move: the value found at "from" is taken out and added at "path" of what is left, as in section 4.4 of RFC 6902 |
| `Operations.CopyMeans` | BAC-Server/cJSON/cJSON_Utils.c:905-1010 | copy: the value found at "from" is added at "path", as in section 4.5 |
| `Operations.TestMeans` | BAC-Server/cJSON/cJSON_Utils.c:831-836 | test: status 0 exactly when the value found equals the given one up to member order; the document means the same afterwards, although its members may stand in another order |
| `BrokenLinks.TestThenAdd` | BAC-Server/cJSON/cJSON_Utils.c:831-836 | a test of the whole document followed by the add of a new member: both report status 0, and nothing is left out if and only if the first and last members of the document keep their places in sorting |
| `BrokenLinks.AddBehindTestIsLost` | BAC-Server/cJSON/cJSON_Utils.c:831-836 | for all keys a < b: on {b, a} the member added behind a successful test is lost |
| `BrokenLinks.LinkAfterSort` | BAC-Server/cJSON/cJSON_Utils.c:595-602 | where the link from the first member to the last leads after a sort, in all three cases |
| `BrokenLinks.AppendKeepsAll` | BAC-Server/cJSON/cJSON.c:1961-1992 | appending a member with a new key changes the meaning of an object as it should if and only if its link is right |
| `Operations.WholeDocumentIsNoTarget` | BAC-Server/cJSON/cJSON_Utils.c:959-980 | a move or copy to the whole document always fails, a move after it has already taken its item out |
| `Refusals.AddExactly` | BAC-Server/cJSON/cJSON_Utils.c:807-1036 | add, for every document in order over a vocabulary, every path and every value: status 0 if and only if the edit has a meaning there, and then the document means it; otherwise the document stays, and the status is 10 behind the end of an array, 11 for a token that is no index, 9 without a parent that is an object or an array |
| `Refusals.RemoveExactly` | BAC-Server/cJSON/cJSON_Utils.c:887-903 | remove: status 0 and the meaning of the edit, or status 13 and the document as it was, exactly when there is nothing at the path |
| `Refusals.ReplaceExactly` | BAC-Server/cJSON/cJSON_Utils.c:887-1010 | replace: the same |
| `Refusals.MoveExactly` | BAC-Server/cJSON/cJSON_Utils.c:905-1010 | move: status 5 and the document as it was exactly when there is nothing at "from"; otherwise the item is taken out, and adding it to what is left succeeds or is refused as an add is |
| `Refusals.CopyExactly` | BAC-Server/cJSON/cJSON_Utils.c:905-1010 | copy: status 5 exactly when there is nothing at "from"; otherwise as an add of what is there |
| `Refusals.TestExactly` | BAC-Server/cJSON/cJSON_Utils.c:831-836 | test: status 0 exactly when there is an equal value at the path, status 1 otherwise, also when nothing is there; the document means the same |
| `Refusals.ValueMissing` | BAC-Server/cJSON/cJSON_Utils.c:962-972 | without a value an add has status 7 and changes nothing; a replace has status 7 when it has already taken its target out, and 13 when there is none |
| `Refusals.WholeDocument` | BAC-Server/cJSON/cJSON_Utils.c:838-885 | the whole document is removed, or becomes a duplicate of the value; status 7 without one |
| `Refusals.PathMissing` | BAC-Server/cJSON/cJSON_Utils.c:807-829 | any item at all as a patch: status 2 without a path that is a string |
| `Refusals.OperationUnknown` | BAC-Server/cJSON/cJSON_Utils.c:742-781 | status 3 with an operation that is none of the six |
| `Refusals.SourceMissing` | BAC-Server/cJSON/cJSON_Utils.c:905-930 | status 4 for a move or a copy without "from", and 5 for a copy from an item without text |
| `Refusals.FirstFailureEnds` | BAC-Server/cJSON/cJSON_Utils.c:1038-1094 | a run ends at its first patch that does not apply, with its status and what it leaves; the patches behind it change nothing |
| `PatchGenerator.PatchArray.CreatePatches` | BAC-Server/cJSON/cJSON_Utils.c:1141-1279 | the generator appends exactly the patches of the edit list to the array, changes nothing that was there, and leaves both trees sorted where it has walked over them |
| `PatchGenerator.PatchArray.ComposePatch` | BAC-Server/cJSON/cJSON_Utils.c:1096-1134 | one patch object is appended: operation, escaped path and, where given, value |
| `Documents.Document.ApplyPatch` | BAC-Server/cJSON/cJSON_Utils.c:807-1036 | status code and resulting document for every operation, well-formed or not, also what a failing replace has already removed and what a test has sorted, in the document and in the patch |
| `Documents.Document.ApplyPatches` | BAC-Server/cJSON/cJSON_Utils.c:1038-1094 | patches apply in order up to the first one that fails, each to what the ones before have left, broken links included; status 1 when the patches are no array |
| `Documents.Document.DetachPath` | BAC-Server/cJSON/cJSON_Utils.c:430-481 | duplicate the path, find its last slash, cut it there, decode the rest in place, look the parent up and take the item out of it; or nothing changes |
| `Documents.SplitPointer` | BAC-Server/cJSON/cJSON_Utils.c:430-459 | the two halves of a path in a duplicate of it: up to the last slash, and the decoded rest |
| `Documents.DecodePointerInplace` | BAC-Server/cJSON/cJSON_Utils.c:359-390 | what the two cursors leave in the buffer |
| `Patching.DecodeUndoesEncode` | BAC-Server/cJSON/cJSON_Utils.c:359-390 | the in-place decoder undoes the escaping of a key if and only if the key has no `/` and every character other than `~` stands at its own place in the encoding |
| `BadPointers.SpellingDecoded` | BAC-Server/cJSON/cJSON_Utils.c:359-390 | what becomes of every encoded key, character by character: a `~` is written where it belongs, a slash one place behind that, and everything else is left standing |
| `BadPointers.NoEscapeDecoded` | BAC-Server/cJSON/cJSON_Utils.c:376-381 | at a `~` that is no escape the decoder stops: what is in front of it is decoded at the beginning, nothing is cut off, and what is more than one place behind stays |
| `BadPointers.BadPointersFind` | BAC-Server/cJSON/cJSON_Utils.c:301-346 | a pointer that does not begin with a slash is the whole document, and a token with a `~` that is no escape finds nothing in an object |
| `BadPointers.TokenSplits` | BAC-Server/cJSON/cJSON_Utils.c:120-154 | every token is the encoding of a key, or one in front of a `~` that is no escape |
| `Pointers.SearchThenLookup` | BAC-Server/cJSON/cJSON_Utils.c:198-346 | in a tree with byte-wise distinct keys, whatever bytes they hold, looking up the pointer that the search spells for a position finds that very position |
| `Pointers.FindPointerFromObjectTo` | BAC-Server/cJSON/cJSON_Utils.c:198-259 | the recursive search with its loop over children spells the path to the target, or finds none |
| `Pointers.GetItemFromPointer` | BAC-Server/cJSON/cJSON_Utils.c:301-346 | the lookup loop finds the item that the pointer's tokens select one after the other |
| `Pointers.MatchesEncoded` | BAC-Server/cJSON/cJSON_Utils.c:120-154 | for all keys n and m and any tail that is empty or starts with `/`: n matches the encoding of m exactly when the keys are equal under the case mode |
| `Pointers.ComparePointers` | BAC-Server/cJSON/cJSON_Utils.c:120-154 | the comparison loop decides that matching |
| `Pointers.PointerEncodedLength` | BAC-Server/cJSON/cJSON_Utils.c:157-170 | the computed length is the length of the encoding |
| `Pointers.EncodeStringAsPointer` | BAC-Server/cJSON/cJSON_Utils.c:173-196 | exactly the encoding and a NUL are written, inside the computed length |
| `Pointers.DecodeDec` | BAC-Server/cJSON/cJSON_Utils.c:274-299 | a printed index in front of the end of its token is decoded to its number |
| `ArrayIndices.IndicesReadExactly` | BAC-Server/cJSON/cJSON_Utils.c:274-299 | a token is decoded as an array-index of section 4 of RFC 6901 if and only if it is not empty, not a numeral beyond size_t, and not a digit followed by characters above `9` |
| `MergePatching.MergeMeans` | BAC-Server/cJSON/cJSON_Utils.c:1321-1379 | as maps from keys to values, merging equals the MergePatch function of section 2 of RFC 7396 for every target in order and every patch with distinct keys, and the result is in order with distinct keys |
| `MergeOrders.MergeKeepsOrder` | BAC-Server/cJSON/cJSON_Utils.c:1321-1379 | the members that a patch does not mention come first afterwards, unchanged and in their order, and behind them the members it sets, in the order of the patch |
| `MergeTargets.MergeExact` | BAC-Server/cJSON/cJSON_Utils.c:1321-1379 | for every target with distinct keys, wherever its links lead: merging equals that function if and only if at every merged member the old value survives and whatever appending cuts off is deleted, or remade the same, by the rest of the patch |
| `MergeRoundTrip.MergeReachesTarget` | BAC-Server/cJSON/cJSON_Utils.c:1391-1471 | over keys on which both orders agree, in either mode: no patch is generated only for equal trees, and merging the generated patch into a document in order that equals `from` yields `to` if and only if every null member of `to` reached through objects is a null member of `from` at the same place |
| `MergeLimits.AgreeingIsExact` | BAC-Server/cJSON/cJSON_Utils.c:1391-1471 | that vocabulary is exact, in each mode: the merge round trip holds for all trees and documents over some keys if and only if strcmp and the comparison that ignores case order them alike and identify the same ones |
| `MergeTargets.SourceMergesIntoTarget` | BAC-Server/cJSON/cJSON_Utils.c:1391-1471 | merging the generated patch into `from` itself, which generating has sorted: where a merge patch can lead to `to` at all, it does if and only if merging keeps everything |
| `MergeTargets.MergedMemberIsLost` | BAC-Server/cJSON/cJSON_Utils.c:1391-1471 | for all keys a < b < c: merging the patch from {b, a} to {b, a, c} into its source leaves c out |
| `MergeTargets.GenerateKeepsMeaning` | BAC-Server/cJSON/cJSON_Utils.c:1391-1471 | generating a merge patch changes neither the meaning of its arguments nor their vocabulary |
| `MergeLimits.PlainMergesReachTarget` | BAC-Server/cJSON/cJSON_Utils.c:1391-1471 | the merge round trip for all trees with plain keys, in both modes |
| `MergeRoundTrip.MergeDifference` | BAC-Server/cJSON/cJSON_Utils.c:1391-1471 | the same exact condition on meanings, for all pairs of different trees |
| `MergeOrders.DifferenceIsLeast` | BAC-Server/cJSON/cJSON_Utils.c:1391-1471 | the generated patch is the least: every patch that leads from one value to another, as RFC 7396 merges it, has every member of the generated one, with at least its value |
| `MergeRoundTrip.GenerateMeans` | BAC-Server/cJSON/cJSON_Utils.c:1391-1471 | the sorted walk generates the map of differences |
| `MergeLimits.CaselessMergeFails` | BAC-Server/cJSON/cJSON_Utils.c:1421-1465 | for any keys p, q that strcmp puts the other way round than the comparison ignoring case: in case-insensitive mode the patch from {q, p} to {q} deletes q |
| `MergeLimits.NestedMergeFails` | BAC-Server/cJSON/cJSON_Utils.c:1446-1452 | in case-sensitive mode it does so one level down |
| `MergeDocuments.MergeTarget.MergePatch` | BAC-Server/cJSON/cJSON_Utils.c:1321-1379 | the mutating loop leaves exactly the merged target |
| `MergeDocuments.GenerateMergePatch` | BAC-Server/cJSON/cJSON_Utils.c:1391-1471 | the walk with its two cursors generates that patch, from what comparing has left of the values, and leaves both trees sorted where it has walked over them |
| `Comparing.ComparisonsAgree` | BAC-Server/cJSON/cJSON_Utils.c:604-690 | on standard trees with distinct keys sort-and-walk and double inclusion give the same answer, and it is equality of meaning: an equivalence that ignores member order |
| `Comparing.SameLookupMeans` | BAC-Server/cJSON/cJSON.c:2996-3119 | looking every member up in the other object, both ways, decides equality of meaning |
| `ComparingLoops.CompareJson` | BAC-Server/cJSON/cJSON_Utils.c:604-690 | the loops over elements and sorted members compute that answer, and leave both trees sorted as far as they have been walked over |
| `Reorderings.AfterCompareReorders` | BAC-Server/cJSON/cJSON_Utils.c:604-690 | what a comparison leaves differs from its arguments only in member order and links |
| `KeyOrders.EqualTreesAreSorted` | BAC-Server/cJSON/cJSON_Utils.c:604-690 | two trees that compare as equal are in key order all the way down afterwards |
| `KeyOrders.ElementCompared` | BAC-Server/cJSON/cJSON_Utils.c:635-653 | an element is compared with its partner, and sorted by that, while all in front of it are equal |
| `KeyOrders.ElementsBehindStay` | BAC-Server/cJSON/cJSON_Utils.c:635-653 | behind the first elements that differ an array is as it was |
| `KeyOrders.MemberCompared` | BAC-Server/cJSON/cJSON_Utils.c:655-682 | the same for the members of two objects, in the order of the keys |
| `KeyOrders.MembersBehindStay` | BAC-Server/cJSON/cJSON_Utils.c:655-682 | behind the first values that differ an object is only sorted |
| `KeyOrders.OtherKeysStay` | BAC-Server/cJSON/cJSON_Utils.c:655-682 | from the first keys that differ on it is only sorted, too |
| `ComparingLoops.Compare` | BAC-Server/cJSON/cJSON.c:2996-3119 | so do the loops that look members up |
| `ComparingLoops.GetObjectItem` | BAC-Server/cJSON/cJSON.c:1885-1915 | the first member with the name under the case mode, or none |
| `CStrings.CmpTransitive` | BAC-Server/cJSON/cJSON.c:133-154 | the key comparison is transitive in both modes, also through equal keys |
| `CStrings.CmpZero` | BAC-Server/cJSON/cJSON.c:133-154 | keys compare equal exactly when they are the same key under the case mode |
| `CStrings.CompareStrings` | BAC-Server/cJSON/cJSON_Utils.c:83-109 | the comparison loop computes that order |
| `Sorting.SortCorrect` | BAC-Server/cJSON/cJSON_Utils.c:484-593 | the merge sort permutes its members and puts them in order |
| `Sorting.SortExactly` | BAC-Server/cJSON/cJSON_Utils.c:484-593 | what the sort returns: a list in key order that holds the members of every key in the reverse of their old order; only the returned list is one |
| `Sorting.SortKeepsMeaning` | BAC-Server/cJSON/cJSON_Utils.c:595-602 | sorting an object with distinct keys changes neither its meaning nor the distinctness of its keys |
| `LinkedSort.SortList` | BAC-Server/cJSON/cJSON_Utils.c:484-593 | on any chain of nodes the pointer sort terminates and leaves the same nodes, in the order of the sort, with every next and interior prev link right |
| `LinkedSort.SortObject` | BAC-Server/cJSON/cJSON_Utils.c:595-602 | the children in the order of the sort, and where the first one leads afterwards, whatever it led to before |
| `SiblingLinks.EndsOfOrder` | BAC-Server/cJSON/cJSON_Utils.c:595-602 | the link of a list that was in order, after its items have been put into another order: gone with the first item, right if both ends stay, otherwise to where the old last item is now |
| `LinkedSort.SortThenAppend` | BAC-Server/cJSON/cJSON_Utils.c:595-602 | an item appended to a sorted list stands behind it if and only if the first and last children have kept their places; otherwise it is lost, or the list is cut behind the old last child; the call succeeds in any case |
| `SiblingRuns.OldTailCuts` | BAC-Server/cJSON/cJSON_Utils.c:595-602 | for all children with keys a < b < c in the order a, c, b: sorting and appending leaves a, b and the item |
| `Duplicating.Duplicate` | BAC-Server/cJSON/cJSON.c:2716-2797 | the copy of a tree of any depth consists of new nodes, stands for the same tree with all its links right at every level, and owns exactly the memory that was taken; when any request for memory is refused there is no copy and the heap is as it was |
| `Duplicating.DeleteNodes` | BAC-Server/cJSON/cJSON.c:253-274 | deleting a chain of nodes frees every block of every tree in it, and each once |
| `Reorderings.RelinkedPlaces` | BAC-Server/cJSON/cJSON.c:2716-2797 | the tree of a duplicate has everything at the place it has in the original, and all its links |
| `Reorderings.PlacesDetermine` | BAC-Server/cJSON/cJSON.c:2716-2797 | no other tree has both |
| `HeapObjects.SortTree` | BAC-Server/cJSON/cJSON_Utils.c:595-602 | sorting the children of a node sorts the members of the tree it stands for, with the link the value model gives it |
| `HeapObjects.AppendTree` | BAC-Server/cJSON/cJSON.c:1961-1992 | appending a node is appending a member in the value model, whether the link is right, missing or leads to an earlier member |
| `HeapObjects.DetachTree` | BAC-Server/cJSON/cJSON.c:2192-2226 | detaching a child is taking the member out in the value model, and the child stands for its value still |
| `HeapObjects.SortThenAppendToDuplicate` | BAC-Server/cJSON/cJSON.c:2716-2797 | an item appended to a duplicate of a sorted object is there, behind the sorted members |
| `SiblingRuns.RunAll` | BAC-Server/cJSON/cJSON.c:1961-2359 | every run of append, insert, detach, replace and sort calls keeps all links between neighbours right, and is the run of the chain operations, with exactly their losses |
| `SiblingRuns.UnsortedRunsStayRight` | BAC-Server/cJSON/cJSON.c:1961-2359 | without a sort no run breaks the link from the first child to the last |
| `Siblings.Node.AddItemToArray` | BAC-Server/cJSON/cJSON.c:1961-1992 | constant-time append through the first child's prev link: appended, lost when there is none, or the list cut behind the child it leads to |
| `Siblings.Node.DetachItemViaPointer` | BAC-Server/cJSON/cJSON.c:2192-2226 | the child is out of the list, its own links are cleared, and the link from the first child leads where it should, or where it led |
| `Siblings.Node.InsertItemInArray` | BAC-Server/cJSON/cJSON.c:2268-2300 | the children are those in front of the position, the item, and those from the position on; behind the last position it is appended |
| `Siblings.Node.InsertItemWithin` | BAC-Server/cJSON/cJSON_Utils.c:693-728 | the same for the insertion of the patch code, which refuses a position behind the end and then changes nothing |
| `Siblings.Node.ReplaceItemViaPointer` | BAC-Server/cJSON/cJSON.c:2302-2349 | the replacement stands where the item stood |
| `SiblingRuns.AfterMembers` | BAC-Server/cJSON/cJSON.c:2192-2349 | exactly who is in the list after each kind of call, also on a list with a broken link |
| `SiblingLinks.InsertedPlaces` | BAC-Server/cJSON/cJSON.c:2268-2300 | where everything is after an insert: the item at its position, those in front of it where they were, those from there on one place up |
| `SiblingLinks.DetachedPlaces` | BAC-Server/cJSON/cJSON.c:2192-2226 | after a detach the others are in their old order |
| `SiblingLinks.ReplacedPlaces` | BAC-Server/cJSON/cJSON.c:2302-2349 | after a replace all other positions hold what they held |
| `SiblingLinks.AppendedPlaces` | BAC-Server/cJSON/cJSON.c:1961-1992 | after an append the item is last and the others are where they were, while the link is right |
| `Printing.PrintPreallocated` | BAC-Server/cJSON/cJSON.c:1297-1314 | printing into fixed memory never leaves it, and succeeds if and only if the tree is printable and the length is at least that of the text plus 2; then the memory holds the text and a NUL |
| `Printing.Print` | BAC-Server/cJSON/cJSON.c:1192-1254 | at any pattern of refused memory the result, if any, is exactly the text and a NUL; with no refusal there is a result if and only if the tree is printable and the text fits in INT_MAX |
| `Printing.PrintBuffered` | BAC-Server/cJSON/cJSON.c:1267-1295 | the same from any starting size |
| `Printing.PrintBuffer.PrintValue` | BAC-Server/cJSON/cJSON.c:1372-1443 | whatever the starting size and the points of reallocation, success means that exactly the text has been added, and without refusals it fails only for want of room |
| `Printing.PrintBuffer.PrintObject` | BAC-Server/cJSON/cJSON.c:1719-1830 | the same for objects, with indentation, separators and line ends |
| `Printing.PrintBuffer.Ensure` | BAC-Server/cJSON/cJSON.c:444-527 | room for the asked characters and a NUL, without losing what is accounted for; exactly when it succeeds |
| `Printing.PrintBuffer.UpdateOffset` | BAC-Server/cJSON/cJSON.c:530-540 | everything up to the NUL is accounted for |
| `Printing.PrintBuffer.PrintStringPtr` | BAC-Server/cJSON/cJSON.c:907-1026 | the counting pass and the copying pass agree: the quoted and escaped string is written |
| `Printing.CountEscapes` | BAC-Server/cJSON/cJSON.c:934-958 | the counting pass finds how much longer the escaped string is |
| `Texts.TextNoNul` | BAC-Server/cJSON/cJSON.c:1372-1830 | no printed text contains a NUL |
| `Layouts.FormattedArray` | BAC-Server/cJSON/cJSON.c:1544-1603 | the formatted text of an array at any depth: a bracket, the texts of its elements with a comma and a space between them, a bracket |
| `Layouts.UnformattedArray` | BAC-Server/cJSON/cJSON.c:1544-1603 | the unformatted text: with a comma alone |
| `Layouts.FormattedObject` | BAC-Server/cJSON/cJSON.c:1719-1830 | the formatted text of an object: a brace and a line end; for each member a line of tabs one deeper than the object, the quoted key, a colon, a tab, the value, and a comma unless it is the last; then the tabs of the object and a brace |
| `Layouts.UnformattedObject` | BAC-Server/cJSON/cJSON.c:1719-1830 | the unformatted text: quoted keys, colons and values, separated by commas alone |
| `Layouts.StringLayout` | BAC-Server/cJSON/cJSON.c:960-1026 | a string is printed between quotes, every character on its own |
| `Layouts.EscapesAre` | BAC-Server/cJSON/cJSON.c:960-1026 | which characters are escaped, the letters of the seven short escapes, and the four lower-case digits of the others |
| `Layouts.NumberLayout` | BAC-Server/cJSON/cJSON.c:550-618 | an integer is printed without plus sign and leading zeros |
| `Texts.IntegersAreRecognized` | BAC-Server/cJSON/cJSON.c:359-373 | the saturated valueint equals the number exactly for 32-bit integers |
| `TextRoundTrip.PrintedTextsParseBack` | BAC-Server/cJSON/cJSON.c:1317-1830 | print/parse round trip: every tree of null, booleans, 32-bit integers, NUL-free strings, arrays and objects is parsed back from its formatted and from its unformatted text, ending where the text ends, if and only if at most CJSON_NESTING_LIMIT of its containers are nested |
| `TextRoundTrip.ReprintedTextsParseBack` | BAC-Server/cJSON/cJSON.c:1100-1830 | whatever text a tree was parsed from, if its numbers are 32-bit integers it survives every further round of printing and parsing |
| `TextRoundTrip.TextualPrints` | BAC-Server/cJSON/cJSON.c:1372-1830 | the printer accepts every such tree |
| `TextRoundTrip.TextReads` | BAC-Server/cJSON/cJSON.c:1317-1369 | the same wherever the text stands in a window, in front of anything that does not continue a number |
| `TextRoundTrip.ParsedNesting` | BAC-Server/cJSON/cJSON.c:1446-1716 | no text at all is parsed to a tree nested deeper than the limit |
| `TextRoundTrip.QuotedReads` | BAC-Server/cJSON/cJSON.c:778-904 | a printed string is parsed back |
| `TextRoundTrip.StrtodInt` | BAC-Server/cJSON/cJSON.c:305-379 | a printed integer is read whole and at its value |
| `Grammar.ParseValue` | BAC-Server/cJSON/cJSON.c:1317-1369 | for every window whose last byte is NUL: the recursive parse terminates, every success consumes input and ends inside the window, every failure position lies within it, and the depth stays within the nesting limit |
| `Grammar.SkipWs` | BAC-Server/cJSON/cJSON.c:1043-1066 | skipping white space stops inside the window and never moves the offset back |
| `Grammar.ParseText` | BAC-Server/cJSON/cJSON.c:1100-1177 | the reported end or error position never lies behind the text; which it is `JsonTexts` and `Faults` say |
| `JsonTexts.TextsParsedExactly` | BAC-Server/cJSON/cJSON.c:1100-1716 | for every NUL-free text, tree and end: the text is parsed to that tree with that end if and only if a grammar derives it, up to there, from white space or a byte order mark and a value that means the tree; the grammar has the white space, separators, names, escapes, numbers and the nesting limit, and says nothing of how a parser would go about it |
| `JsonTexts.ParsedExactly` | BAC-Server/cJSON/cJSON.c:1317-1716 | the same for a value at any place of a window and any depth; every text without a derivation is refused |
| `Numerals.NumbersAreNumerals` | BAC-Server/cJSON/cJSON.c:305-379 | a number is the longest numeral among the first sixty-three characters, and is worth its digits in front of the point, plus those behind it as parts of ten, times its power of ten; it is refused if and only if there is none |
| `LiteralTexts.LiteralEndsExactly` | BAC-Server/cJSON/cJSON.c:791-819 | a literal ends at the first quote with an even number of backslashes directly in front of it |
| `LiteralTexts.PartsDecoded` | BAC-Server/cJSON/cJSON.c:822-882 | a literal made of characters, escapes, code units and surrogate pairs is decoded to their bytes |
| `LiteralTexts.DecodedParts` | BAC-Server/cJSON/cJSON.c:822-882 | every literal that is accepted is made of those |
| `LiteralTexts.Hex4Exactly` | BAC-Server/cJSON/cJSON.c:620-653 | which four digits, of either case, are read at which value |
| `JsonTexts.EndRequired` | BAC-Server/cJSON/cJSON.c:1131-1139 | require_null_terminated: the same tree, with the end of the text, if only white space follows it; otherwise the first other character is the error |
| `JsonTexts.PrintedWithTail` | BAC-Server/cJSON/cJSON.c:1100-1177 | a printed text in front of anything that does not continue its number: without require_null_terminated it is parsed and ends where it ends, with it if and only if only white space follows, and otherwise the error is the first other character |
| `Faults.ErrorsAreFaults` | BAC-Server/cJSON/cJSON.c:1100-1716 | a refused text has its error where, behind complete items, names and separators, something is wrong: no value begins, a name, colon, comma or closing bracket is missing, a string does not end or holds an escape that means nothing, or one list too many is open |
| `OpenWindows.OutsideEndsInComma` | BAC-Server/cJSON/cJSON.c:1638-1664 | for every window of any length: the parser reads behind it only when its last byte is a comma, so never in a C string with its terminator |
| `OpenWindows.BrokenOff` | BAC-Server/cJSON/cJSON.c:1638-1664 | and it does so for every object that is broken off behind the comma of its first member |
| `OpenWindows.CommaIsLast` | BAC-Server/cJSON/cJSON.c:1638-1664 | one such text: {"a":null, with its length |
| `Parsing.ParseWithOpts` | BAC-Server/cJSON/cJSON.c:1100-1177 | for every text and every pattern of refused memory: a failed parse leaves the heap as it was, a successful one adds exactly the blocks of its tree, no block is freed twice, and unless memory was refused the result is what the grammar says |
| `Parsing.ParseBuffer.ParseValue` | BAC-Server/cJSON/cJSON.c:1317-1369 | the same for values at any offset and depth, with the offset at which a failure is reported |
| `Parsing.ParseBuffer.ParseElements` | BAC-Server/cJSON/cJSON.c:1478-1541 | the element loop, giving back the items read so far when it fails |
| `Parsing.ParseBuffer.ParseFields` | BAC-Server/cJSON/cJSON.c:1638-1716 | the member loop, with names that are owned before their value is parsed |
| `Parsing.ParseBuffer.ParseString` | BAC-Server/cJSON/cJSON.c:778-904 | measure, allocate, decode; a refused literal gives its memory back |
| `Parsing.Delete` | BAC-Server/cJSON/cJSON.c:253-274 | deleting a list frees every block of it, and each once |
| `StringLiterals.DecodeLiteral` | BAC-Server/cJSON/cJSON.c:822-882 | for every literal, also when malformed escapes make the two passes split the backslashes differently, the second pass and its NUL stay inside what the first pass asked for |
| `StringLiterals.PieceFits` | BAC-Server/cJSON/cJSON.c:791-819 | no step of the second pass writes more than it reads less the escape pairs the first pass found there |
| `StringLiterals.MeasureLiteral` | BAC-Server/cJSON/cJSON.c:791-819 | the first pass finds the closing quote and counts the escape pairs |
| `StringLiterals.ParseHex4` | BAC-Server/cJSON/cJSON.c:620-653 | the value of four digits, or 0 when one of them is bad |
| `StringLiterals.Utf16LiteralToUtf8` | BAC-Server/cJSON/cJSON.c:657-775 | one code unit or a surrogate pair is converted to the bytes of its code point, or refused |
| `UnicodeStrings.LiteralsDecodeToUtf8` | BAC-Server/cJSON/cJSON.c:657-904 | a literal whose raw bytes are UTF-8 is accepted if and only if it denotes code points, and is then decoded to well-formed UTF-8 that reads back as exactly those, with surrogate pairs joined as in RFC 2781 |
| `UnicodeStrings.BadDigitsRead` | BAC-Server/cJSON/cJSON.c:620-713 | an escape with bad digits is read as U+0000 in the first unit; a high surrogate is refused exactly when no low surrogate with good digits follows it |
| `UnicodeStrings.Utf8IsStandard` | BAC-Server/cJSON/cJSON.c:716-766 | the conversion loop produces the encoding table of section 3 of RFC 3629 |
| `UnicodeStrings.HeadIsStandard` | BAC-Server/cJSON/cJSON.c:716-766 | what the grammar of section 4 of RFC 3629 accepts is the table's encoding of a scalar value |
| `UnicodeStrings.EncodingsAreWellFormed` | BAC-Server/cJSON/cJSON.c:716-766 | encodings of scalar values read back |
| `Minifying.FormattedMinifiesToUnformatted` | BAC-Server/cJSON/cJSON.c:2799-2894 | minifying the formatted print of a tree gives its unformatted print if and only if no key and no string ends in a backslash, other than a string behind which only closing brackets follow |
| `MinifiedPieces.PiecesMinified` | BAC-Server/cJSON/cJSON.c:2848-2894 | every text made of white space, comments, string literals and other characters: strings and other characters are kept, the rest is dropped, and the minifier goes on behind the pieces as it would without them |
| `MinifiedPieces.EveryTextMinified` | BAC-Server/cJSON/cJSON.c:2848-2894 | every text is made of such pieces |
| `MinifiedPieces.LineCommentDropped` | BAC-Server/cJSON/cJSON.c:2799-2810 | a line comment behind any whole pieces is dropped with its line end, whatever follows |
| `MinifiedPieces.BlockCommentDropped` | BAC-Server/cJSON/cJSON.c:2812-2823 | a block comment is dropped up to the first place where it is closed |
| `MinifiedPieces.OpenCommentDropped` | BAC-Server/cJSON/cJSON.c:2799-2823 | a comment in which the text ends is dropped to the end |
| `Minifying.LiteralCopied` | BAC-Server/cJSON/cJSON.c:2823-2846 | a printed literal is copied up to its closing quote if and only if its text does not end in a backslash; otherwise the copying goes on behind it |
| `MinifyInPlace.Minify` | BAC-Server/cJSON/cJSON.c:2848-2894 | the in-place loops leave exactly the minified text and a NUL, and nothing behind the old terminator changes |
| `MinifyInPlace.MinifyString` | BAC-Server/cJSON/cJSON.c:2823-2846 | a literal is moved down unchanged, with the write position never in front of the read position |
| `Crc.CRC32` | BAC-Base/BACInterface/AntiFunction/CheckCRC.cpp:94-103 | for every byte string the table loop computes the bit-by-bit CRC of section 8 of RFC 1952 |
| `Crc.TableIsDivision` | BAC-Base/BACInterface/AntiFunction/CheckCRC.cpp:5-91 | each of the 256 entries is what eight bit steps make of its index |
| `Crc.FoldComposes` | BAC-Base/BACInterface/AntiFunction/CheckCRC.cpp:94-103 | updates compose over concatenation |
| `Crc.BurstsAreDetected` | BAC-Base/BACInterface/AntiFunction/CheckCRC.cpp:94-103 | two messages of the same length that differ, but only inside thirty-two consecutive bits beginning at any bit, have different checksums |
| `Crc.FoldBits` | BAC-Base/BACInterface/AntiFunction/CheckCRC.cpp:94-103 | the checksum is a shift register over the bits of the message, lowest bit of each byte first |
| `Crc.FiveBytesCollideExactly` | BAC-Base/BACInterface/AntiFunction/CheckCRC.cpp:94-103 | with five bytes it can miss a difference: for all surroundings, exactly when the difference of the last four is what eight steps make of that of the first |
| `Crc.FiveBytesMayCollide` | BAC-Base/BACInterface/AntiFunction/CheckCRC.cpp:94-103 | two such messages |

## Left out

- Numbers are exact: `strtod` is modelled on its character grammar with real arithmetic, so rounding to double, overflow to infinity and the `%1.15g`/`%1.17g` printing of other numbers are not modelled; the printer is proved for 32-bit integers.
- Comparison of numbers is exact equality; `compare_double` and its DBL_EPSILON are not modelled.
- `Raw` and `Invalid` items are printed, patched and compared as the code does, but stay outside the round trips and comparisons of meaning.
- Reference items, constant keys, items without a key inside an object, and NULL arguments are not modelled.
- `Documents.Document.ApplyPatch`: requires that the "from" of a move has a text where the source copies it without looking, which is a NULL dereference for other items; nothing is promised once an item would be appended to an object whose link leads to a member that has already left it.
- `Documents.Document`: the document is a tree value with the state of its links; that the same operations on heap nodes do this to the trees they stand for is proved in `HeapObjects` for single objects, not for a whole run of patches.
- `MergeDocuments.MergeTarget.MergePatch`: promises nothing, either, once a member would be appended through a link that leads out of the object.
- `ComparingLoops.Compare`: the shortcut for two arguments that are the same object is left out; it changes no answer on trees without Invalid items.
- `PatchGenerator.PatchArray.CreatePatches`: allocation failures in the patch code are not modelled; they are in the parser, the printer and the duplicate.
- `Parsing.ParseWithOpts`: the window is a C string with its terminator, as `cJSON_ParseWithOpts` passes it; for other windows `OpenWindows` has the positions only, not the trees and the heap. The sibling links of the items are those of `Siblings`.
- `Siblings.Node.AddItemToArray`: nothing is promised when the first child's prev leads to an item that has left the list.
- `Siblings.Node.GetArraySize`: the conversion of the count to int is left out.
- `Printing.Print`: a reallocation copies what is accounted for; that a manual reallocation copies one more byte does not show.
- `StringLiterals.Utf16LiteralToUtf8`: masks and shifts are written as remainders and divisions.
- `Crc.CRC32`: the table is stored in rows of sixteen, looked up by the two halves of the index.
- unsigned long has 32 bits and size_t 64, as on 64-bit Windows.
- Locale decimal points, version, hooks, type predicates and the create/add wrappers, which are single branches.
- Detours, the HP-Socket glue, drivers, GUI and configuration: foreign calls and I/O.
