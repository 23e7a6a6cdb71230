# asyncapi-format, modelled in Dafny

This project models the rule engine of asyncapi-format, a formatter for AsyncAPI
documents. A document is a JSON tree, and the order of an object's keys is part
of the output. The engine has four parts, and each has a module:

- **Priority key ordering** (`KeyOrder`). `propComparator` compares two keys.
  Given an array of priority names, listed keys come first, in list order. The
  other keys follow in string order. `sortObjectByKeyNameList` rebuilds an
  object by copying its entries into a fresh object in the sorted order.
  `prioritySort` is that rebuild using the comparator.
- **The sort walk** (`SortWalk`, `SortLaws`). `asyncapiSort` walks the
  document in pre-order. At each node it picks a sorting case from the node's
  key and its parent's key:
  - sort every element of an array;
  - sort every entry of a `channels`/`schemas`/`properties` collection;
  - sort the node's own keys.

  It then re-sorts the root when the root has a truthy `asyncapi` field. The
  two `for` loops of the first two cases are methods over an array and a
  sequence.
- **The filter walk** (`FilterWalk`, `FilterLaws`, `FilterFindings`).
  `asyncapiFilter` deletes parts of the document by four rules:
  - rule 1: a key among the operations removes itself;
  - rule 2: a `tags` array holding a filter tag deletes its parent;
  - rule 3: a flagged scalar field, or an `operationId` with a flagged value,
    removes its parent;
  - rule 4: root-level tags are filtered by the flags.

  A second pass then drops empty objects.
- **Rename** (`Rename`). `asyncapiRename` replaces `info.title`.

`Pipeline` composes the three steps in the order the command line runs them:
filter, then sort, then rename.

The model works on values. Three parts of the source become explicit choices:

- The deep copies `JSON.parse(JSON.stringify(…))` are the identity.
- The default sort and filter sets are parameters.
- The walk of the `traverse` package is written out as a recursive function:
  - visit a node;
  - apply its `update`;
  - walk the children of the updated value;
  - then apply the children's `remove`/`delete` requests to the parent.

  Where the package's behaviour on arrays differs from that, see "Findings".

Objects are `seq<(string, Json)>`. `WellFormed` says every object has distinct
keys. `SameUpToKeyOrder` says two trees are equal up to key order.
`FilterLaws.Pruned` is the "only deletes" relation: what is left keeps its
place, so every object keeps the order of its remaining keys.
`FilterLaws.RootPruned` also allows the root `tags` entry to move to the end,
as rule 4 does when `tags` is among the operations.
`FilterLaws.PrunedUpToKeyOrder` ignores key order. `FilterLaws.Settled` means
"nothing left for the rules to remove".

Three points where the code behaves other than its comments or its description
suggest. The model follows the code:

- Unlisted keys are compared in string order, not kept in their original order.
- The `channels`/`schemas`/`properties` case sorts each entry of the
  collection, not the collection's own keys.
- An `update` of the root itself (an array root whose key name `"undefined"`
  is in the sort set) is lost. The walk hands back the original root object.

## Model

| member | source | states |
|---|---|---|
| KeyOrder.IndexOf | asyncapi-format.js:36-37 | the index of the first occurrence of a name, and -1 exactly when it is absent |
| KeyOrder.PropComparatorMatchesPrecedes | asyncapi-format.js:28-43 | for two different keys and a priority array, the comparator is negative exactly when the reference order `Precedes` puts the first key first, and is never 0 |
| KeyOrder.ListedKeyFirst | asyncapi-format.js:38-41 | a listed key sorts before an unlisted key, in both argument orders |
| KeyOrder.ListedKeysByIndex | asyncapi-format.js:38-39 | two different listed keys compare by their index in the priority list |
| KeyOrder.UnlistedKeysLexical | asyncapi-format.js:30-41 | two unlisted keys compare in ascending string order, and equal keys compare 0 |
| KeyOrder.NonArrayPriorityTies | asyncapi-format.js:33-35 | a priority that is not an array makes every comparison 0 |
| KeyOrder.CompareReflexive | asyncapi-format.js:30-32 | every key compares 0 with itself, under both orders |
| KeyOrder.CompareAntisymmetric | asyncapi-format.js:28-43 | `a` sorts before `b` exactly when `b` sorts after `a`, under every order |
| KeyOrder.CompareTransitive | asyncapi-format.js:28-43 | the comparison is transitive under every order |
| KeyOrder.ComparatorIsStrictTotalOrder | asyncapi-format.js:28-43 | with a priority array, or for plain `sort()`, the comparison is a strict total order on keys |
| KeyOrder.InsertPermutes | asyncapi-format.js:18 | inserting a key into a sorted list adds exactly that key |
| KeyOrder.InsertSorted | asyncapi-format.js:18 | inserting a new key into a sorted list, by a strict order, keeps it sorted |
| KeyOrder.SortKeysPermutes | asyncapi-format.js:18 | `keys.sort(fn)` is a permutation of the keys |
| KeyOrder.SortKeysSorted | asyncapi-format.js:18 | under a strict order, the sorted keys are strictly increasing |
| KeyOrder.SortKeysWithoutPriorityKeepsOrder | asyncapi-format.js:17-35 | with a comparator that answers 0 everywhere, the stable sort keeps the original key order |
| KeyOrder.SortedUnique | asyncapi-format.js:18 | two lists with the same elements that are sorted by a strict order are equal |
| KeyOrder.CollectIsEntries | asyncapi-format.js:18-23 | the `reduce` appends, to the object built so far, the entries of the names that are keys of the object and not yet present, in name order |
| KeyOrder.CollectDrawsFrom | asyncapi-format.js:19-21 | every entry the `reduce` builds is an entry of the object |
| KeyOrder.KeyNameListKeys | asyncapi-format.js:17-18 | the keys kept from `list ++ sorted(keys)` are exactly the object's keys, in priority order of the list |
| KeyOrder.KeyNameListMatchesPrioritySort | asyncapi-format.js:8-48 | sorting by a name list gives the same object as `prioritySort` with that list as priority |
| KeyOrder.PrioritySortIsEntries | asyncapi-format.js:17-48 | `prioritySort` is the object's entries taken in sorted-key order |
| KeyOrder.PrioritySortReorders | asyncapi-format.js:17-48 | `prioritySort` keeps exactly the object's keys, each with its original value, distinct, in comparator order |
| KeyOrder.PrioritySortDrawsFrom | asyncapi-format.js:19-21 | every entry of the result is an entry of the input |
| KeyOrder.PrioritySortOrdersKeys | asyncapi-format.js:36-48 | with a priority array, the result's keys follow the reference order `Precedes` pairwise |
| KeyOrder.PrioritySortSorted | asyncapi-format.js:46-48 | with a priority array, the result's keys are strictly sorted by the comparator |
| KeyOrder.PrioritySortOfSorted | asyncapi-format.js:46-48 | an object whose keys are already in comparator order is returned as it is |
| KeyOrder.PrioritySortWithoutPriorityIsIdentity | asyncapi-format.js:33-48 | a priority that is not an array leaves the object unchanged |
| KeyOrder.PrioritySortIgnoresInputOrder | asyncapi-format.js:46-48 | with a priority array, two objects with the same entries in any order sort to the same object |
| KeyOrder.PrioritySortIdempotent | asyncapi-format.js:46-48 | sorting twice is sorting once |
| SortWalk.SortEachItem | asyncapi-format.js:70-74 | the loop over `sortedObj[i]` leaves every element priority-sorted, position by position |
| SortWalk.SortEachEntry | asyncapi-format.js:80-84 | the loop over `sortedObj[keyRes]` priority-sorts every entry's value and keeps the keys and their order |
| SortWalk.EachEntrySortedKeys | asyncapi-format.js:81-83 | sorting every entry keeps the collection's keys in order |
| SortWalk.SortNode | asyncapi-format.js:62-92 | the walk keeps each node's kind and each array's length, and leaves scalars alone |
| SortWalk.SortNodeWellFormed | asyncapi-format.js:62-92 | the walk keeps every object's keys distinct |
| SortWalk.SortNodeKeepsContent | asyncapi-format.js:62-92 | the walk of a node equals the node up to key order |
| SortWalk.SortDocumentKeepsContent | asyncapi-format.js:62-98 | walk plus root re-sort equals the document up to key order and keeps keys distinct |
| SortWalk.AsyncapiSort | asyncapi-format.js:52-99 | with `sort === false` the input comes back; otherwise the output equals the input up to key order, with distinct keys |
| SortLaws.UpdateKeepsKeysUnlessOwnSort | asyncapi-format.js:64-90 | outside the own-keys case, the walk keeps an object's key order |
| SortLaws.OwnKeysSorted | asyncapi-format.js:85-89 | an object under a sort key, neither a collection case nor under `components`, comes out with exactly its keys, in that key's priority order |
| SortLaws.OtherKeysKept | asyncapi-format.js:64-90 | every other object keeps its key order: key not in the sort set, a collection, under `components`, or the root |
| SortLaws.EachItemSortedInResult | asyncapi-format.js:68-74 | every object element of an array under a sort key comes out with exactly its keys, in that key's priority order |
| SortLaws.EachEntrySortedInResult | asyncapi-format.js:76-84 | every object entry of a collection under a sort key (parent not `properties`/`payload`) comes out with exactly its keys, in the collection key's priority order |
| SortLaws.SortNodeIdempotent | asyncapi-format.js:62-92 | walking a walked node changes nothing |
| SortLaws.PresortedIdempotent | asyncapi-format.js:70-84 | presorting and walking a node its parent already presorted and walked changes nothing |
| SortLaws.SortNodeSortable | asyncapi-format.js:64-90 | the walk maps a node free of the coercion cases to such a node |
| SortLaws.WalkDocumentFacts | asyncapi-format.js:62-92 | the walk keeps the root's kind, distinct keys and sortability, and an object root's key order |
| SortLaws.SortRootFacts | asyncapi-format.js:95-97 | the root re-sort keeps the root's kind, distinct keys and sortability |
| SortLaws.ResortedRootIsFixed | asyncapi-format.js:62-97 | a re-sorted root that the walk fixes is fixed by a second walk and a second re-sort |
| SortLaws.AsyncapiSortIdempotent | asyncapi-format.js:52-99 | sorting a sorted document again changes nothing |
| SortLaws.WalkKeepsTruthy | asyncapi-format.js:62-95 | the walk keeps whether a value is truthy |
| SortLaws.RootAsyncapiValue | asyncapi-format.js:62-95 | the walk keeps the truthiness of the root's `asyncapi` field |
| SortLaws.RootKeptWithoutAsyncapi | asyncapi-format.js:95-97 | a root without a truthy `asyncapi` keeps its key order |
| SortLaws.RootSortedWithAsyncapi | asyncapi-format.js:95-97 | a root with a truthy `asyncapi` comes out with exactly its keys, in the priority order of `sortSet.root` |
| FilterWalk.FilterTags | asyncapi-format.js:150 | the filtered tags are tags of the input |
| FilterWalk.RootTagsUpdate | asyncapi-format.js:147-152 | only the root's `tags` array is updated, to an array of its own elements |
| FilterWalk.RootVisitKeeps | asyncapi-format.js:114-153 | a successful walk never removes or deletes the root |
| FilterLaws.FilterTagsSpec | asyncapi-format.js:150 | the root tags keep, in order, exactly the tags whose keys name no prop, each as often as it occurs; with no props all of them; a null tag throws exactly when there is a prop |
| FilterLaws.VisitWithoutFilters | asyncapi-format.js:114-153 | with an empty filter set every node is kept as it is |
| FilterLaws.FilterWithoutFilters | asyncapi-format.js:103-168 | with an empty filter set only the clean-up has an effect |
| FilterLaws.AskingRootEntryFails | asyncapi-format.js:125-143 | a request from a child of the root makes the walk throw |
| FilterLaws.AskingRootItemFails | asyncapi-format.js:125-143 | the same for an element of an array root |
| FilterLaws.FilterNeedsQuietRoot | asyncapi-format.js:123-144 | a successful pass had no child of the root asking to delete or remove the root |
| FilterLaws.VisitFacts | asyncapi-format.js:114-153 | a kept node's key is not an operation; a re-added node is the root tags; a node's request is its own rule's |
| FilterLaws.EntriesCollectRequests | asyncapi-format.js:123-144 | an object records a remove or delete request exactly when one of its fields asks it |
| FilterLaws.ItemsCollectRequest | asyncapi-format.js:123-144 | an array records a request exactly when one of its elements asks it |
| FilterLaws.ObjectFate | asyncapi-format.js:117-144 | an object is removed exactly by rule 1 or a flagged field, else deleted exactly by a blocked `tags` field, else kept |
| FilterLaws.ArrayFate | asyncapi-format.js:117-144 | the same for an array other than the root tags |
| FilterLaws.FilterPassPrunes | asyncapi-format.js:114-153 | the first pass only deletes, and every object keeps the order of its remaining keys; the one exception is that the root `tags`, when `tags` is an operation, come last |
| FilterLaws.FilterPassSettles | asyncapi-format.js:114-153 | after the first pass no node is left for rules 1 to 3 |
| FilterLaws.CleanupDropsEmptyObjects | asyncapi-format.js:156-160 | one level of clean-up drops exactly the entries whose value is an empty object, keeps the others in their order with distinct keys, and cleans every other value |
| FilterLaws.CleanupHolesEmptyElements | asyncapi-format.js:156-160 | in an array the clean-up leaves a hole where an element is an empty object, and cleans every other element in its place |
| FilterLaws.CleanupIsNotIdempotent | asyncapi-format.js:156-165 | an object emptied by the clean-up is not re-checked: cleaning twice removes more |
| FilterLaws.CleanPrunes | asyncapi-format.js:156-165 | the clean-up only deletes, and keeps the order of what is left |
| FilterLaws.AsyncapiFilterSpec | asyncapi-format.js:103-168 | the filter only deletes, keeps the order of what is left except for the root `tags` moved last, and keeps keys distinct; without `tags` among the operations nothing moves; when no filter name is an array index it also leaves nothing for the rules |
| FilterFindings.ElementCalls | asyncapi-format.js:123-143 | an array element asks its array for a removal, or a deletion, exactly when one of its fields does so in the filter model |
| FilterFindings.AdjacentFlaggedElementSurvives | asyncapi-format.js:132-137 | with splicing, of two adjacent flagged elements the second survives |
| FilterFindings.DoublyFlaggedElementTakesNeighbour | asyncapi-format.js:132-137 | with splicing, an element with two flagged fields also removes its unflagged neighbour |
| FilterFindings.FlaggedAndTaggedElementLeavesHole | asyncapi-format.js:123-137 | with splicing, the rule-2 `delete` of an element already spliced out by rule 3 leaves a hole where its unflagged neighbour was |
| FilterFindings.IndexStableWalkDropsBoth | asyncapi-format.js:132-137 | the index-stable walk drops both adjacent flagged elements |
| FilterFindings.IndexStableWalkKeepsNeighbour | asyncapi-format.js:132-137 | the index-stable walk drops the doubly flagged element and keeps its neighbour |
| FilterFindings.IndexStableWalkRemovesTaggedElement | asyncapi-format.js:123-137 | the index-stable walk drops the element with a flag and a blocked `tags` field and keeps its neighbour |
| Rename.RenameSetsTitle | asyncapi-format.js:176-178 | when the rename applies, `info.title` is the new name, and every other key of the document and of `info` keeps its value and place |
| Rename.RenameUnchanged | asyncapi-format.js:172-181 | only a null document fails; the document is unchanged exactly when the rename does not apply or the title already is the new name |
| Rename.RenameIdempotent | asyncapi-format.js:172-181 | renaming twice with the same name is renaming once |
| Rename.RenameKeepsWellFormed | asyncapi-format.js:176-177 | the renamed document keeps distinct keys |
| Pipeline.FilterStep | bin/cli.js:114-117 | without a filter set the document passes unchanged; a filtered document keeps distinct keys |
| Pipeline.Format | bin/cli.js:114-128 | a formatted document keeps distinct keys |
| Pipeline.FormatOnlyDeletes | bin/cli.js:114-122 | without a rename, the output is a pruning of the input up to key order, since the sort may reorder |
| Pipeline.FormatWithoutOptions | bin/cli.js:114-128 | without a filter set, sorting or a rename, the document comes back |
| Pipeline.FormatFailures | bin/cli.js:114-128 | the pipeline fails exactly when the filter fails, or the filtered document is null and sorting or a rename is asked |
| Pipeline.FormatRenames | bin/cli.js:124-128 | when the rename applies to the sorted document, the output's `info.title` is the new name |

## Left out

- Reading `defaultSort.json` and `defaultFilter.json` from disk (asyncapi-format.js:59, 105) is not modelled. The merged filter set and the sort set are parameters.
- The command line is not modelled: option parsing, loading the option files, YAML/JSON reading and writing, console output and `async`/`await`. Only the order of the three steps is kept, in `Pipeline`.
- The `traverse` package is not part of this model. Its walk is fixed as the pre-order function described above, and the array splice is treated under "Findings".
- Casing and unused-component removal are not in the modelled source and are not modelled.
- JavaScript puts integer-like keys of an object first, in ascending order, whatever order they were assigned in. The model keeps assignment order for every key.
- String comparison is by character. JavaScript compares UTF-16 code units, which differs for characters outside the basic plane.
- An array hole left by `this.delete()` is modelled as `null`, which is what `JSON.stringify` writes for it.
- SortWalk.AsyncapiSort: requires `SortableAt`. This excludes the documents on which the source calls `prioritySort` on a non-object. That is an element of a sorted array, an entry value of a sorted `channels`/`schemas`/`properties` collection, or a node sorted by its own keys, when it is:
  - `null`, where `Object.keys` throws;
  - a string or an array, which `Object.keys` turns into an index-keyed object;
  - a number or a boolean, which `Object.keys` turns into `{}`.

  It also requires a non-null document, since `jsonObj.asyncapi` throws on `null`.
- KeyOrder.PrioritySortReorders: keeps every key. In the source, `total[key] = object[key]` on a fresh `{}` (asyncapi-format.js:20) does not create an own key named `__proto__`, so such a key is lost; the model treats it like any other key.
- KeyOrder.PrioritySortValue: leaves a value that is not an object unchanged, where the source would coerce it. It is only reached under the `SortableAt` precondition above.
- Pipeline.Format: requires the sort step to meet `SortableAt` on the filtered document, for the same reason. The null-document failure of the sort is modelled as `AsyncapiOfNull`.
- FilterLaws.AsyncapiFilterSpec: the "nothing left for the rules" half requires that no filter name is an array index (`NoIndexKeys`). Otherwise dropping an element can move another one under a rule.
- FilterLaws.FilterPassSettles: requires `NoIndexKeys`, for the same reason.
- Options are modelled as already parsed values. `rename` is a string or absent, and `sort` is a boolean.

## Findings

| source | as written | input that shows it | evidently intended | confidence | as-written member | corrected member |
|---|---|---|---|---|---|---|
| asyncapi-format.js:132-137 | `this.parent.remove()` on an array element splices the array while the walk goes on over the indices listed before the splice. The next element moves under the index just visited and is skipped. A second `remove` from the same element splices its neighbour out. | flags `["x-internal"]`, `messages: [{"x-internal":true},{"x-internal":true}]`: one flagged element survives. Flags `["x-a","x-b"]`, `[{"x-a":true,"x-b":true},{"name":"user"}]`: both elements go. | every element with a flagged field is removed once, and no other element is touched | not executed | FilterFindings.AdjacentFlaggedElementSurvives, FilterFindings.DoublyFlaggedElementTakesNeighbour | FilterFindings.IndexStableWalkDropsBoth, FilterFindings.IndexStableWalkKeepsNeighbour, FilterLaws.AsyncapiFilterSpec |
| asyncapi-format.js:123-137 | After a rule-3 `this.parent.remove()` has spliced an array element out, a later field of the same element, a `tags` array with a filter tag, calls `this.parent.delete()` at the same index. That index now holds the next element, which is deleted. | tags `["t"]`, flags `["x-a"]`, `[{"x-a":true,"tags":["t"]},{"name":"user"}]`: only a hole is left. | the element with the flag and the blocked tags is removed once, and its neighbour is kept | not executed | FilterFindings.FlaggedAndTaggedElementLeavesHole | FilterFindings.IndexStableWalkRemovesTaggedElement, FilterLaws.AsyncapiFilterSpec |
