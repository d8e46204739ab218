# Expandable creator: a verified model

`ExpandableCreator` is the two-level list section of the recurve adapter
library. It keeps an insertion-ordered map from parent keys to mutable child
lists and shows it to its host adapter as one flat run of rows: each group
takes one header row followed by one row per child, and groups follow each
other in map order. The creator translates between flat row positions and
(parent, child) references. It changes the map on request, notifying the host
adapter of each change. It also tags header and child rows with view types
derived from its `creatorType`.

The model follows the Kotlin code as written, including what it does
differently from the layout it evidently means to compute (see
"## Findings"):

- `kotlin_lib.dfy` (module `KotlinLib`) models the parts of the Kotlin runtime
  that the creator relies on. Exceptions are values of type `Result`/`Outcome`.
  `Int` arithmetic is 32-bit, with wrap-around for `shl`, flooring `shr` and
  truncating `/`. The module also models `List.indexOf` and `List.remove(element)`.
- `groups.dfy` holds two modules. Module `Groups` is the pure specification of
  the ordered map (a sequence of `Entry(key, children)` with distinct keys) and
  of the flat layout. It defines `Rows`, `HeaderStart`, `Locate`, the `RowAt` /
  `RowIndex` translation in both directions, `Put` (`LinkedHashMap.put`) and
  `OthersRows`, the sum that `getParentPositionInCreator` computes. Module
  `Rebuilding` specifies the map-rebuilding loop of `realSetParentItem`.
- `view_type.dfy` (module `ViewType`) holds the header and child tags, the
  view-type normalisation and the header-row test.
- `expandable_creator.dfy` (module `Creator`) holds the class
  `ExpandableCreator`. Its field `groups` is `dataMap` and its field `log`
  lists the host notifications. Each query loop is a method proved against the
  pure functions above. Each mutation is a method that states the new map, the
  notification it appends and the exception it throws, with the state
  unchanged on every exception path.
- `findings.dfy` (module `Findings`) holds three defects of the code, each with
  the behaviour as written and a corrected definition proved to behave as
  intended.

Where the code departs from the layout it evidently computes, the model
follows the code:
- `getParentPositionInCreator` (ExpandableCreator.kt:258-265) adds up the rows
  of all other groups, not only of the groups before the key.
- `addParentItem` (ExpandableCreator.kt:77-81) on a key that is already
  present stores a fresh empty list under that key at the same position and
  returns the old list intact. The key is not ignored.
- `addParentItem(position, …)` and `setParentItem` (ExpandableCreator.kt:227)
  throw for every position up to and including the map's size, and for every
  negative position. Only positions above the size get past the guard; they
  leave the map unchanged and still notify.
- After `removedChildItem` by value (ExpandableCreator.kt:143-148) the row
  reported is computed after the list has changed, from the first occurrence
  of the value. After `removedChildItemAt` (ExpandableCreator.kt:157-162) it is
  the sum of `getParentPositionInCreator` for the parent, the child's index
  and 1.
- `removedParentItem` (ExpandableCreator.kt:91-97) reports the range from the start row to the start row
  plus the number of children.

## Model

| member | source | states |
|---|---|---|
| KotlinLib.Shl | recurve-module-adapter/src/main/java/com/recurve/adapter/creator/ExpandableCreator.kt:181-183 | `x shl k` is an `Int`, and equals `x * 2^k` whenever that product fits in an `Int` |
| KotlinLib.Shr | recurve-module-adapter/src/main/java/com/recurve/adapter/creator/ExpandableCreator.kt:187 | `x shr k` is the floor of `x / 2^k`: `2^k * r <= x < 2^k * (r + 1)` |
| KotlinLib.IntDiv | recurve-module-adapter/src/main/java/com/recurve/adapter/creator/ExpandableCreator.kt:200 | `Int` division throws ArithmeticException exactly for a zero divisor, and agrees with exact division for non-negative dividends and positive divisors |
| KotlinLib.IndexOf | recurve-module-adapter/src/main/java/com/recurve/adapter/creator/ExpandableCreator.kt:311 | `indexOf` is -1 exactly when the value is absent; otherwise it is the first position that holds the value |
| KotlinLib.RemoveFirst | recurve-module-adapter/src/main/java/com/recurve/adapter/creator/ExpandableCreator.kt:145 | `remove(element)` shortens the list by one when the value is present and leaves it unchanged otherwise |
| KotlinLib.RemoveFirstKeepsOrder | recurve-module-adapter/src/main/java/com/recurve/adapter/creator/ExpandableCreator.kt:145 | `remove(element)` takes out the first occurrence: the elements before it stay where they are and the ones after it move up by one, in order |
| KotlinLib.RemoveFirstCounts | recurve-module-adapter/src/main/java/com/recurve/adapter/creator/ExpandableCreator.kt:145 | `remove(element)` takes away exactly one copy of the value when present; every other element's count is kept |
| Groups.RowsIsCount | recurve-module-adapter/src/main/java/com/recurve/adapter/creator/ExpandableCreator.kt:177 | the number of flat rows is the number of groups plus the total number of children |
| Groups.HeaderStartStep | recurve-module-adapter/src/main/java/com/recurve/adapter/creator/ExpandableCreator.kt:297-308 | the running offset of the layout walks moves from one header to the next by the group's footprint `1 + size` |
| Groups.HeaderStartAll | recurve-module-adapter/src/main/java/com/recurve/adapter/creator/ExpandableCreator.kt:177 | after the last group the running offset equals the row count |
| Groups.HeaderStartMono | recurve-module-adapter/src/main/java/com/recurve/adapter/creator/ExpandableCreator.kt:285-295 | a later group's header lies beyond the whole footprint of an earlier group |
| Groups.KeyIndex | recurve-module-adapter/src/main/java/com/recurve/adapter/creator/ExpandableCreator.kt:48 | key lookup in the ordered map: absent exactly when no entry has the key, otherwise the first entry with it |
| Groups.KeyIndexSameKeys | recurve-module-adapter/src/main/java/com/recurve/adapter/creator/ExpandableCreator.kt:103-169 | replacing child lists without touching keys leaves every key lookup unchanged |
| Groups.KeyIndexAppend | recurve-module-adapter/src/main/java/com/recurve/adapter/creator/ExpandableCreator.kt:78 | appending an entry finds an existing key where it was, and a new key at the end |
| Groups.KeyIndexOfKeyAt | recurve-module-adapter/src/main/java/com/recurve/adapter/creator/ExpandableCreator.kt:246-247 | with distinct keys, the key at index `i` is found at `i`, so `dataMap[getParent(i)]` is never null |
| Groups.LookupIsGet | recurve-module-adapter/src/main/java/com/recurve/adapter/creator/ExpandableCreator.kt:173-174 | `dataMap[key]` is non-null exactly when some entry holds the key, and with distinct keys it is that entry's child list |
| Groups.Put | recurve-module-adapter/src/main/java/com/recurve/adapter/creator/ExpandableCreator.kt:78 | `LinkedHashMap.put` returns the previous list and maps the key to the new one. The map grows by one entry exactly for a new key, which goes last; an existing key keeps its position, other entries are untouched and keys stay distinct |
| Groups.PutPresent | recurve-module-adapter/src/main/java/com/recurve/adapter/creator/ExpandableCreator.kt:78 | putting a present key replaces its entry where it stands and returns the old list |
| Groups.PutAbsent | recurve-module-adapter/src/main/java/com/recurve/adapter/creator/ExpandableCreator.kt:78 | putting a new key appends one entry and returns null |
| Groups.RemoveKeepsDistinct | recurve-module-adapter/src/main/java/com/recurve/adapter/creator/ExpandableCreator.kt:95 | removing one entry keeps the remaining keys distinct |
| Groups.OthersRowsAbsent | recurve-module-adapter/src/main/java/com/recurve/adapter/creator/ExpandableCreator.kt:258-265 | for an absent key, the sum of the other groups' footprints is the row count |
| Groups.OthersRowsPrefix | recurve-module-adapter/src/main/java/com/recurve/adapter/creator/ExpandableCreator.kt:258-265 | over any prefix of the map, the other groups' footprints plus the key's own footprint (if it is in the prefix) make up all of the prefix's rows |
| Groups.OthersRowsPresent | recurve-module-adapter/src/main/java/com/recurve/adapter/creator/ExpandableCreator.kt:258-265 | for a present key the sum is the row count minus that group's footprint |
| Groups.OthersRowsSplit | recurve-module-adapter/src/main/java/com/recurve/adapter/creator/ExpandableCreator.kt:258-265 | the sum is the group's header row plus the rows of all groups after it |
| Groups.OthersRowsIsHeaderIffLast | recurve-module-adapter/src/main/java/com/recurve/adapter/creator/ExpandableCreator.kt:258-265 | the sum equals the group's header row if and only if the group is the last one |
| Groups.Locate | recurve-module-adapter/src/main/java/com/recurve/adapter/creator/ExpandableCreator.kt:285-295 | every row below the row count lies in exactly one group, at an offset below its footprint from that group's header |
| Groups.LocateUnique | recurve-module-adapter/src/main/java/com/recurve/adapter/creator/ExpandableCreator.kt:285-295 | the row `header + offset` of any group is located back to that group and offset |
| Groups.RowIndex | recurve-module-adapter/src/main/java/com/recurve/adapter/creator/ExpandableCreator.kt:318-319 | every valid header or child reference has a flat row below the row count |
| Groups.RowAt | recurve-module-adapter/src/main/java/com/recurve/adapter/creator/ExpandableCreator.kt:285-308 | a flat index resolves to a row reference exactly when it is in `[0, rows)`, and that reference's row is the index |
| Groups.RowAtIndex | recurve-module-adapter/src/main/java/com/recurve/adapter/creator/ExpandableCreator.kt:285-308 | every row reference resolves back to itself, so the translation is a bijection |
| Groups.HeaderRowIff | recurve-module-adapter/src/main/java/com/recurve/adapter/creator/ExpandableCreator.kt:297-308 | a flat index is group `g`'s header if and only if it is the sum of the footprints of the groups before `g` |
| Groups.ChildRowShift | recurve-module-adapter/src/main/java/com/recurve/adapter/creator/ExpandableCreator.kt:318-319 | for a valid child, the row that the child operations notify is the child's own row plus the rows of all groups after its parent |
| Groups.ChildRowIffLast | recurve-module-adapter/src/main/java/com/recurve/adapter/creator/ExpandableCreator.kt:318-319 | the row a child operation notifies is the child's own row if and only if its group is the last one |
| Rebuilding.RebuildCopies | recurve-module-adapter/src/main/java/com/recurve/adapter/creator/ExpandableCreator.kt:228-235 | when the loop never meets the target index it rebuilds the same map and displaces nothing |
| Rebuilding.RebuildSplices | recurve-module-adapter/src/main/java/com/recurve/adapter/creator/ExpandableCreator.kt:228-235 | for a target index inside the map and a new key, the loop inserts the key's empty group at that index, either before the old entry (add) or in its place (set) |
| ViewType.ParentTag | recurve-module-adapter/src/main/java/com/recurve/adapter/creator/ExpandableCreator.kt:181 | the header tag is an `Int`, `256 * creatorType` when that does not overflow |
| ViewType.ChildTag | recurve-module-adapter/src/main/java/com/recurve/adapter/creator/ExpandableCreator.kt:183 | the child tag is an `Int`, `16 * creatorType` when that does not overflow |
| ViewType.NormalizeViewType | recurve-module-adapter/src/main/java/com/recurve/adapter/creator/ExpandableCreator.kt:186-191 | the view type is kept if and only if it lies in -1..15, otherwise it becomes 0 |
| ViewType.NormalizeDropsTags | recurve-module-adapter/src/main/java/com/recurve/adapter/creator/ExpandableCreator.kt:179-191 | for every non-zero creator type without overflow, both tags normalise to 0 |
| ViewType.IsParentViewType | recurve-module-adapter/src/main/java/com/recurve/adapter/creator/ExpandableCreator.kt:200 | the header test throws ArithmeticException exactly for creator type 0 |
| ViewType.TagQuotient | recurve-module-adapter/src/main/java/com/recurve/adapter/creator/ExpandableCreator.kt:200 | an unwrapped tag divided by its creator type gives back the shift factor |
| Creator.ExpandableCreator.constructor | recurve-module-adapter/src/main/java/com/recurve/adapter/creator/ExpandableCreator.kt:31 | a new creator has an empty map and has sent no notifications |
| Creator.ExpandableCreator.SetDataList | recurve-module-adapter/src/main/java/com/recurve/adapter/creator/ExpandableCreator.kt:70-73 | the map is replaced and one full-refresh notification is sent |
| Creator.ExpandableCreator.GetData | recurve-module-adapter/src/main/java/com/recurve/adapter/creator/ExpandableCreator.kt:75 | the copy has the same entries in the same order, with distinct keys |
| Creator.ExpandableCreator.ParentItemCount | recurve-module-adapter/src/main/java/com/recurve/adapter/creator/ExpandableCreator.kt:171 | the group count never exceeds the row count, and is 0 exactly when there are no rows |
| Creator.ExpandableCreator.ItemCount | recurve-module-adapter/src/main/java/com/recurve/adapter/creator/ExpandableCreator.kt:177 | the item count is the number of rows of the flat layout |
| Creator.ExpandableCreator.GetChildItemCountByParent | recurve-module-adapter/src/main/java/com/recurve/adapter/creator/ExpandableCreator.kt:173-174 | returns the size of the parent's list exactly when the parent is present, and throws NullPointerException otherwise |
| Creator.ExpandableCreator.GetParentPositionInCreator | recurve-module-adapter/src/main/java/com/recurve/adapter/creator/ExpandableCreator.kt:258-265 | the loop returns the sum of the other groups' footprints: the header row plus all later groups' rows for a present key, and the row count for an absent one |
| Creator.ExpandableCreator.GetParentPosition | recurve-module-adapter/src/main/java/com/recurve/adapter/creator/ExpandableCreator.kt:267-272 | returns the index of the key in map order, and throws NullPointerException exactly when the key is absent |
| Creator.ExpandableCreator.GetParent | recurve-module-adapter/src/main/java/com/recurve/adapter/creator/ExpandableCreator.kt:274-283 | returns the key at the index for an index in `[0, size)`, and throws IndexOutOfBoundsException otherwise, including for negative indices |
| Creator.ExpandableCreator.GetChild | recurve-module-adapter/src/main/java/com/recurve/adapter/creator/ExpandableCreator.kt:285-295 | a child row gives that child and its offset; a header row or a negative index throws IndexOutOfBoundsException; an index at or past the row count, or any index on an empty map, throws NullPointerException |
| Creator.ExpandableCreator.GetParentInCreatorPosition | recurve-module-adapter/src/main/java/com/recurve/adapter/creator/ExpandableCreator.kt:297-308 | returns a key exactly for a header row, namely the key of the group that row heads; null for child rows and out-of-range indices |
| Creator.ExpandableCreator.GetChildPositionInCreator | recurve-module-adapter/src/main/java/com/recurve/adapter/creator/ExpandableCreator.kt:310-313 | the reported row is the parent's reported position plus the first index of the value plus 1, or the row count plus 1 for an absent parent |
| Creator.ExpandableCreator.GetChildOffsetPositionInCreator | recurve-module-adapter/src/main/java/com/recurve/adapter/creator/ExpandableCreator.kt:318-319 | the reported row is the parent's reported position (`OthersRows`) plus the offset plus 1; `Groups.ChildRowShift` says which row that is |
| Creator.ExpandableCreator.GetChildPositionInCreatorByOrdinal | recurve-module-adapter/src/main/java/com/recurve/adapter/creator/ExpandableCreator.kt:315-316 | throws IndexOutOfBoundsException for an index outside the map; otherwise computes the keyed position of that group |
| Creator.ExpandableCreator.GetChildOffsetPositionInCreatorByOrdinal | recurve-module-adapter/src/main/java/com/recurve/adapter/creator/ExpandableCreator.kt:321-322 | throws IndexOutOfBoundsException for an index outside the map; otherwise computes the keyed offset position of that group |
| Creator.ExpandableCreator.GetCreatorItemViewTypeByPosition | recurve-module-adapter/src/main/java/com/recurve/adapter/creator/ExpandableCreator.kt:179-184 | header rows get the header tag; every other index, in range or not, gets the child tag |
| Creator.ExpandableCreator.AddParentItem | recurve-module-adapter/src/main/java/com/recurve/adapter/creator/ExpandableCreator.kt:77-81 | returns the previous list. A new key appends an empty group and notifies the new header's row. An existing key gets a fresh empty list at the same position, the old list is returned intact, and the last row is notified |
| Creator.ExpandableCreator.AddParentItemAt | recurve-module-adapter/src/main/java/com/recurve/adapter/creator/ExpandableCreator.kt:83-85 | throws IndexOutOfBoundsException with no change for every index up to and including the size, negative ones too. An index above the size keeps the map and returns null, but notifies an insertion |
| Creator.ExpandableCreator.SetParentItem | recurve-module-adapter/src/main/java/com/recurve/adapter/creator/ExpandableCreator.kt:87-89 | same as `AddParentItemAt`: the inverted guard throws for every index up to and including the size, negatives included, and above the size changes nothing in the map but still notifies |
| Creator.RebuildEntries | recurve-module-adapter/src/main/java/com/recurve/adapter/creator/ExpandableCreator.kt:225-235 | the loop that fills the fresh map computes exactly `Rebuild` of the entries it walks |
| Creator.ExpandableCreator.RealSetParentItem | recurve-module-adapter/src/main/java/com/recurve/adapter/creator/ExpandableCreator.kt:224-242 | With the guard as written it throws with state unchanged for `ord <= size`. Otherwise it produces the same map and returns null, and then notifies `OthersRows` of the key |
| Creator.ExpandableCreator.RemovedParentItem | recurve-module-adapter/src/main/java/com/recurve/adapter/creator/ExpandableCreator.kt:91-97 | deletes only the key's entry, keeping the others in order, and notifies the range from its reported position to that plus its child count. An absent key changes nothing, does not throw, and notifies the empty range at the row count |
| Creator.ExpandableCreator.RemovedParentItemAt | recurve-module-adapter/src/main/java/com/recurve/adapter/creator/ExpandableCreator.kt:99-101 | throws IndexOutOfBoundsException with no change for an index outside the map; otherwise removes the group at that index |
| Creator.ExpandableCreator.ChildListByParent | recurve-module-adapter/src/main/java/com/recurve/adapter/creator/ExpandableCreator.kt:252-256 | finds the group of a present key and throws NullPointerException for an absent one |
| Creator.ExpandableCreator.ChildListByParentPosition | recurve-module-adapter/src/main/java/com/recurve/adapter/creator/ExpandableCreator.kt:244-250 | resolves an index in `[0, size)` to that group and throws IndexOutOfBoundsException otherwise. The NullPointerException branch cannot be reached |
| Creator.ExpandableCreator.AddChildItem | recurve-module-adapter/src/main/java/com/recurve/adapter/creator/ExpandableCreator.kt:103-108 | appends the child to the parent's list and changes nothing else. It notifies the row from the first occurrence of the value after the append and returns true. An absent parent throws NullPointerException with no change |
| Creator.ExpandableCreator.AddChildItemByOrdinal | recurve-module-adapter/src/main/java/com/recurve/adapter/creator/ExpandableCreator.kt:110-115 | same as `AddChildItem` for the group at the index; an index outside the map throws IndexOutOfBoundsException with no change |
| Creator.ExpandableCreator.InsertChildItem | recurve-module-adapter/src/main/java/com/recurve/adapter/creator/ExpandableCreator.kt:117-121 | inserts the child at offset `k` for `0 <= k <= size`, changing nothing else. It notifies the row from the value's first occurrence. Any other `k` throws IndexOutOfBoundsException with no change |
| Creator.ExpandableCreator.InsertChildItemByOrdinal | recurve-module-adapter/src/main/java/com/recurve/adapter/creator/ExpandableCreator.kt:123-127 | same as `InsertChildItem` for the group at the index, with IndexOutOfBoundsException for a bad group index |
| Creator.ExpandableCreator.SetChildItem | recurve-module-adapter/src/main/java/com/recurve/adapter/creator/ExpandableCreator.kt:129-134 | for `0 <= k < size` it replaces the child at `k`, keeping the length, and returns the displaced child. It notifies `OthersRows + k + 1`. Otherwise it throws IndexOutOfBoundsException with no change |
| Creator.ExpandableCreator.SetChildItemByOrdinal | recurve-module-adapter/src/main/java/com/recurve/adapter/creator/ExpandableCreator.kt:136-141 | same as `SetChildItem` for the group at the index |
| Creator.ExpandableCreator.RemovedChildItem | recurve-module-adapter/src/main/java/com/recurve/adapter/creator/ExpandableCreator.kt:143-148 | removes the first occurrence of the value, if any, and returns whether there was one. It notifies even when nothing was removed, using the value's first index in the list after the removal |
| Creator.ExpandableCreator.RemovedChildItemByOrdinal | recurve-module-adapter/src/main/java/com/recurve/adapter/creator/ExpandableCreator.kt:150-155 | same as `RemovedChildItem` for the group at the index |
| Creator.ExpandableCreator.RemovedChildItemAt | recurve-module-adapter/src/main/java/com/recurve/adapter/creator/ExpandableCreator.kt:157-162 | for `0 <= k < size` it removes and returns the child at `k`, shortening the list by one, and notifies `OthersRows + k + 1`. Otherwise it throws IndexOutOfBoundsException with no change |
| Creator.ExpandableCreator.RemovedChildItemAtByOrdinal | recurve-module-adapter/src/main/java/com/recurve/adapter/creator/ExpandableCreator.kt:164-169 | same as `RemovedChildItemAt` for the group at the index |
| Findings.HeaderPosition | recurve-module-adapter/src/main/java/com/recurve/adapter/creator/ExpandableCreator.kt:258-265 | the corrected parent position is the key's header row, and points past the layout for an absent key |
| Findings.HeaderPositionByLoop | recurve-module-adapter/src/main/java/com/recurve/adapter/creator/ExpandableCreator.kt:258-265 | the loop with a real early exit computes that header row |
| Findings.ParentPositionOvershoots | recurve-module-adapter/src/main/java/com/recurve/adapter/creator/ExpandableCreator.kt:261 | as written, any group but the last is reported past its header, by at least the next group's footprint |
| Findings.ParentPositionTwoGroups | recurve-module-adapter/src/main/java/com/recurve/adapter/creator/ExpandableCreator.kt:261 | with two empty groups, the first is reported at row 1 although its header is row 0 |
| Findings.SetFirstParentThrows | recurve-module-adapter/src/main/java/com/recurve/adapter/creator/ExpandableCreator.kt:227 | setting index 0 of a one-group map throws IndexOutOfBoundsException |
| Findings.SetParentCheckedSplices | recurve-module-adapter/src/main/java/com/recurve/adapter/creator/ExpandableCreator.kt:224-242 | with the corrected guard, a new key lands at the requested index and all other entries keep their order |
| Findings.ParentTestMissesTags | recurve-module-adapter/src/main/java/com/recurve/adapter/creator/ExpandableCreator.kt:200 | as written, the header test is false for both tags of every non-zero creator type without overflow |
| Findings.ParentTestOverflowPasses | recurve-module-adapter/src/main/java/com/recurve/adapter/creator/ExpandableCreator.kt:200 | the header test holds for creator type 17318417, but only because `shl 8` wraps around |
| Findings.IsParentViewTypeFixed | recurve-module-adapter/src/main/java/com/recurve/adapter/creator/ExpandableCreator.kt:200 | the corrected test (compare with `1 shl 8`) throws exactly for creator type 0 |
| Findings.FixedTestSeparatesTags | recurve-module-adapter/src/main/java/com/recurve/adapter/creator/ExpandableCreator.kt:200 | the corrected test is true for the header tag and false for the child tag |

## Left out

- View binding: `onCreateItemBinding`, `onBindItemView`, the parent/child
  binding callbacks and the click listeners and their setters are UI code on
  Android types (`View`, `ViewGroup`, `ViewDataBinding`, `RecurveViewHolder`).
  Of that code, only the header test they share is modelled (`IsParentViewType`).
- `getSpan` returns the host constant `WRAP`, and `getCreatorType` is a plain
  getter (the field `creatorType` is public in the model).
- `onBindCreator` and the `lateinit` adapter: the adapter is taken to be bound.
  Its `notifyModules*` calls are recorded in `log` and nothing else about
  the adapter is modelled.
- Aliasing: the model treats child lists as values. `setDataList` adopting
  the caller's map, and `getData` handing out a shallow copy whose lists are
  shared with the creator, are not modelled.
- Keys: nullable `Parent` keys and the JVM `equals`/`hashCode` behind
  `LinkedHashMap` are not modelled. Keys compare with Dafny equality, and so
  do child values where `indexOf` (ExpandableCreator.kt:311) and
  `remove(element)` (ExpandableCreator.kt:145) call `equals` (`IndexOf`,
  `RemoveFirst`).
- `RealSetParentItem`: `result?.toList()` copies the displaced list. The copy
  is not modelled because with the guard as written the result is always null.
- Integer width of positions and counts: row positions, counts and offsets
  are unbounded integers. Maps with more than `Int.MAX_VALUE` rows are out of
  scope. Only the view-type arithmetic models 32-bit wrap-around.
- Creator.ExpandableCreator.constructor: the `@JvmOverloads` default
  `creatorType = 0` (ExpandableCreator.kt:31) is not a separate constructor.
  Callers pass the type, and passing 0 gives the same creator. With type 0 the
  header test divides by zero (`IsParentViewType` returns `Arithmetic`).
- Concurrency: the creator is single-threaded, and the model is sequential.

## Findings

| source | as written | input that shows it | evidently intended | confidence | as-written member | corrected member |
|---|---|---|---|---|---|---|
| recurve-module-adapter/src/main/java/com/recurve/adapter/creator/ExpandableCreator.kt:261 | `return@forEach` skips the matching entry and the loop goes on, so `getParentPositionInCreator` also counts the groups after the key | two empty groups `1` and `2`: the position of `1` is 1, although its header is row 0 | stop at the key and return its header row | high (proved; not executed) | Findings.ParentPositionOvershoots | Findings.HeaderPositionByLoop |
| recurve-module-adapter/src/main/java/com/recurve/adapter/creator/ExpandableCreator.kt:227 | `if (dataMap.size < parentPosition)` guards the rebuild, so every index up to and including the size throws, negative ones too, and only an index above the size rebuilds the map, unchanged | one group `1`; `setParentItem(0, 2)` throws IndexOutOfBoundsException | throw only for indices outside `[0, size)` and splice the key in at the index | high (proved; not executed) | Findings.SetFirstParentThrows | Findings.SetParentCheckedSplices |
| recurve-module-adapter/src/main/java/com/recurve/adapter/creator/ExpandableCreator.kt:200 | `viewType / creatorType == ITEM_TYPE_PARENT` compares with 8, but a header tag divided by its creator type is 256. `onCreateItemBinding` (line 203) gives header rows a child binding, and `onBindItemView` (line 208) sends them down the child branch, where `getChild` computes offset -1 and the list access throws IndexOutOfBoundsException (lines 290-291). Creator type 0 throws ArithmeticException on every bind | creator type 1: the header tag 256 gives 256 / 1 = 256, not 8, so the test fails | compare with `1 shl ITEM_TYPE_PARENT` | high (proved; not executed) | Findings.ParentTestMissesTags | Findings.FixedTestSeparatesTags |
