# useDraggable, modelled in Dafny

This project models the core of vue-draggable-plus. The composable `useDraggable` binds one
SortableJS instance to a DOM element and keeps a backing list in step with the drags
SortableJS performs. The project models that composable together with the contracts of the
utilities it relies on.

- `wrappers.dfy` (module `Wrappers`): `Option`.
- `js_values.dfy` (module `JsValues`): the JavaScript values the composable handles.
  - `Value` covers undefined, null, booleans, numbers, strings, objects and functions.
  - `Truthy` is JavaScript truthiness.
  - `Invoke` gives the trace of callbacks that calling a function value runs, and whether the call throws. Whether a primitive callback throws depends on the state it runs in, so `Invoke` takes the set `failing` of callbacks that throw in that state.
- `utils.dfy` (module `Utils`): the utilities of `dist/utils/index.d.ts`.
  - Array helpers: the pure sequence functions `Inserted`, `Removed` and `Moved`, which follow `Array.prototype.splice` index rules, plus `JsArray` methods that change an array in place.
  - DOM helpers: the DOM is a map from each container to its children. `Dom` is the mutable document; `removeNode` and `insertNodeAt` are methods on it.
  - String and option helpers: `camelize`, `objectMap`, `isUndefined`, `isString`, `mergeExecuted` and `mergeOptionsEvents`.
- `reconcile.dfy` (module `Reconcile`): what the four injected handlers (`onStart`, `onAdd`, `onRemove`, `onUpdate`) do to a `Scene`.
  - A `Scene` holds the list contents, the DOM and the value stashed on each node under the controller's clone key.
  - Properties of the handlers, including whole cross-list drags, are proved here.
- `use_draggable.dfy` (module `UseDraggable`): the controller.
  - `Sortable` is the opaque instance handle: an `alive` flag, a save counter and an `OptionStore`. The `OptionStore` is the instance's option table together with the log of `option` calls made on it.
  - `MergeOptions` and its lemmas.
  - `Draggable` is the closure one call of `useDraggable` creates. Its methods change the DOM and the list in place. Each is proved to produce exactly the `Scene` the matching `Reconcile` function describes.
  - Its lifecycle methods keep the invariant `Valid()`: at most one created instance is alive, it is the one `instance` holds, and creations equal destructions plus the live instance.

The ref-backed and plain-array paths of `onUpdate` are one method. Its postcondition gives the
same `Scene` for both: the ref path copies the array and reassigns the ref, leaving the old array
untouched; the plain path moves in place.

## Model

| member | source | states |
|---|---|---|
| Utils.SpliceStart | dist/utils/index.d.ts:14-27 | the index an array helper acts at, as `splice` computes it: in range it is the given index, past the end it is the length, a negative index counts from the end, and any index before the start gives 0 |
| Utils.Inserted | dist/utils/index.d.ts:21-27 | inserting grows the array by one: the element sits at the normalised index, earlier elements stay, later ones shift up by one |
| Utils.InsertedElements | dist/utils/index.d.ts:21-27 | insertion adds exactly the inserted element to the multiset of elements |
| Utils.Removed | dist/utils/index.d.ts:14-20 | removing at an index in range shrinks the array by one, keeps earlier elements and shifts later ones down; out of range the array is unchanged |
| Utils.RemovedElements | dist/utils/index.d.ts:14-20 | removal takes exactly the element at the index out of the multiset |
| Utils.InsertedThenRemoved | dist/utils/index.d.ts:14-27 | removing at the index just inserted at gives back the original array |
| Utils.RemovedThenInserted | dist/utils/index.d.ts:14-27 | reinserting a removed element at its index gives back the original array |
| Utils.InsertElement | dist/utils/index.d.ts:21-27 | insertElement changes the array in place to the inserted sequence; without an array it does nothing and returns undefined |
| Utils.RemoveElement | dist/utils/index.d.ts:14-20 | removeElement changes the array in place to the removed sequence and returns splice's result: a one-element array holding the removed element, or an empty array when the index is out of range; without an array it returns undefined |
| Utils.MoveArrayElement | dist/utils/index.d.ts:1 | moveArrayElement moves the element in place from `from` to `to` and returns the same array |
| Utils.Moved | dist/utils/index.d.ts:1 | a move keeps the length, and with either index out of range the array is unchanged |
| Utils.MovedAt | dist/utils/index.d.ts:1 | every position of the moved array holds the element of the original position it came from |
| Utils.MovedKeepsElements | dist/utils/index.d.ts:1 | a move keeps the multiset of elements |
| Utils.MovedSpec | dist/utils/index.d.ts:1 | a move keeps length and multiset, puts the element at `to`, leaves positions outside the range alone and shifts the ones between |
| Utils.MovedInverse | dist/utils/index.d.ts:1 | moving back from `to` to `from` restores the array |
| Utils.Detached | dist/utils/index.d.ts:47-51 | a detached node is taken out of every container, and nothing else changes |
| Utils.DetachedRemoves | dist/utils/index.d.ts:47-51 | after removeNode, a container holds exactly its old children other than the node |
| Utils.DetachedKeepsForest | dist/utils/index.d.ts:47-51 | removeNode keeps the DOM a forest: no duplicate children, at most one parent per node |
| Utils.InsertedNode | dist/utils/index.d.ts:40-46 | insertNodeAt takes the node out of its old place and puts it among the parent's children at the index, or last when the index is out of range |
| Utils.InsertedNodeKeepsForest | dist/utils/index.d.ts:40-46 | insertNodeAt keeps the DOM a forest, and the node ends up in the given parent only |
| Utils.InsertThenDetach | dist/utils/index.d.ts:40-51 | putting the item back where a copy stands, then removing the copy, leaves the item in the copy's place |
| Utils.DetachThenReinsert | dist/utils/index.d.ts:40-51 | removing a moved node and reinserting it at its old index restores the original children |
| Utils.RemoveNode | dist/utils/index.d.ts:47-51 | removeNode changes the document to the detached DOM, keeps it a forest and leaves stashed values alone |
| Utils.InsertNodeAt | dist/utils/index.d.ts:40-46 | insertNodeAt changes the document to the inserted DOM, keeps it a forest and leaves stashed values alone |
| Utils.Camelize | dist/utils/index.d.ts:2-7 | camelize never lengthens a string, keeps a non-empty string non-empty, keeps a leading lower-case letter, and a lower-case first character of the result is the input's first character |
| Utils.CamelizeWithoutHyphen | dist/utils/index.d.ts:2-7 | a string without hyphens comes back unchanged |
| Utils.CamelizeJoin | dist/utils/index.d.ts:2-7 | `word-cTail` becomes `wordCTail`: the hyphen is dropped and the next character upper-cased |
| Utils.CamelizeLeavesNoHyphenLower | dist/utils/index.d.ts:2-7 | no hyphen followed by a lower-case letter survives camelize |
| Utils.ObjectMap | dist/utils/index.d.ts:8-13 | the keys of objectMap's result are exactly the camelized keys of the object |
| Utils.ObjectMapValue | dist/utils/index.d.ts:8-13 | each value is found under its camelized key, unless a later key camelizes alike |
| Utils.IsUndefined | dist/utils/index.d.ts:28-33 | isUndefined is true exactly for undefined |
| Utils.IsString | dist/utils/index.d.ts:34-39 | isString is true exactly for strings |
| Utils.MergeExecuted | dist/utils/index.d.ts:59-66 | in every state, calling the merged function runs `fn` and then `afterFn`; it stops when `fn` throws |
| Utils.MergeExecutedAssociative | dist/utils/index.d.ts:59-66 | in every state, merging three functions gives the same run however the merges are grouped |
| Utils.MergeOptionsEvents | dist/utils/index.d.ts:67-75 | the merge has the keys of both maps: a key in one map keeps its value, and a key in both gets the two functions merged, the first map's running first |
| Utils.MergeOptionsEventsIntoNothing | dist/utils/index.d.ts:67-75 | merging into an empty map gives the events unchanged |
| Reconcile.DefaultClone | src/useDraggable.ts:29-32 | undefined and null are returned as they are; every other value is replaced by its deep copy |
| Reconcile.StartAsWritten | src/useDraggable.ts:122-124 | onStart as written stashes on the dragged node the clone of the list element at the DOM index `oldIndex`, and changes nothing else |
| Reconcile.Start | src/useDraggable.ts:122-124 | onStart (corrected) stashes on the dragged node the clone of the list element at the drag index, and changes nothing else |
| Reconcile.Add | src/useDraggable.ts:130-135 | onAdd never touches the stash. With nothing stashed on the node it changes nothing. Otherwise the list gains exactly the stashed value and the dropped node is in no container |
| Reconcile.Remove | src/useDraggable.ts:141-149 | onRemove never touches the stash. In clone pull mode the list is kept and SortableJS's copy is in no container. Otherwise the DOM is kept and the list loses exactly the element at oldDraggableIndex |
| Reconcile.Update | src/useDraggable.ts:160-169 | default onUpdate never touches the stash, keeps the multiset of list elements, and leaves the item in `from` |
| Reconcile.AddWithoutStashChangesNothing | src/useDraggable.ts:130-135 | onAdd with nothing stashed on the dropped node leaves list, DOM and stash unchanged |
| Reconcile.AddInsertsStashedValue | src/useDraggable.ts:130-135 | onAdd grows the list by exactly the stashed value at newDraggableIndex, with the others in order; the dropped node leaves the DOM, and the stash is not cleared |
| Reconcile.RemoveInCloneModeRestoresOrigin | src/useDraggable.ts:141-149 | onRemove in clone pull mode keeps the list, gives `from` back exactly its original children and leaves the library's copy in no container |
| Reconcile.RemoveInMoveModeDeletes | src/useDraggable.ts:141-149 | onRemove in any other pull mode deletes exactly the element at oldDraggableIndex and leaves the DOM alone |
| Reconcile.UpdateMovesElementAndUndoesDomMove | src/useDraggable.ts:160-169 | default onUpdate keeps length and multiset, puts the element from oldDraggableIndex at newDraggableIndex, and undoes the library's DOM move |
| Reconcile.TransferBetweenLists | src/useDraggable.ts:122-149 | a move-mode drag from list a to list b, in SortableJS's order (onStart on a; on the drop, onAdd on b, then onRemove on a): a loses the dragged element, b gains its clone at the drop index, and the dragged node is left in no container |
| Reconcile.CopyBetweenLists | src/useDraggable.ts:122-149 | a clone-mode drag in the same order leaves a unchanged and gives b the clone at the drop index. In the DOM, `from` gets back exactly its original children, SortableJS's copy is in no container, and the item is under `from` only |
| Reconcile.StartAsWrittenTransfersWrongElement | src/useDraggable.ts:122-124 | with onStart as written and a non-draggable first child, a drag in SortableJS's order (onStart, onAdd on the destination, onRemove on the origin) makes the origin lose "A" while the destination receives "B" |
| Reconcile.ExampleUpdateDrag | src/useDraggable.ts:160-169 | dragging A from 0 to 2 in [A, B, C] gives [B, C, A] |
| Reconcile.ExampleAddDrag | src/useDraggable.ts:130-135 | dropping a node stashed with C into [A, B] at 1 gives [A, C, B] |
| UseDraggable.MergeOptions | src/useDraggable.ts:195-202 | mergeOptions has exactly the preset handler keys (with a list) and the caller's keys other than `immediate` and `clone` |
| UseDraggable.MergeOptionsForwardsAllButInternalKeys | src/useDraggable.ts:195-202 | mergeOptions never forwards `immediate` or `clone`, and forwards every other option the caller set |
| UseDraggable.MergeOptionsWithoutListInjectsNothing | src/useDraggable.ts:195-202 | without a list the instance gets exactly the caller's options: no handler is injected, so nothing can touch a list |
| UseDraggable.PresetHandler | src/useDraggable.ts:173-178 | the preset option for each of the four events is a function that runs that event's reconciliation handler, and throws exactly when that handler throws |
| UseDraggable.MergedHandler | src/useDraggable.ts:173-202 | one event's merged handler runs the preset first. When the preset throws, the call ends there and the caller's handler never runs. Otherwise the caller's handler for that event runs next and the call throws exactly when it does; without one the call does not throw |
| UseDraggable.MergeOptionsWithListRunsPresetFirst | src/useDraggable.ts:174-202 | with a list, every event handler first runs the reconciliation handler. If that throws (onUpdate with a ref holding no array), nothing else runs. Otherwise the caller's handler for the event runs next and decides whether the call throws; without one the call does not throw. Other options pass through unchanged |
| UseDraggable.OptionsOf | src/useDraggable.ts:104-109 | the options are the third argument when the second holds an array; otherwise they are the second argument, or undefined when that is a ref to no array |
| UseDraggable.OptionOr | src/useDraggable.ts:112-116 | a destructured option is the caller's value when it is defined, and the default otherwise |
| UseDraggable.BindingOf | src/useDraggable.ts:106-109 | the list is bound exactly when the second argument holds an array |
| UseDraggable.Draggable.constructor | src/useDraggable.ts:101-116 | normalises the arguments, reads `immediate` (default true), `clone` (default defaultClone) and `customUpdate` once, and starts at once when there is no component. The caller's clone function is given exactly when the options set `clone` |
| UseDraggable.Draggable.OnStart | src/useDraggable.ts:122-124 | the corrected onStart: the stash write in place gives exactly the Scene of Reconcile.Start, which reads the list at oldDraggableIndex where the source reads oldIndex |
| UseDraggable.Draggable.OnAdd | src/useDraggable.ts:130-135 | the in-place DOM and array edits give exactly the Scene of Reconcile.Add, on the same array |
| UseDraggable.Draggable.OnRemove | src/useDraggable.ts:141-149 | the in-place DOM and array edits give exactly the Scene of Reconcile.Remove, on the same array |
| UseDraggable.Draggable.OnUpdate | src/useDraggable.ts:155-169 | with customUpdate it only hands the event on, changing nothing. Otherwise both the ref path and the plain path give the Scene of Reconcile.Update. The ref path assigns a fresh array and leaves the old one as it was; spreading an undefined ref throws |
| UseDraggable.Draggable.Start | src/useDraggable.ts:204-209 | start destroys any live instance, then creates one on the resolved element with the merged options; with no element none is created; at most one instance is ever alive |
| UseDraggable.Draggable.Destroy | src/useDraggable.ts:228-231 | destroy kills the live instance and forgets it; with none it changes nothing, so a second call is a no-op |
| UseDraggable.Draggable.Option | src/useDraggable.ts:224-227 | option reads or sets the live instance's option; with no instance it returns undefined and changes nothing |
| UseDraggable.Draggable.Pause | src/useDraggable.ts:240 | pause sets `disabled` to true on the live instance, and does nothing without one |
| UseDraggable.Draggable.Resume | src/useDraggable.ts:241 | resume sets `disabled` to false on the live instance, and does nothing without one |
| UseDraggable.Draggable.Save | src/useDraggable.ts:232 | save counts one more save on the live instance and does nothing without one |
| UseDraggable.Draggable.ToArray | src/useDraggable.ts:233 | toArray gives the instance's answer, or undefined without an instance |
| UseDraggable.Draggable.Closest | src/useDraggable.ts:234-237 | closest gives the instance's answer, or undefined without an instance |
| UseDraggable.Draggable.SetOptions | src/useDraggable.ts:211-213 | the caller changing the watched options: the new value is what the next merge reads, and no instance is created or destroyed |
| UseDraggable.Draggable.OptionsChanged | src/useDraggable.ts:211-221 | the watcher callback does nothing without an instance. Otherwise it calls option(key, value) exactly once per key of the options merged from the current options, and no other. The instance then holds the defined merged values on top of its old options. It never creates or destroys an instance |
| UseDraggable.ApplyMerged | src/useDraggable.ts:214-219 | the loop over the merged keys appends one option call per key to the log and leaves the option table holding the defined merged values on top of the old ones |
| UseDraggable.Draggable.Mounted | src/useDraggable.ts:243-245 | with a component and a truthy `immediate`, the mount hook runs start: it destroys the live instance, then creates a fresh instance bound to `el` with the merged options, the host's answers and an empty option-call log, or none when `el` does not resolve. Otherwise it does nothing |
| UseDraggable.Draggable.Unmounted | src/useDraggable.ts:247 | the unmount hook destroys the instance when there is a component |
| UseDraggable.DestroyThenQuery | src/useDraggable.ts:223-241 | destroy twice, then pause, then toArray: no instance is left, exactly one destruction is counted, and toArray gives undefined |

## Left out

- SortableJS itself is not modelled (hit-testing, animation, gesture dispatch, constructor internals). An instance is an opaque handle: an option table with a log of `option` calls, an alive flag and a save counter. Its answers to `toArray` and `closest` are a given function.
- Vue reactivity is not modelled: `watch` with `deep: true`, `onMounted`, `onUnmounted`, `getCurrentInstance`, `unref` and `isRef`. A change to the options is the method `SetOptions`; the watcher's callback is the method `OptionsChanged`, run after it. Whether there is a component is a boolean. A ref is a `ListRef` object whose value is an array or absent.
- The JSON round trip in `defaultClone` is not modelled. The deep copy is a function parameter; only the `null`/`undefined` passthrough is fixed.
- Element lookup is not modelled: `getTarget`, `getElementBySelector`, `isHTMLElement`, the `.$el` fallback and the error log. The element `el` resolves to is a parameter (`Option<NodeId>`).
- UseDraggable.Draggable.Start: when no element resolves, the source only logs an error. It still destroys the live instance and then passes `undefined` to the SortableJS constructor. The model destroys the instance, creates no new one and reports `notFound`. It does not model what the SortableJS constructor does with a missing element.
- UseDraggable.Draggable.constructor: an exception thrown by the immediate `start()` is not propagated out of the constructor.
- `dist/utils/index.d.ts` has declarations and doc comments only. The bodies of the array and DOM helpers are modelled from those comments and from how `useDraggable` calls them:
  - array indices follow `Array.prototype.splice`;
  - `moveArrayElement` moves only when both indices are in range;
  - `insertNodeAt` appends when the index is past the end;
  - `insertNodeAt` ignores the reference-node subtlety of `insertBefore` and never raises `HierarchyRequestError`.
- `getElementBySelector`, `isHTMLElement`, `forEachObject` and the log module are not part of this model. `forEachObject` is modelled only as the watcher's loop over the merged keys.
- UseDraggable.Draggable.Start: `el` is resolved once, when the controller is built. The source re-reads `unref(el)` on every `start()`, so a ref that later points elsewhere is not modelled.
- `dist/utils/index.d.ts` does not fix the string and option helpers' bodies either. The model assumes:
  - `camelize` follows the rule `/-(\w)/g`: a hyphen followed by a word character, scanned left to right;
  - `objectMap` lets the last of several keys that camelize alike win;
  - `mergeOptionsEvents` composes with `mergeExecuted` whenever both maps hold a key, the first map's function running first.
- JavaScript numbers are integers here. Event indices are always present: the `!` assertions in the source are taken at their word.
- An `options` value that is not an object, such as a string or an array, contributes no keys.
- UseDraggable.MergedHandler: which reconciliation handlers throw is the parameter `failing`; it is not derived from the controller's state. `Draggable.OnUpdate`'s `threw` result is the condition under which the onUpdate preset belongs to `failing`.
- UseDraggable.Draggable.OnStart: a `clone` function that throws is not modelled; clone is a total function here, so onStart never throws.
- Utils.MergeExecuted: the `ctx` (`this`) argument and the call arguments are not modelled. Only which callbacks run, in what order, and whether the call throws.
- UseDraggable.Draggable.OnUpdate: a truthy `customUpdate` that is not a function is modelled as a throw; what the caller's function does is not modelled.
- Reconcile.AddInsertsStashedValue: the stash is never cleared after `onAdd`, as the source has it. So "a stashed clone is consumed exactly once" is not a property of this model.
- dist/useDraggable.d.ts and dist/directive.d.ts are declaration-only and not part of this model.

## Findings

| source | as written | input that shows it | evidently intended | confidence | as-written member | corrected member |
|---|---|---|---|---|---|---|
| src/useDraggable.ts:123 | `onStart` reads the list at `evt.oldIndex`, the item's index among all children of the container. `onRemove` and `onUpdate` index the same list with `oldDraggableIndex`. | The list is [A, B] and the container's children are [header, A, B] with a non-draggable header. Dragging A gives oldIndex 1 and oldDraggableIndex 0. onStart stashes a clone of B; onAdd inserts B into the destination, then onRemove deletes A from the origin. The origin keeps [B] and the destination receives B. | onStart clones the element at `oldDraggableIndex`, the element actually dragged | medium; not executed | Reconcile.StartAsWrittenTransfersWrongElement | Reconcile.TransferBetweenLists, UseDraggable.Draggable.OnStart |
