/**
 * The reconciliation half of useDraggable (src/useDraggable.ts): what each of the four
 * injected SortableJS handlers does to the backing list, the DOM and the value stashed on
 * the dragged node, stated as functions on a `Scene`. The controller class in module
 * UseDraggable performs these changes in place and is proved to match them.
 */
module Reconcile {
  import opened Wrappers
  import opened JsValues
  import opened Utils

  /** The fields of a SortableJS event that the handlers read. */
  datatype SortableEvent = SortableEvent(
    oldIndex: int,            // the item's index among all children of `from` (a DOM index)
    oldDraggableIndex: int,   // its index among the draggable children: the index into the list
    newDraggableIndex: int,   // the draggable index it was dropped at
    pullMode: Value,          // the group's pull mode; the string 'clone' when copying out
    from: NodeId,             // the container the item was dragged from
    item: NodeId,             // the dragged node
    clone: NodeId)            // the copy SortableJS leaves behind in clone pull mode

  /**
   * What the handlers see and change: the contents of the backing list (None when
   * `unref(list)` is not an array), every element's children, and the value each node
   * holds under the controller's private clone key.
   */
  datatype Scene = Scene(list: Option<seq<Value>>, children: Children, stash: map<NodeId, Value>)

  /** `node[CLONE_ELEMENT_KEY]`: undefined when nothing was stashed. */
  function Stashed(stash: map<NodeId, Value>, node: NodeId): Value {
    if node in stash then stash[node] else Undefined
  }

  /** `unref(list)?.[i]`: undefined without a list or outside it. */
  function ElementAt(list: Option<seq<Value>>, i: int): Value {
    if list.Some? && 0 <= i < |list.value| then list.value[i] else Undefined
  }

  /**
   * defaultClone: `undefined` and `null` come back as they are; anything else is replaced
   * by a deep copy, produced here by `deepCopy`.
   */
  function DefaultClone(element: Value, deepCopy: Value -> Value): (r: Value)
    ensures element == Undefined || element == Null ==> r == element
    ensures element != Undefined && element != Null ==> r == deepCopy(element)
  {
    if element == Undefined || element == Null then element else deepCopy(element)
  }

  // Lifting the array helpers to a list that may be absent (insertElement and
  // removeElement do nothing without an array).

  function InsertInto(list: Option<seq<Value>>, index: int, x: Value): Option<seq<Value>> {
    if list.Some? then Some(Inserted(list.value, index, x)) else None
  }

  function RemoveFrom(list: Option<seq<Value>>, index: int): Option<seq<Value>> {
    if list.Some? then Some(Removed(list.value, index)) else None
  }

  function MoveWithin(list: Option<seq<Value>>, from: int, to: int): Option<seq<Value>> {
    if list.Some? then Some(Moved(list.value, from, to)) else None
  }

  /** onStart as written: stashes a clone of the list element at the DOM index `oldIndex`. */
  function StartAsWritten(sc: Scene, evt: SortableEvent, clone: Value -> Value): (r: Scene)
    ensures r.list == sc.list && r.children == sc.children
    ensures Stashed(r.stash, evt.item) == clone(ElementAt(sc.list, evt.oldIndex))
    ensures forall n :: n != evt.item ==> Stashed(r.stash, n) == Stashed(sc.stash, n)
  {
    sc.(stash := sc.stash[evt.item := clone(ElementAt(sc.list, evt.oldIndex))])
  }

  /** onStart: stashes on the dragged node a clone of the list element being dragged. */
  function Start(sc: Scene, evt: SortableEvent, clone: Value -> Value): (r: Scene)
    ensures r.list == sc.list && r.children == sc.children
    ensures Stashed(r.stash, evt.item) == clone(ElementAt(sc.list, evt.oldDraggableIndex))
    ensures forall n :: n != evt.item ==> Stashed(r.stash, n) == Stashed(sc.stash, n)
  {
    sc.(stash := sc.stash[evt.item := clone(ElementAt(sc.list, evt.oldDraggableIndex))])
  }

  /**
   * onAdd: when a value was stashed on the dropped node, take that node out of the DOM and
   * insert the value into the list at `newDraggableIndex`; otherwise do nothing.
   */
  function Add(sc: Scene, evt: SortableEvent): (r: Scene)
    ensures r.stash == sc.stash
    ensures Stashed(sc.stash, evt.item) == Undefined ==> r == sc
    ensures Stashed(sc.stash, evt.item) != Undefined ==>
      && (r.list.Some? <==> sc.list.Some?)
      && (sc.list.Some? ==>
            multiset(r.list.value) == multiset(sc.list.value) + multiset{Stashed(sc.stash, evt.item)})
      && (forall p :: evt.item !in ChildrenOf(r.children, p))
  {
    var element := Stashed(sc.stash, evt.item);
    if IsUndefined(element) then sc
    else
      DetachedRemoves(sc.children, evt.item);
      if sc.list.Some? then
        InsertedElements(sc.list.value, evt.newDraggableIndex, element);
        Scene(InsertInto(sc.list, evt.newDraggableIndex, element), Detached(sc.children, evt.item), sc.stash)
      else
        Scene(None, Detached(sc.children, evt.item), sc.stash)
  }

  /**
   * onRemove: in clone pull mode put the item back into `from` at `oldIndex` and take
   * SortableJS's copy out of the DOM; otherwise delete the element at `oldDraggableIndex`.
   */
  function Remove(sc: Scene, evt: SortableEvent): (r: Scene)
    ensures r.stash == sc.stash
    ensures evt.pullMode == Str("clone") ==>
      r.list == sc.list && forall p :: evt.clone !in ChildrenOf(r.children, p)
    ensures evt.pullMode != Str("clone") ==>
      && r.children == sc.children
      && (r.list.Some? <==> sc.list.Some?)
      && (sc.list.Some? && 0 <= evt.oldDraggableIndex < |sc.list.value| ==>
            multiset(r.list.value) + multiset{sc.list.value[evt.oldDraggableIndex]} == multiset(sc.list.value))
  {
    if evt.pullMode == Str("clone") then
      DetachedRemoves(InsertedNode(sc.children, evt.from, evt.item, evt.oldIndex), evt.clone);
      sc.(children := Detached(InsertedNode(sc.children, evt.from, evt.item, evt.oldIndex), evt.clone))
    else if sc.list.Some? && 0 <= evt.oldDraggableIndex < |sc.list.value| then
      RemovedElements(sc.list.value, evt.oldDraggableIndex);
      sc.(list := RemoveFrom(sc.list, evt.oldDraggableIndex))
    else
      sc.(list := RemoveFrom(sc.list, evt.oldDraggableIndex))
  }

  /**
   * onUpdate without customUpdate: put the item back at `oldIndex` in `from` and move the
   * list element from `oldDraggableIndex` to `newDraggableIndex`.
   */
  function Update(sc: Scene, evt: SortableEvent): (r: Scene)
    ensures r.stash == sc.stash
    ensures (r.list.Some? <==> sc.list.Some?)
    ensures sc.list.Some? ==> multiset(r.list.value) == multiset(sc.list.value)
    ensures evt.item in ChildrenOf(r.children, evt.from)
  {
    var dom := InsertedNode(Detached(sc.children, evt.item), evt.from, evt.item, evt.oldIndex);
    if sc.list.Some? then
      MovedKeepsElements(sc.list.value, evt.oldDraggableIndex, evt.newDraggableIndex);
      Scene(MoveWithin(sc.list, evt.oldDraggableIndex, evt.newDraggableIndex), dom, sc.stash)
    else
      Scene(None, dom, sc.stash)
  }

  // ---------------------------------------------------------------------------
  // Properties of the handlers
  // ---------------------------------------------------------------------------

  /** onAdd with nothing stashed on the node changes nothing. */
  lemma AddWithoutStashChangesNothing(sc: Scene, evt: SortableEvent)
    requires Stashed(sc.stash, evt.item) == Undefined
    ensures Add(sc, evt) == sc
  {
  }

  /**
   * onAdd with a stashed value: the list grows by exactly that value at
   * `newDraggableIndex`, the others keep their order, the dropped node leaves the DOM, and
   * the stash still holds the value (it is not cleared).
   */
  lemma AddInsertsStashedValue(sc: Scene, evt: SortableEvent, s: seq<Value>)
    requires sc.list == Some(s) && 0 <= evt.newDraggableIndex <= |s|
    requires Stashed(sc.stash, evt.item) != Undefined
    ensures var r := Add(sc, evt); var k := evt.newDraggableIndex;
      && r.list.Some?
      && |r.list.value| == |s| + 1
      && r.list.value == s[..k] + [Stashed(sc.stash, evt.item)] + s[k..]
      && multiset(r.list.value) == multiset(s) + multiset{Stashed(sc.stash, evt.item)}
      && (forall p :: evt.item !in ChildrenOf(r.children, p))
      && r.stash == sc.stash
  {
    var r := Add(sc, evt);
    var k := evt.newDraggableIndex;
    var x := Stashed(sc.stash, evt.item);
    InsertedElements(s, k, x);
    DetachedRemoves(sc.children, evt.item);
    assert r.list.value == s[..k] + [x] + s[k..];
  }

  /**
   * onRemove in clone pull mode (what SortableJS left: the item dragged away and its copy
   * standing at `oldIndex` in `from`): the list is unchanged, `from` gets back exactly its
   * original children, and the copy is in no container.
   */
  lemma RemoveInCloneModeRestoresOrigin(sc: Scene, evt: SortableEvent, original: seq<NodeId>)
    requires evt.pullMode == Str("clone")
    requires NoDup(original) && 0 <= evt.oldIndex < |original| && original[evt.oldIndex] == evt.item
    requires evt.clone !in original
    requires ChildrenOf(sc.children, evt.from)
      == original[..evt.oldIndex] + [evt.clone] + original[evt.oldIndex + 1..]
    ensures var r := Remove(sc, evt);
      && r.list == sc.list
      && ChildrenOf(r.children, evt.from) == original
      && (forall p :: evt.clone !in ChildrenOf(r.children, p))
  {
    var k := evt.oldIndex;
    var left, right := original[..k], original[k + 1..];
    assert original == left + [evt.item] + right;
    RemovedExcludes(original, k);
    assert SpliceStart(|original|, k) == k;
    assert Removed(original, k) == left + right;
    InSlices(original, k, evt.clone);
    InSlices(original, k + 1, evt.clone);
    InsertThenDetach(sc.children, evt.from, evt.item, evt.clone, left, right);
    DetachedRemoves(InsertedNode(sc.children, evt.from, evt.item, k), evt.clone);
  }

  /** onRemove in any other pull mode: the list loses exactly the element at `oldDraggableIndex`; the DOM is untouched. */
  lemma RemoveInMoveModeDeletes(sc: Scene, evt: SortableEvent, s: seq<Value>)
    requires evt.pullMode != Str("clone")
    requires sc.list == Some(s) && 0 <= evt.oldDraggableIndex < |s|
    ensures var r := Remove(sc, evt); var k := evt.oldDraggableIndex;
      && r.list == Some(s[..k] + s[k + 1..])
      && multiset(r.list.value) + multiset{s[k]} == multiset(s)
      && r.children == sc.children && r.stash == sc.stash
  {
    var k := evt.oldDraggableIndex;
    RemovedElements(s, k);
    assert Removed(s, k) == s[..k] + s[k + 1..];
  }

  /**
   * Default onUpdate: the list keeps its length and elements and the element at
   * `oldDraggableIndex` lands at `newDraggableIndex`; and when SortableJS had moved the item
   * from `oldIndex` to `newIndex` in `from`, the DOM move is undone.
   */
  lemma UpdateMovesElementAndUndoesDomMove(sc: Scene, evt: SortableEvent, s: seq<Value>, original: seq<NodeId>, newIndex: int)
    requires sc.list == Some(s)
    requires 0 <= evt.oldDraggableIndex < |s| && 0 <= evt.newDraggableIndex < |s|
    requires NoDup(original) && 0 <= evt.oldIndex < |original| && 0 <= newIndex < |original|
    requires original[evt.oldIndex] == evt.item
    requires ChildrenOf(sc.children, evt.from) == Moved(original, evt.oldIndex, newIndex)
    ensures var r := Update(sc, evt);
      && r.list.Some?
      && |r.list.value| == |s|
      && multiset(r.list.value) == multiset(s)
      && r.list.value[evt.newDraggableIndex] == s[evt.oldDraggableIndex]
      && ChildrenOf(r.children, evt.from) == original
  {
    MovedSpec(s, evt.oldDraggableIndex, evt.newDraggableIndex);
    DetachThenReinsert(sc.children, evt.from, original, evt.oldIndex, newIndex);
  }

  /**
   * A drag from list `a` into list `b` in move pull mode. SortableJS fires onStart on `a`,
   * then, on the drop, onAdd on `b` before onRemove on `a`; the stash is shared through the
   * dragged node and `dropped` is the DOM as SortableJS leaves it. `a` loses the element at
   * the drag index, `b` gains its clone at the drop index, and the dragged node is left in
   * no container (the view re-renders it from the list).
   */
  lemma TransferBetweenLists(a: seq<Value>, b: seq<Value>, children: Children, stash: map<NodeId, Value>,
                             clone: Value -> Value, start: SortableEvent, add: SortableEvent, remove: SortableEvent,
                             dropped: Children)
    requires 0 <= start.oldDraggableIndex < |a| && 0 <= add.newDraggableIndex <= |b|
    requires remove.pullMode != Str("clone") && remove.oldDraggableIndex == start.oldDraggableIndex
    requires add.item == start.item
    requires clone(a[start.oldDraggableIndex]) != Undefined
    ensures var s1 := Start(Scene(Some(a), children, stash), start, clone);
      var s2 := Add(Scene(Some(b), dropped, s1.stash), add);
      var s3 := Remove(s1.(children := s2.children, stash := s2.stash), remove);
      var i, k := start.oldDraggableIndex, add.newDraggableIndex;
      && s2.list == Some(b[..k] + [clone(a[i])] + b[k..])
      && s3.list == Some(a[..i] + a[i + 1..])
      && (forall p :: start.item !in ChildrenOf(s3.children, p))
  {
    var i := start.oldDraggableIndex;
    var s1 := Start(Scene(Some(a), children, stash), start, clone);
    assert Stashed(s1.stash, add.item) == clone(a[i]);
    AddInsertsStashedValue(Scene(Some(b), dropped, s1.stash), add, b);
    var s2 := Add(Scene(Some(b), dropped, s1.stash), add);
    RemoveInMoveModeDeletes(s1.(children := s2.children, stash := s2.stash), remove, a);
  }

  /**
   * The same drag in clone pull mode, with SortableJS's copy `remove.clone` standing in the
   * item's place in `from` when the drop fires onAdd on `b` and then onRemove on `a`. `a`
   * keeps every element and `b` gains the clone; in the DOM, `from` gets back exactly its
   * original children, the copy is in no container, and the item is under `from` only.
   */
  lemma CopyBetweenLists(a: seq<Value>, b: seq<Value>, children: Children, stash: map<NodeId, Value>,
                         clone: Value -> Value, start: SortableEvent, add: SortableEvent, remove: SortableEvent,
                         dropped: Children, original: seq<NodeId>)
    requires 0 <= start.oldDraggableIndex < |a| && 0 <= add.newDraggableIndex <= |b|
    requires remove.pullMode == Str("clone")
    requires add.item == start.item && remove.item == start.item
    requires clone(a[start.oldDraggableIndex]) != Undefined
    requires NoDup(original) && 0 <= remove.oldIndex < |original| && original[remove.oldIndex] == remove.item
    requires remove.clone !in original
    requires ChildrenOf(dropped, remove.from)
      == original[..remove.oldIndex] + [remove.clone] + original[remove.oldIndex + 1..]
    ensures var s1 := Start(Scene(Some(a), children, stash), start, clone);
      var s2 := Add(Scene(Some(b), dropped, s1.stash), add);
      var s3 := Remove(s1.(children := s2.children, stash := s2.stash), remove);
      var i, k := start.oldDraggableIndex, add.newDraggableIndex;
      && s2.list == Some(b[..k] + [clone(a[i])] + b[k..])
      && s3.list == Some(a)
      && ChildrenOf(s3.children, remove.from) == original
      && (forall p :: remove.clone !in ChildrenOf(s3.children, p))
      && (forall q :: q != remove.from ==> start.item !in ChildrenOf(s3.children, q))
  {
    var i, k, item := start.oldDraggableIndex, remove.oldIndex, start.item;
    var s1 := Start(Scene(Some(a), children, stash), start, clone);
    assert Stashed(s1.stash, add.item) == clone(a[i]);
    AddInsertsStashedValue(Scene(Some(b), dropped, s1.stash), add, b);
    var s2 := Add(Scene(Some(b), dropped, s1.stash), add);
    // onAdd took the item out of the DOM; `from`, which holds the copy instead, is untouched.
    var left, right := original[..k], original[k + 1..];
    RemovedExcludes(original, k);
    assert SpliceStart(|original|, k) == k;
    assert Removed(original, k) == left + right;
    assert item !in left + [remove.clone] + right;
    WithoutAbsent(left + [remove.clone] + right, item);
    assert ChildrenOf(s2.children, remove.from) == left + [remove.clone] + right;
    var sc := s1.(children := s2.children, stash := s2.stash);
    RemoveInCloneModeRestoresOrigin(sc, remove, original);
    var s3 := Remove(sc, remove);
    var t1 := InsertedNode(s2.children, remove.from, item, k);
    forall q | q != remove.from ensures item !in ChildrenOf(s3.children, q) {
      WithoutMembers(ChildrenOf(s2.children, q), item);
      WithoutMembers(ChildrenOf(t1, q), remove.clone);
    }
  }

  /**
   * As written, onStart reads the list at the DOM index. With a non-draggable child ahead of
   * the items (here a header), a drag in SortableJS's order (onStart, onAdd on the
   * destination, onRemove on the origin) makes the origin list lose "A" while the
   * destination receives "B".
   */
  lemma StartAsWrittenTransfersWrongElement()
    ensures var a := [Str("A"), Str("B")];
      var start := SortableEvent(1, 0, 0, Bool(true), 10, 2, 3);
      var add := SortableEvent(0, 0, 0, Bool(true), 20, 2, 3);
      var id := (v: Value) => v;
      var s1 := StartAsWritten(Scene(Some(a), map[10 := [1, 2, 4]], map[]), start, id);
      var s2 := Add(Scene(Some([]), map[10 := [1, 4], 20 := [2]], s1.stash), add);
      var s3 := Remove(s1.(children := s2.children, stash := s2.stash), start);
      && s2.list == Some([Str("B")])
      && s3.list == Some([Str("B")])
  {
    var a := [Str("A"), Str("B")];
    var start := SortableEvent(1, 0, 0, Bool(true), 10, 2, 3);
    var add := SortableEvent(0, 0, 0, Bool(true), 20, 2, 3);
    var id := (v: Value) => v;
    var s1 := StartAsWritten(Scene(Some(a), map[10 := [1, 2, 4]], map[]), start, id);
    assert Stashed(s1.stash, 2) == Str("B");
    var e: seq<Value> := [];
    assert Inserted(e, 0, Str("B")) == [Str("B")];
    var s2 := Add(Scene(Some([]), map[10 := [1, 4], 20 := [2]], s1.stash), add);
    assert s2.list == Some([Str("B")]);
    assert SpliceStart(2, 0) == 0;
    assert Removed(a, 0) == [Str("B")];
  }

  /** An example drag within one list: [A, B, C] with A dragged from 0 to 2 becomes [B, C, A]. */
  lemma ExampleUpdateDrag()
    ensures Update(Scene(Some([Str("A"), Str("B"), Str("C")]), map[], map[]),
                   SortableEvent(0, 0, 2, Bool(true), 1, 2, 3)).list
            == Some([Str("B"), Str("C"), Str("A")])
  {
    var s := [Str("A"), Str("B"), Str("C")];
    MovedSpec(s, 0, 2);
    var r := Moved(s, 0, 2);
    assert r[0] == s[1] && r[1] == s[2] && r[2] == s[0];
    assert r == [Str("B"), Str("C"), Str("A")];
  }

  /** An example drop: C, stashed on the dropped node, lands in [A, B] at 1, giving [A, C, B]. */
  lemma ExampleAddDrag()
    ensures Add(Scene(Some([Str("A"), Str("B")]), map[], map[7 := Str("C")]),
                SortableEvent(0, 0, 1, Bool(true), 1, 7, 8)).list
            == Some([Str("A"), Str("C"), Str("B")])
  {
    var t := [Str("A"), Str("B")];
    assert Stashed(map[7 := Str("C")], 7) == Str("C");
    assert SpliceStart(2, 1) == 1;
    assert Inserted(t, 1, Str("C")) == [Str("A"), Str("C"), Str("B")];
  }
}
