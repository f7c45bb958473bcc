/**
 * useDraggable (src/useDraggable.ts): the controller that binds one SortableJS instance to
 * a DOM element, keeps its options current, and reconciles the backing list with the four
 * drag events. `Draggable` is the closure one call of useDraggable creates; its fields are
 * the closure's variables and its methods the functions it returns or injects. Its onStart
 * is the corrected one (Reconcile.Start): it reads the list at the drag index
 * `oldDraggableIndex`, where the source reads it at the DOM index `oldIndex`
 * (Reconcile.StartAsWritten).
 */
module UseDraggable {
  import opened Wrappers
  import opened JsValues
  import opened Utils
  import opened Reconcile

  // ---------------------------------------------------------------------------
  // Options
  // ---------------------------------------------------------------------------

  /** The option key under which SortableJS looks for the handler of an event. */
  function HandlerKey(e: EventKind): string {
    match e
    case StartEvent => "onStart"
    case AddEvent => "onAdd"
    case RemoveEvent => "onRemove"
    case UpdateEvent => "onUpdate"
  }

  /** presetOptions: the four reconciliation handlers. */
  const PresetOptions: map<string, Value> :=
    map[HandlerKey(UpdateEvent) := Func(Call(Preset(UpdateEvent))),
        HandlerKey(StartEvent) := Func(Call(Preset(StartEvent))),
        HandlerKey(AddEvent) := Func(Call(Preset(AddEvent))),
        HandlerKey(RemoveEvent) := Func(Call(Preset(RemoveEvent)))]

  /** `unref(options) ?? {}` as an object; a value that is not an object has no keys. */
  function OptionsObject(options: Value): map<string, Value> {
    if options.Obj? then options.fields else map[]
  }

  /** What `const { key = default } = unref(options) ?? {}` binds. */
  function OptionOr(options: Value, key: string, default: Value): (r: Value)
    ensures key in OptionsObject(options) && OptionsObject(options)[key] != Undefined ==> r == OptionsObject(options)[key]
    ensures key !in OptionsObject(options) || OptionsObject(options)[key] == Undefined ==> r == default
  {
    var o := OptionsObject(options);
    if key in o && o[key] != Undefined then o[key] else default
  }

  /**
   * mergeOptions: the caller's options without `immediate` and `clone`, merged with the
   * reconciliation handlers when a list is bound and with nothing otherwise.
   */
  function MergeOptions(hasList: bool, options: Value): (r: map<string, Value>)
    ensures r.Keys == (if hasList then PresetOptions.Keys else {}) + (OptionsObject(options).Keys - {"immediate", "clone"})
  {
    MergeOptionsEvents(if hasList then PresetOptions else map[], OptionsObject(options) - {"immediate", "clone"})
  }

  /**
   * mergeOptions never forwards `immediate` or `clone`, and forwards every other option the
   * caller set (`customUpdate` included).
   */
  lemma MergeOptionsForwardsAllButInternalKeys(hasList: bool, options: Value)
    ensures var r := MergeOptions(hasList, options);
      && "immediate" !in r && "clone" !in r
      && forall k :: k in OptionsObject(options) && k != "immediate" && k != "clone" ==> k in r
  {
  }

  /** Without a list no handler is injected: the instance receives the caller's options only. */
  lemma MergeOptionsWithoutListInjectsNothing(options: Value)
    ensures MergeOptions(false, options) == OptionsObject(options) - {"immediate", "clone"}
    ensures forall e :: HandlerKey(e) in MergeOptions(false, options) ==>
      MergeOptions(false, options)[HandlerKey(e)] == OptionsObject(options)[HandlerKey(e)]
  {
    MergeOptionsEventsIntoNothing(OptionsObject(options) - {"immediate", "clone"});
  }

  /**
   * With a list, every event's handler starts by running the reconciliation handler, even
   * when the caller supplied a handler of its own for that event. The caller's handler runs
   * next unless the reconciliation handler threw (as onUpdate does when the list ref holds
   * no array); options that are not handlers pass through unchanged.
   */
  lemma MergeOptionsWithListRunsPresetFirst(options: Value, failing: set<Callback>)
    ensures var r := MergeOptions(true, options);
      && (forall e :: HandlerKey(e) in r
           && |Invoke(r[HandlerKey(e)], failing).trace| > 0
           && Invoke(r[HandlerKey(e)], failing).trace[0] == Preset(e))
      && (forall e :: Preset(e) in failing ==> Invoke(r[HandlerKey(e)], failing) == Run([Preset(e)], true))
      && (forall e :: Preset(e) !in failing && HandlerKey(e) in OptionsObject(options) ==>
           var u := Invoke(OptionsObject(options)[HandlerKey(e)], failing);
           Invoke(r[HandlerKey(e)], failing) == Run([Preset(e)] + u.trace, u.threw))
      && (forall e :: Preset(e) !in failing && HandlerKey(e) !in OptionsObject(options) ==>
           Invoke(r[HandlerKey(e)], failing) == Run([Preset(e)], false))
      && (forall k :: k in OptionsObject(options) && k !in PresetOptions && k != "immediate" && k != "clone" ==>
           k in r && r[k] == OptionsObject(options)[k])
  {
    var r := MergeOptions(true, options);
    var rest := OptionsObject(options) - {"immediate", "clone"};
    forall e {
      MergedHandler(options, e, failing);
    }
    forall k | k in OptionsObject(options) && k !in PresetOptions && k != "immediate" && k != "clone"
      ensures k in r && r[k] == OptionsObject(options)[k]
    {
      assert k in rest && rest[k] == OptionsObject(options)[k];
    }
  }

  /** The reconciliation handler preset for an event runs that event's handler, and throws exactly when it does. */
  lemma PresetHandler(e: EventKind, failing: set<Callback>)
    ensures HandlerKey(e) in PresetOptions
    ensures Invoke(PresetOptions[HandlerKey(e)], failing) == Run([Preset(e)], Preset(e) in failing)
  {
    match e
    case StartEvent =>
    case AddEvent =>
    case RemoveEvent =>
    case UpdateEvent =>
  }

  /**
   * One event's handler in the options merged with a list: the preset runs; if it throws,
   * the call ends there, and otherwise the handler the caller set for that event runs next.
   */
  lemma MergedHandler(options: Value, e: EventKind, failing: set<Callback>)
    ensures var r := MergeOptions(true, options); var k := HandlerKey(e); var o := OptionsObject(options);
      && k in r
      && |Invoke(r[k], failing).trace| > 0 && Invoke(r[k], failing).trace[0] == Preset(e)
      && (Preset(e) in failing ==> Invoke(r[k], failing) == Run([Preset(e)], true))
      && (Preset(e) !in failing && k in o ==>
            Invoke(r[k], failing) == Run([Preset(e)] + Invoke(o[k], failing).trace, Invoke(o[k], failing).threw))
      && (Preset(e) !in failing && k !in o ==> Invoke(r[k], failing) == Run([Preset(e)], false))
  {
    PresetHandler(e, failing);
    var rest := OptionsObject(options) - {"immediate", "clone"};
    assert HandlerKey(e) in OptionsObject(options) <==> HandlerKey(e) in rest;
  }

  /** The options an instance holds after `option(k, v)` for every key of `merged` (undefined only reads). */
  function ApplyOptions(current: map<string, Value>, merged: map<string, Value>): map<string, Value> {
    map k | k in current.Keys + merged.Keys && (k in current || merged[k] != Undefined) ::
      if k in merged && merged[k] != Undefined then merged[k] else current[k]
  }

  // ---------------------------------------------------------------------------
  // The SortableJS instance, as the controller sees it
  // ---------------------------------------------------------------------------

  /** The two questions the controller forwards to the library without interpreting the answer. */
  datatype Query = ToArrayQuery | ClosestQuery(node: NodeId, selector: string)

  /**
   * The options object of a SortableJS instance, with the log of every option(name, value)
   * call it received, in order.
   */
  class OptionStore {
    var values: map<string, Value>
    var calls: seq<(string, Value)>

    constructor (values: map<string, Value>)
      ensures this.values == values && calls == []
    {
      this.values := values;
      this.calls := [];
    }

    /** option(name, value): reads the option when `value` is undefined, sets it otherwise. */
    method Option(name: string, value: Value) returns (r: Value)
      modifies this
      ensures calls == old(calls) + [(name, value)]
      ensures value == Undefined ==> values == old(values) && r == (if name in values then values[name] else Undefined)
      ensures value != Undefined ==> values == old(values)[name := value] && r == Undefined
    {
      calls := calls + [(name, value)];
      if value == Undefined {
        r := if name in values then values[name] else Undefined;
      } else {
        values := values[name := value];
        r := Undefined;
      }
    }
  }

  /**
   * A SortableJS instance: an opaque handle with an options object. Its answers to toArray
   * and closest come from the library's internals and are given as `answer`.
   */
  class Sortable {
    const el: NodeId
    const answer: Query -> Value
    const options: OptionStore
    var alive: bool
    var saves: nat

    constructor (el: NodeId, options: map<string, Value>, answer: Query -> Value)
      ensures this.el == el && this.answer == answer
      ensures fresh(this.options) && this.options.values == options && this.options.calls == []
      ensures alive && saves == 0
    {
      this.el := el;
      this.answer := answer;
      this.options := new OptionStore(options);
      this.alive := true;
      this.saves := 0;
    }

    method Destroy()
      modifies this
      ensures !alive && saves == old(saves)
    {
      alive := false;
    }

    method Save()
      modifies this
      ensures saves == old(saves) + 1 && alive == old(alive)
    {
      saves := saves + 1;
    }
  }

  // ---------------------------------------------------------------------------
  // The controller
  // ---------------------------------------------------------------------------

  /** A Vue ref to the list: its value is an array or undefined (null here). */
  class ListRef {
    var value: JsArray?<Value>

    constructor (value: JsArray?<Value>)
      ensures this.value == value
    {
      this.value := value;
    }
  }

  /** The second argument of useDraggable: a ref, a plain array, or something else (the options). */
  datatype ListArg = RefArg(ref: ListRef) | ArrayArg(array: JsArray<Value>) | OtherArg(value: Value)

  /** The `list` variable after argument normalisation. */
  datatype Binding = NoList | RefList(ref: ListRef) | PlainList(array: JsArray<Value>)

  /** `Array.isArray(unref(list))` for the second argument. */
  predicate HoldsArray(list: ListArg)
    reads if list.RefArg? then {list.ref} else {}
  {
    match list
    case RefArg(r) => r.value != null
    case ArrayArg(_) => true
    case OtherArg(_) => false
  }

  /** `list` after normalisation: null unless the second argument holds an array. */
  function BindingOf(list: ListArg): (b: Binding)
    reads if list.RefArg? then {list.ref} else {}
    ensures b.NoList? <==> !HoldsArray(list)
  {
    match list
    case RefArg(r) => if r.value != null then RefList(r) else NoList
    case ArrayArg(a) => PlainList(a)
    case OtherArg(_) => NoList
  }

  /** `options` after normalisation: the second argument stands for it unless that holds an array. */
  function OptionsOf(list: ListArg, options: Value): (r: Value)
    reads if list.RefArg? then {list.ref} else {}
    ensures HoldsArray(list) ==> r == options
    ensures list.OtherArg? ==> r == list.value
    ensures list.RefArg? && !HoldsArray(list) ==> r == Undefined
  {
    match list
    case RefArg(r) => if r.value != null then options else Undefined
    case ArrayArg(_) => options
    case OtherArg(v) => v
  }

  class Draggable {
    const el: Option<NodeId>          // the element `el` resolves to when start() is called without a target
    const binding: Binding
    const dom: Dom
    const clone: Value -> Value
    const customUpdate: Value
    const immediate: Value
    const hasComponent: bool          // getCurrentInstance() returned a component
    const answer: Query -> Value      // the library's answers, handed to every instance it creates
    var options: Value
    var instance: Sortable?
    var customUpdateCalls: seq<SortableEvent>
    ghost var created: seq<Sortable>  // every instance this controller created, oldest first
    ghost var destroyCount: nat       // destroy() calls that reached an instance

    /** At most one created instance is alive, and it is the one `instance` holds. */
    ghost predicate Valid()
      reads this, created
    {
      && (forall i :: 0 <= i < |created| - 1 ==> !created[i].alive)
      && (instance == null ==> forall i :: 0 <= i < |created| ==> !created[i].alive)
      && (instance != null ==> |created| > 0 && instance == created[|created| - 1] && instance.alive)
      && destroyCount + (if instance == null then 0 else 1) == |created|
    }

    function RefCell(): set<object> {
      if binding.RefList? then {binding.ref} else {}
    }

    /** `unref(list)` when it is an array. */
    function ListArray(): JsArray?<Value>
      reads RefCell()
    {
      match binding
      case NoList => null
      case PlainList(a) => a
      case RefList(r) => r.value
    }

    function Contents(): Option<seq<Value>>
      reads RefCell(), ListArray()
    {
      if ListArray() == null then None else Some(ListArray().elems)
    }

    /** What the handlers see: the list's contents, the DOM and the stash. */
    function CurrentScene(): Scene
      reads dom, RefCell(), ListArray()
    {
      Scene(Contents(), dom.children, dom.stash)
    }

    /**
     * useDraggable(el, list, options): normalises the arguments, reads `immediate`, `clone`
     * and `customUpdate` once, and starts at once when there is no component to mount.
     * `userClone` is the behaviour of the `clone` option, given exactly when that option is set.
     */
    constructor (el: Option<NodeId>, list: ListArg, options: Value, dom: Dom,
                 userClone: Option<Value -> Value>, deepCopy: Value -> Value,
                 answer: Query -> Value, hasComponent: bool)
      requires userClone.Some? <==> OptionOr(OptionsOf(list, options), "clone", Undefined) != Undefined
      ensures binding == old(BindingOf(list)) && this.options == old(OptionsOf(list, options))
      ensures this.el == el && this.dom == dom && this.hasComponent == hasComponent && this.answer == answer
      ensures immediate == OptionOr(this.options, "immediate", Bool(true))
      ensures customUpdate == OptionOr(this.options, "customUpdate", Undefined)
      ensures forall v :: clone(v) == if userClone.Some? then userClone.value(v) else DefaultClone(v, deepCopy)
      ensures Valid() && customUpdateCalls == [] && destroyCount == 0
      ensures hasComponent || !Truthy(immediate) ==> instance == null && created == []
      ensures !hasComponent && Truthy(immediate) ==>
        (instance != null <==> el.Some?)
        && (instance != null ==> fresh(instance) && created == [instance] && instance.el == el.value
                                 && instance.options.values == MergeOptions(!binding.NoList?, this.options))
    {
      this.el := el;
      this.binding := BindingOf(list);
      this.options := OptionsOf(list, options);
      this.dom := dom;
      if userClone.Some? {
        this.clone := userClone.value;
      } else {
        this.clone := (v: Value) => DefaultClone(v, deepCopy);
      }
      this.immediate := OptionOr(OptionsOf(list, options), "immediate", Bool(true));
      this.customUpdate := OptionOr(OptionsOf(list, options), "customUpdate", Undefined);
      this.hasComponent := hasComponent;
      this.answer := answer;
      this.instance := null;
      this.customUpdateCalls := [];
      this.created := [];
      this.destroyCount := 0;
      new;
      if !hasComponent && Truthy(immediate) {
        var _ := Start(None);
      }
    }

    // ---- reconciliation handlers ----

    /**
     * onStart, corrected: stashes on the dragged node a clone of the element being dragged,
     * read at `oldDraggableIndex` (the source reads `oldIndex`; see Reconcile.StartAsWritten).
     */
    method OnStart(evt: SortableEvent)
      requires dom.Valid() && !binding.NoList?
      modifies dom
      ensures dom.Valid()
      ensures CurrentScene() == Reconcile.Start(old(CurrentScene()), evt, clone)
    {
      var a := ListArray();
      var element := if a != null && 0 <= evt.oldDraggableIndex < |a.elems| then a.elems[evt.oldDraggableIndex] else Undefined;
      dom.stash := dom.stash[evt.item := clone(element)];
    }

    /** onAdd: inserts the stashed clone at the drop index and drops SortableJS's node. */
    method OnAdd(evt: SortableEvent)
      requires dom.Valid() && !binding.NoList?
      modifies dom, ListArray()
      ensures dom.Valid()
      ensures ListArray() == old(ListArray())
      ensures CurrentScene() == Add(old(CurrentScene()), evt)
    {
      var element := Stashed(dom.stash, evt.item);
      if IsUndefined(element) {
        return;
      }
      RemoveNode(dom, evt.item);
      var _ := InsertElement(ListArray(), evt.newDraggableIndex, element);
    }

    /** onRemove: restores the origin's DOM in clone pull mode, deletes the list element otherwise. */
    method OnRemove(evt: SortableEvent)
      requires dom.Valid() && !binding.NoList?
      modifies dom, ListArray()
      ensures dom.Valid()
      ensures ListArray() == old(ListArray())
      ensures CurrentScene() == Remove(old(CurrentScene()), evt)
    {
      if evt.pullMode == Str("clone") {
        InsertNodeAt(dom, evt.from, evt.item, evt.oldIndex);
        RemoveNode(dom, evt.clone);
        return;
      }
      var _ := RemoveElement(ListArray(), evt.oldDraggableIndex);
    }

    /**
     * onUpdate: hands the event to customUpdate when one is set; otherwise undoes the DOM
     * move and moves the list element. Behind a ref the move is made on a copy that then
     * replaces the ref's value; a plain array is moved in place. Spreading a ref whose
     * value is undefined throws.
     */
    method OnUpdate(evt: SortableEvent) returns (threw: bool)
      requires dom.Valid() && !binding.NoList?
      modifies this`customUpdateCalls, dom, RefCell(), ListArray()
      ensures dom.Valid()
      ensures Truthy(customUpdate) ==>
        && customUpdateCalls == old(customUpdateCalls) + [evt]
        && threw == !customUpdate.Func?
        && CurrentScene() == old(CurrentScene())
        && ListArray() == old(ListArray())
      ensures !Truthy(customUpdate) ==>
        && customUpdateCalls == old(customUpdateCalls)
        && CurrentScene() == Update(old(CurrentScene()), evt)
        && (threw <==> old(ListArray()) == null)
      ensures !Truthy(customUpdate) && binding.RefList? && old(ListArray()) != null ==>
        fresh(ListArray()) && old(ListArray()).elems == old(ListArray().elems)
      ensures binding.PlainList? ==> ListArray() == old(ListArray())
    {
      if Truthy(customUpdate) {
        customUpdateCalls := customUpdateCalls + [evt];
        threw := !customUpdate.Func?;
        return;
      }
      RemoveNode(dom, evt.item);
      InsertNodeAt(dom, evt.from, evt.item, evt.oldIndex);
      threw := false;
      match binding
      case RefList(r) =>
        if r.value == null {
          threw := true;
          return;
        }
        var copy := new JsArray(r.value.elems);
        var moved := MoveArrayElement(copy, evt.oldDraggableIndex, evt.newDraggableIndex);
        r.value := moved;
      case PlainList(a) =>
        var _ := MoveArrayElement(a, evt.oldDraggableIndex, evt.newDraggableIndex);
    }

    // ---- lifecycle ----

    /** destroy: destroys the live instance, if any, and forgets it. Calling it again does nothing. */
    method Destroy()
      requires Valid()
      modifies this`instance, this`destroyCount, instance
      ensures Valid() && instance == null && created == old(created)
      ensures old(instance) != null ==> !old(instance).alive && destroyCount == old(destroyCount) + 1
      ensures old(instance) == null ==> destroyCount == old(destroyCount)
    {
      if instance != null {
        instance.Destroy();
        instance := null;
        destroyCount := destroyCount + 1;
      }
    }

    /**
     * start(target): resolves the element (`target`, else `el`), destroys any live instance,
     * then creates one on the element with the merged options. When no element resolves, an
     * error is logged (`notFound`) and no instance is created; the old one is still destroyed.
     */
    method Start(target: Option<NodeId>) returns (notFound: bool)
      requires Valid()
      modifies this`instance, this`created, this`destroyCount, instance
      ensures Valid()
      ensures old(instance) != null ==> !old(instance).alive
      ensures destroyCount == old(destroyCount) + (if old(instance) != null then 1 else 0)
      ensures var t := if target.Some? then target else el;
        && (notFound <==> t.None?)
        && (t.None? ==> instance == null && created == old(created))
        && (t.Some? ==> fresh(instance) && created == old(created) + [instance] && instance.el == t.value
                        && fresh(instance.options) && instance.options.values == MergeOptions(!binding.NoList?, options)
                        && instance.answer == answer && instance.options.calls == [])
    {
      var t := if target.Some? then target else el;
      Destroy();
      if t.None? {
        notFound := true;
        return;
      }
      var s := new Sortable(t.value, MergeOptions(!binding.NoList?, options), answer);
      instance := s;
      created := created + [s];
      notFound := false;
    }

    /** The options object of the live instance, which `option` calls change. */
    function Store(): set<object>
      reads this, instance
    {
      if instance == null then {} else {instance.options}
    }

    /** option(name, value) on the live instance; undefined when there is none. */
    method Option(name: string, value: Value) returns (r: Value)
      requires Valid()
      modifies Store()
      ensures Valid()
      ensures instance == null ==> r == Undefined
      ensures instance != null ==>
        var store := instance.options;
        && store.calls == old(store.calls) + [(name, value)]
        && (value == Undefined ==>
              store.values == old(store.values)
              && r == (if name in store.values then store.values[name] else Undefined))
        && (value != Undefined ==> store.values == old(store.values)[name := value] && r == Undefined)
    {
      if instance == null {
        return Undefined;
      }
      r := instance.options.Option(name, value);
    }

    /** pause: sets `disabled` to true on the live instance. */
    method Pause()
      requires Valid()
      modifies Store()
      ensures Valid()
      ensures instance != null ==> instance.options.values == old(instance.options.values)["disabled" := Bool(true)]
    {
      var _ := Option("disabled", Bool(true));
    }

    /** resume: sets `disabled` to false on the live instance. */
    method Resume()
      requires Valid()
      modifies Store()
      ensures Valid()
      ensures instance != null ==> instance.options.values == old(instance.options.values)["disabled" := Bool(false)]
    {
      var _ := Option("disabled", Bool(false));
    }

    method Save()
      requires Valid()
      modifies instance
      ensures Valid()
      ensures instance != null ==> instance.saves == old(instance.saves) + 1
    {
      if instance != null {
        instance.Save();
      }
    }

    /** toArray: the library's answer, or undefined without an instance. */
    method ToArray() returns (r: Value)
      ensures r == if instance == null then Undefined else instance.answer(ToArrayQuery)
    {
      r := if instance == null then Undefined else instance.answer(ToArrayQuery);
    }

    /** closest: the library's answer, or undefined without an instance. */
    method Closest(node: NodeId, selector: string) returns (r: Value)
      ensures r == if instance == null then Undefined else instance.answer(ClosestQuery(node, selector))
    {
      r := if instance == null then Undefined else instance.answer(ClosestQuery(node, selector));
    }

    /** The caller changes the contents of the options object the watcher observes. */
    method SetOptions(newOptions: Value)
      requires Valid()
      modifies this`options
      ensures Valid() && options == newOptions
    {
      options := newOptions;
    }

    /**
     * The watcher's callback, run after the options changed: when an instance is live, it
     * calls option(key, value) once for every key of the newly merged options.
     */
    method OptionsChanged()
      requires Valid()
      modifies Store()
      ensures Valid()
      ensures instance != null ==>
        var store := instance.options;
        Reconfigured(store.values, store.calls, old(store.values), old(store.calls), MergeOptions(!binding.NoList?, options))
    {
      if instance != null {
        ApplyMerged(instance.options, MergeOptions(!binding.NoList?, options));
      }
    }

    /** tryOnMounted(start): the component's mount hook starts when `immediate` is set. */
    method Mounted() returns (notFound: bool)
      requires Valid()
      modifies this`instance, this`created, this`destroyCount, instance
      ensures Valid()
      ensures !(hasComponent && Truthy(immediate)) ==>
        !notFound && instance == old(instance) && created == old(created) && destroyCount == old(destroyCount)
      ensures hasComponent && Truthy(immediate) ==>
        && (notFound <==> el.None?)
        && (old(instance) != null ==> !old(instance).alive)
        && destroyCount == old(destroyCount) + (if old(instance) != null then 1 else 0)
        && (el.None? ==> instance == null && created == old(created))
        && (el.Some? ==> fresh(instance) && created == old(created) + [instance] && instance.el == el.value
                         && fresh(instance.options) && instance.options.values == MergeOptions(!binding.NoList?, options)
                         && instance.answer == answer && instance.options.calls == [])
    {
      notFound := false;
      if hasComponent && Truthy(immediate) {
        notFound := Start(None);
      }
    }

    /** onUnmounted(destroy): the component's unmount hook. */
    method Unmounted()
      requires Valid()
      modifies this`instance, this`destroyCount, instance
      ensures Valid()
      ensures hasComponent ==> instance == null
      ensures hasComponent && old(instance) != null ==> !old(instance).alive
      ensures !hasComponent ==> instance == old(instance) && destroyCount == old(destroyCount)
    {
      if hasComponent {
        Destroy();
      }
    }
  }

  /**
   * After option(key, value) was called on `s` for the keys in `done`: `added` holds those
   * calls, appended to the calls made before, and the options hold the values set.
   */
  ghost predicate Applied(s: OptionStore, opts0: map<string, Value>, calls0: seq<(string, Value)>,
                          merged: map<string, Value>, done: set<string>, added: seq<(string, Value)>)
    reads s
  {
    && s.calls == calls0 + added
    && |added| == |done|
    && CallsFor(added, merged, done)
    && OptionsApplied(s.values, opts0, merged, done)
  }

  /** One turn of the watcher's loop: option(k, merged[k]). */
  method ApplyOne(s: OptionStore, merged: map<string, Value>, k: string,
                  ghost opts0: map<string, Value>, ghost calls0: seq<(string, Value)>,
                  ghost done: set<string>, ghost added: seq<(string, Value)>)
    requires k in merged && k !in done && Applied(s, opts0, calls0, merged, done, added)
    modifies s
    ensures Applied(s, opts0, calls0, merged, done + {k}, added + [(k, merged[k])])
  {
    var _ := s.Option(k, merged[k]);
    OptionsAppliedStep(old(s.values), opts0, merged, done, k);
    CallsForStep(added, merged, done, k);
    assert calls0 + added + [(k, merged[k])] == calls0 + (added + [(k, merged[k])]);
  }

  /** Calls option(key, value) on `s` once for every entry of `merged`, in no particular order. */
  method ApplyMerged(s: OptionStore, merged: map<string, Value>)
    modifies s
    ensures Reconfigured(s.values, s.calls, old(s.values), old(s.calls), merged)
  {
    var keys := merged.Keys;
    ghost var done: set<string> := {};
    ghost var added: seq<(string, Value)> := [];
    ghost var opts0 := s.values;
    ghost var calls0 := s.calls;
    OptionsAppliedNone(opts0, merged);
    while keys != {}
      invariant keys !! done && keys + done == merged.Keys
      invariant Applied(s, opts0, calls0, merged, done, added)
      decreases |keys|
    {
      var k :| k in keys;
      ApplyOne(s, merged, k, opts0, calls0, done, added);
      added := added + [(k, merged[k])];
      done := done + {k};
      keys := keys - {k};
    }
    assert done == merged.Keys;
    AppliedAllReconfigured(s.values, opts0, calls0, merged, added);
  }

  /** Once every key of `merged` is done, the instance is reconfigured. */
  lemma AppliedAllReconfigured(opts: map<string, Value>, opts0: map<string, Value>, calls0: seq<(string, Value)>,
                               merged: map<string, Value>, added: seq<(string, Value)>)
    requires |added| == |merged.Keys| && CallsFor(added, merged, merged.Keys)
    requires OptionsApplied(opts, opts0, merged, merged.Keys)
    ensures Reconfigured(opts, calls0 + added, opts0, calls0, merged)
  {
    OptionsAppliedAll(opts, opts0, merged);
    assert (calls0 + added)[|calls0|..] == added;
    assert (calls0 + added)[..|calls0|] == calls0;
  }

  /**
   * An instance whose options were `opts0` and whose call log was `calls0` now holds the
   * defined values of `merged` on top of `opts0`, and its log gained one option(key, value)
   * call for each entry of `merged` and no other.
   */
  ghost predicate Reconfigured(opts: map<string, Value>, calls: seq<(string, Value)>,
                               opts0: map<string, Value>, calls0: seq<(string, Value)>, merged: map<string, Value>)
  {
    && opts == ApplyOptions(opts0, merged)
    && |calls| == |calls0| + |merged|
    && calls[..|calls0|] == calls0
    && CallsFor(calls[|calls0|..], merged, merged.Keys)
  }

  /** `calls` holds one option(key, merged[key]) call for each key in `done` and no other call. */
  ghost predicate CallsFor(calls: seq<(string, Value)>, merged: map<string, Value>, done: set<string>) {
    && (forall k :: k in done && k in merged ==> (k, merged[k]) in calls)
    && (forall c :: c in calls ==> c.0 in done && c.0 in merged && c.1 == merged[c.0])
  }

  lemma CallsForStep(calls: seq<(string, Value)>, merged: map<string, Value>, done: set<string>, k: string)
    requires CallsFor(calls, merged, done) && k in merged
    ensures CallsFor(calls + [(k, merged[k])], merged, done + {k})
  {
  }

  /** `opts` holds `current` with the defined values of `merged` set for the keys in `done`. */
  ghost predicate OptionsApplied(opts: map<string, Value>, current: map<string, Value>,
                                 merged: map<string, Value>, done: set<string>)
  {
    && (forall k :: k in opts <==> k in current || (k in done && k in merged && merged[k] != Undefined))
    && (forall k :: k in opts ==>
          opts[k] == if k in done && k in merged && merged[k] != Undefined then merged[k] else current[k])
  }

  lemma OptionsAppliedNone(current: map<string, Value>, merged: map<string, Value>)
    ensures OptionsApplied(current, current, merged, {})
  {
  }

  /** Calling option(k, merged[k]) applies one more key. */
  lemma OptionsAppliedStep(opts: map<string, Value>, current: map<string, Value>,
                           merged: map<string, Value>, done: set<string>, k: string)
    requires OptionsApplied(opts, current, merged, done) && k in merged && k !in done
    ensures OptionsApplied(if merged[k] == Undefined then opts else opts[k := merged[k]], current, merged, done + {k})
  {
  }

  lemma OptionsAppliedAll(opts: map<string, Value>, current: map<string, Value>, merged: map<string, Value>)
    requires OptionsApplied(opts, current, merged, merged.Keys)
    ensures opts == ApplyOptions(current, merged)
  {
  }

  /**
   * Destroying twice in a row, or pausing after destroy, does nothing; queries then answer
   * undefined.
   */
  method DestroyThenQuery(d: Draggable) returns (r: Value)
    requires d.Valid()
    modifies d`instance, d`destroyCount, d.instance
    ensures d.Valid() && d.instance == null && r == Undefined
    ensures d.destroyCount == old(d.destroyCount) + (if old(d.instance) != null then 1 else 0)
  {
    d.Destroy();
    d.Destroy();
    d.Pause();
    r := d.ToArray();
  }
}
