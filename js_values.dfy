/**
 * The JavaScript values the controller passes around: list elements, option values and
 * callbacks. A callback is represented by the code it runs, so that composing two of them
 * (mergeExecuted) and invoking the result can be stated and proved.
 */
module JsValues {

  /** The four drag events whose handlers the controller injects. */
  datatype EventKind = StartEvent | AddEvent | RemoveEvent | UpdateEvent

  /** A primitive callback: one of the controller's own handlers, or a function of the caller's. */
  datatype Callback = Preset(event: EventKind) | User(id: nat)

  /** What a JavaScript function value runs when it is called. */
  datatype Code =
    | Call(callback: Callback)
    | Then(first: Value, second: Value)   // the function mergeExecuted(first, second) returns

  /**
   * A JavaScript value. Numbers are integers; arrays inside values are not distinguished
   * from other objects (the backing list is a mutable `JsArray`, see module Utils).
   */
  datatype Value =
    | Undefined
    | Null
    | Bool(b: bool)
    | Num(n: int)
    | Str(s: string)
    | Obj(fields: map<string, Value>)
    | Func(code: Code)

  /** JavaScript truthiness, as used by `if (customUpdate)` and `immediate && start()`. */
  predicate Truthy(v: Value) {
    match v
    case Undefined => false
    case Null => false
    case Bool(b) => b
    case Num(n) => n != 0
    case Str(s) => s != ""
    case Obj(_) => true
    case Func(_) => true
  }

  /** The outcome of calling a value: the callbacks that ran, in order, and whether it threw. */
  datatype Run = Run(trace: seq<Callback>, threw: bool)

  /**
   * Calling a value, when the primitive callbacks in `failing` throw (whether one throws
   * depends on the state it is called in: onUpdate, for one, throws when the list ref holds
   * no array). A non-function throws a TypeError before running anything; the function
   * built by mergeExecuted runs its first part, then (unless that threw) its second.
   */
  function Invoke(v: Value, failing: set<Callback>): Run {
    match v
    case Func(Call(c)) => Run([c], c in failing)
    case Func(Then(f, g)) =>
      var rf := Invoke(f, failing);
      if rf.threw then rf
      else
        var rg := Invoke(g, failing);
        Run(rf.trace + rg.trace, rg.threw)
    case _ => Run([], true)
  }
}
