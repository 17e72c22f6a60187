/** Optional values: a DOM lookup or a JavaScript variable that may be null or undefined. */
module Wrappers {
  datatype Option<+T> = None | Some(value: T)

  /** The set of values an optional value holds: empty for None, a singleton for Some. */
  function Elements<T>(o: Option<T>): (s: set<T>)
    ensures o.None? <==> s == {}
    ensures o.Some? ==> s == {o.value}
  {
    if o.Some? then {o.value} else {}
  }
}
