/** Optional values: the model's stand-in for JavaScript's `undefined`/`null` and for operations
    that can fail without a message (a URL that does not parse, a key that is not in a map). */
module Wrappers {

  datatype Option<+T> = None | Some(value: T) {

    /** `this ?? default` in JavaScript: the value when present, else the default. */
    function GetOr(default: T): T {
      match this
      case Some(v) => v
      case None => default
    }

    /** `this ?? other` where both sides may be null: the first value present. */
    function OrElse(other: Option<T>): Option<T> {
      if this.Some? then this else other
    }
  }
}
