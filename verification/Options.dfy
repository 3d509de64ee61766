/** A result that may be missing. */
module Options {
  datatype Option<T> = None | Some(value: T)

  /** p in front of the sequence, if there is one. */
  function Prepend<T>(p: seq<T>, r: Option<seq<T>>): Option<seq<T>> {
    if r.Some? then Some(p + r.value) else None
  }
}
