/** The Option value used for the driver's "no value" paths, and a sequence fact. */
module Wrappers {

  datatype Option<+T> = None | Some(value: T)

  /** Sequence concatenation is associative. */
  lemma AppendAssoc<T>(a: seq<T>, b: seq<T>, c: seq<T>)
    ensures a + b + c == a + (b + c)
  {
  }
}
