/** Small helper datatypes shared by every module of the model. */
module Wrappers {

  /** A value that may be absent: Python's `None` where the source tolerates it. */
  datatype Option<+T> = None | Some(value: T)

  /** Concatenation regrouped; stated once so that long appends stay cheap. */
  lemma SeqAssoc<T>(a: seq<T>, b: seq<T>, c: seq<T>)
    ensures (a + b) + c == a + (b + c)
  {
  }
}
