/** The optional value used throughout the model (a read that may fail, a
    parse that may fail, a module name that may be absent), and a fact
    about sequences the proofs share. */
module Wrappers {

  datatype Option<+T> = None | Some(value: T)

  lemma ConcatAssoc<T>(a: seq<T>, b: seq<T>, c: seq<T>)
    ensures (a + b) + c == a + (b + c)
  {
  }
}
