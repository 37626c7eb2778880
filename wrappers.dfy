/** Option and Result, the shapes every failing operation of the model returns, and one fact about sequences. */
module Wrappers {

  datatype Option<T> = None | Some(value: T)

  /** `Ok` carries a value; `Err` stands for the exception the C# code throws. */
  datatype Result<T, E> = Ok(value: T) | Err(error: E)

  lemma AppendAssoc<T>(a: seq<T>, b: seq<T>, c: seq<T>)
    ensures (a + b) + c == a + (b + c)
  {
  }
}
