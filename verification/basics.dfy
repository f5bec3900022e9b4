/** What several components share. */
module Basics {

  datatype Option<T> = None | Some(value: T)

  /** The greatest int of 32 bits. */
  const INT_MAX := 0x7fff_ffff

  type Byte = b: int | 0 <= b < 256

  type Bytes = seq<Byte>

  lemma Associate<T>(a: seq<T>, b: seq<T>, c: seq<T>)
    ensures a + (b + c) == (a + b) + c
  {
  }
}
