/** Notions shared by all modules. */
module Prelude {
  datatype Option<T> = None | Some(value: T) {
    function Or(default: T): T { if Some? then value else default }
  }

  type Byte = x: int | 0 <= x < 256
  type Bytes = seq<Byte>

  /** The largest value of Go's int on a 64-bit machine. */
  const MAX_INT: nat := 0x7fff_ffff_ffff_ffff

  lemma Regroup<T>(a: seq<T>, b: seq<T>, c: seq<T>)
    ensures a + b + c == a + (b + c)
  {
  }
}
