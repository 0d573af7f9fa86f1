/** What the parts share: a value that may be missing, the sizes of words, and joining sequences. */
module Common {

  datatype Option<+T> = None | Some(value: T)

  const W16: int := 0x1_0000
  const W31: int := 0x8000_0000
  const W32: int := 0x1_0000_0000
  const W48: int := 0x1_0000_0000_0000
  const W51: int := 0x8_0000_0000_0000
  const W62: int := 0x4000_0000_0000_0000
  const W63: int := 0x8000_0000_0000_0000
  const W64: int := 0x1_0000_0000_0000_0000

  lemma Associate<T>(a: seq<T>, b: seq<T>, c: seq<T>)
    ensures a + b + c == a + (b + c)
  {
  }
}
