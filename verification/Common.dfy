/** What several parts of the model share. */
module Common {

  datatype Option<+T> = None | Some(value: T)

  type byte = b: int | 0 <= b < 256

  /** The range of an unsigned 32-bit number. */
  const U32: nat := 0x1_0000_0000

  // ---- concatenations in other groupings ----

  lemma Associate(a: string, b: string, c: string)
    ensures a + (b + c) == a + b + c
  {
  }

  lemma Associate4(a: string, b: string, c: string, d: string)
    ensures a + b + c + d == a + (b + c + d) == a + (b + (c + d)) == a + b + (c + d) == a + (b + c) + d
  {
  }

  lemma Associate5(a: string, b: string, c: string, d: string, e: string)
    ensures a + b + c + d + e == a + (b + c + d + e) == a + b + c + (d + e)
  {
  }

  lemma WithEmpty(a: string)
    ensures "" + a == a == a + ""
  {
  }
}
