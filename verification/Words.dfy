/** What several parts of the kernel share: word sizes, the page size, optional values. */
module Words {
  const PAGE_SIZE: nat := 4096
  const TWO_31: nat := 0x8000_0000
  const TWO_32: nat := 0x1_0000_0000
  const TWO_63: int := 0x8000_0000_0000_0000
  const TWO_64: nat := 0x1_0000_0000_0000_0000

  datatype Option<T> = None | Some(value: T)

  /** The 32-bit signed reading of an integer. */
  function ToInt32(x: int): int {
    var y := x % TWO_32;
    if y < TWO_31 then y else y - TWO_32
  }

  /** It is the only 32-bit signed integer that is the same modulo 2^32, so a number reads as itself
      exactly if it is one. */
  lemma IntRange(x: int)
    ensures -(TWO_31 as int) <= ToInt32(x) < TWO_31 && (ToInt32(x) - x) % TWO_32 == 0
    ensures ToInt32(x) == x <==> -(TWO_31 as int) <= x < TWO_31
  {
  }
}
