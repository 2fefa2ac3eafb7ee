/** Bytes and the few general definitions every other module shares. */
module Bytes {

  /** An unsigned 8-bit value. */
  type byte = x: int | 0 <= x < 256

  datatype Option<+T> = None | Some(value: T)

  /** A 16-bit count read back through a signed 16-bit type. */
  function AsI16(n: int): int {
    var u := n % 0x1_0000;
    if u < 0x8000 then u else u - 0x1_0000
  }

  /** At most the first `max` elements of `s`. */
  function Cut<T>(s: seq<T>, max: nat): seq<T> {
    if |s| <= max then s else s[..max]
  }

  lemma Assoc<T>(a: seq<T>, b: seq<T>, c: seq<T>)
    ensures (a + b) + c == a + (b + c)
  {
  }

  /** `1 << n` */
  function PowerOf2(n: nat): (r: nat)
    ensures r > 0
  {
    if n == 0 then 1 else 2 * PowerOf2(n - 1)
  }

  lemma ByteSize()
    ensures PowerOf2(8) == 256
  {
    assert PowerOf2(4) == 16;
    assert PowerOf2(6) == 64;
  }
}
