/** Machine-sized values shared by every component. */
module Bytes {
  /** An 8-bit cell of memory. */
  type byte = x: int | 0 <= x < 0x100

  type uint16 = x: int | 0 <= x < 0x1_0000

  type uint32 = x: int | 0 <= x < 0x1_0000_0000

  datatype Option<+T> = None | Some(value: T)

  function Min(a: int, b: int): int {
    if a <= b then a else b
  }

  function Max(a: int, b: int): int {
    if a <= b then b else a
  }

  lemma Multiple(k: int, b: nat)
    requires b > 0
    ensures k > 0 ==> k * b >= b
    ensures k < 0 ==> k * b + b <= 0
  {
  }

  /** A remainder is determined by its range. */
  lemma RemainderIs(a: int, b: nat, q: int, r: int)
    requires 0 <= r < b && a == q * b + r
    ensures a % b == r
  {
    var d := q - a / b;
    assert a == (a / b) * b + a % b;
    assert d * b == q * b - (a / b) * b == a % b - r;
    Multiple(d, b);
  }
}
