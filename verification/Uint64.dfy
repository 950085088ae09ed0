/** The carry helpers of uint64gmp.h, which tell a carry from the wrapped result alone. */
module Uint64 {
  import opened Limbs

  datatype Pair = Pair(low: Limb, high: Limb)

  /** add64_with_carry */
  function AddWithCarry(x: Limb, y: Limb, c: Limb): (r: Pair)
    requires c <= 1
    ensures x + y + c == r.low + B * r.high && r.high <= 1
  {
    var r := Wrap(x + y + c);
    Pair(r, if r == x then c else if r < x then 1 else 0)
  }

  /** sub64_with_borrow */
  function SubWithBorrow(x: Limb, y: Limb, b: Limb): (r: Pair)
    requires b <= 1
    ensures x - y - b == r.low - B * r.high && r.high <= 1
  {
    var r := Wrap(x - y - b);
    Pair(r, if r > x then 1 else if r == x then b else 0)
  }

  /** add64_3 */
  function Add3(x: Limb, y: Limb, z: Limb): (r: Pair)
    ensures x + y + z == r.low + B * r.high && r.high <= 2
  {
    var r1 := Wrap(x + y);
    var r2 := Wrap(r1 + z);
    Pair(r2, (if r1 < y then 1 else 0) + (if r2 < z then 1 else 0))
  }
}
