/** Rust's fixed-width integers, the `as` casts the nine-patch code applies to them,
    and the Option type. Arithmetic wraps as in a release build. */
module Prim {
  const TWO_31: int := 0x8000_0000
  const TWO_32: int := 0x1_0000_0000

  type i32 = x: int | -0x8000_0000 <= x < 0x8000_0000
  type u32 = x: int | 0 <= x < 0x1_0000_0000
  type byte = x: int | 0 <= x < 0x100

  datatype Option<T> = None | Some(value: T)

  /** The `i32` result of an `i32` negation, addition or subtraction, whose exact
      value lies in `[-2^32, 2^32)`: two's-complement wrap-around. */
  function WrapI32(x: int): (r: i32)
    requires -TWO_32 <= x < TWO_32
    ensures -TWO_31 <= x < TWO_31 ==> r == x
    ensures x < -TWO_31 ==> r > x
    ensures x >= TWO_31 ==> r < x
  {
    if x < -TWO_31 then x + TWO_32 else if x >= TWO_31 then x - TWO_32 else x
  }

  /** The wrapped value differs from the exact one by a multiple of 2^32. */
  lemma WrapI32Congruent(x: int)
    requires -TWO_32 <= x < TWO_32
    ensures (x - WrapI32(x)) % TWO_32 == 0
  {
  }

  /** `x as i32` for `x: u32`: the bits are kept, so values from 2^31 up turn negative. */
  function AsI32(x: u32): (r: i32)
    ensures x < TWO_31 ==> r == x
    ensures r < 0 <==> x >= TWO_31
  {
    if x < TWO_31 then x else x - TWO_32
  }

  /** `x as u32` for `x: i32`: negative values wrap around by 2^32. */
  function AsU32(x: i32): (r: u32)
    ensures x >= 0 ==> r == x
    ensures r >= TWO_31 <==> x < 0
  {
    if x < 0 then x + TWO_32 else x
  }

  /** Both casts keep the bits: each undoes the other. */
  lemma CastsRoundTrip(x: u32, y: i32)
    ensures AsU32(AsI32(x)) == x
    ensures AsI32(AsU32(y)) == y
  {
  }
}
