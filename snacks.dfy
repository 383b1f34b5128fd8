/**
 The record the vending machine keeps per slot: a snack's name, how many are
 left and its price. Counts are Java `int`s; prices are whole pence. The
 source's BigDecimal keeps whatever scale the text it was read from had; the
 model takes every price at scale 2, so a price in pence is the unscaled
 value of the BigDecimal at that scale.
 */
module Snacks {

  const MinInt32: int := -0x8000_0000
  const MaxInt32: int := 0x7fff_ffff

  /** A Java `int`. */
  type Int32 = x: int | MinInt32 <= x <= MaxInt32

  datatype Snack = Snack(name: string, count: Int32, price: int)

  /** A value that may be absent: the source's `null` results. */
  datatype Option<T> = None | Some(value: T)
}
