/** Byte-wise wrap-around arithmetic used by the temporal delta coder. */
module Bytes {

  /** A Rust `u8`. */
  type Byte = b: int | 0 <= b < 256

  /** The `as u8` cast of a wider unsigned integer: keep the low eight bits. */
  function AsU8(w: nat): Byte {
    w % 256
  }

  /** `pixel_diff(val_1, val_2)`: the wrap-around difference `val_1 - val_2`.
      When `val_2 > val_1` the source widens both to `u16`, computes
      `256 - val_2 + val_1` and casts back to `u8`; otherwise it subtracts
      in `u8`, which cannot underflow on that branch. */
  function PixelDiff(val1: Byte, val2: Byte): (r: Byte)
    ensures r == (val1 - val2) % 256
    ensures val2 <= val1 ==> r == val1 - val2
  {
    if val2 > val1 then AsU8(256 - val2 + val1)
    else val1 - val2
  }

  /** `pixel_sum(val_1, val_2)`: the wrap-around sum. The source adds in
      `u16` and subtracts 256 when the sum exceeds 255 before the cast. */
  function PixelSum(val1: Byte, val2: Byte): (r: Byte)
    ensures r == (val1 + val2) % 256
    ensures val1 + val2 > 255 ==> r == val1 + val2 - 256 && r <= 254
  {
    var sum := val1 + val2;
    if sum > 255 then AsU8(sum - 256)
    else AsU8(sum)
  }

  /** Decoding a difference against the same reference gives back the
      original byte, with the arguments in the order the codec uses them. */
  lemma SumUndoesDiff(a: Byte, b: Byte)
    ensures PixelSum(b, PixelDiff(a, b)) == a
  {
  }

  /** The converse: a difference is the only byte that decodes to `a`. */
  lemma DiffUndoesSum(b: Byte, d: Byte)
    ensures PixelDiff(PixelSum(b, d), b) == d
  {
  }

  /** The worked example: 10 - 250 wraps to 16, and 250 + 16 wraps to 10. */
  lemma WrapExample()
    ensures PixelDiff(10, 250) == 16 && PixelSum(250, 16) == 10
  {
  }
}
