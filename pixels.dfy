/**
 * Pixel buffers as the canvas API hands them out: `ImageData.data` is a
 * `Uint8ClampedArray` holding four bytes (red, green, blue, alpha) per
 * pixel, row after row.
 */
module Pixels {
  newtype byte = x: int | 0 <= x < 256

  /** The offset of channel `c` of pixel (`x`, `y`) in a row-major RGBA buffer. */
  function Offset(width: int, x: int, y: int, c: int): int {
    (y * width + x) * 4 + c
  }

  /** Reading past the end of a typed array gives `undefined`, and
      `undefined > 0` is false, so such a read acts as a 0 here. */
  function ByteAt(data: seq<byte>, k: int): (b: byte)
    ensures 0 <= k < |data| ==> b == data[k]
    ensures !(0 <= k < |data|) ==> b == 0
  {
    if 0 <= k < |data| then data[k] else 0
  }

  function Alpha(data: seq<byte>, width: int, x: int, y: int): byte {
    ByteAt(data, Offset(width, x, y, 3))
  }

  /** Pixel (`x`, `y`) has been drawn on: its alpha is above 0. */
  predicate Opaque(data: seq<byte>, width: int, x: int, y: int) {
    Alpha(data, width, x, y) > 0
  }
}
