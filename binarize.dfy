/**
 * `preprocessImage` (components/FormulaTool.tsx:174-201): every pixel of an
 * RGBA buffer becomes pure black or pure white by its luminance, in place;
 * alpha is left alone.
 */
module Binarize {
  import opened Pixels

  /** Line 188 weighs the channels 0.299, 0.587 and 0.114 in floating point
      and line 191 compares with 180; this is the same comparison scaled by
      1000 and done on integers. */
  function Luminance(r: byte, g: byte, b: byte): int {
    299 * r as int + 587 * g as int + 114 * b as int
  }

  const Threshold: int := 180000

  /** The pixel starting at `p` is dark. A channel read past the end of the
      buffer is `undefined`, which makes the luminance `NaN`, and `NaN < 180`
      is false. */
  predicate Dark(s: seq<byte>, p: int) {
    0 <= p && p + 2 < |s| && Luminance(s[p], s[p + 1], s[p + 2]) < Threshold
  }

  /** What byte `k` of the buffer holds after the loop of lines 182-197. */
  function BinarizedByte(s: seq<byte>, k: int): byte
    requires 0 <= k < |s|
  {
    var p := k - k % 4;
    if k % 4 == 3 then s[k] else if Dark(s, p) then 0 else 255
  }

  /** The whole buffer after the loop. */
  function Binarized(s: seq<byte>): (r: seq<byte>)
    ensures |r| == |s|
  {
    seq(|s|, k requires 0 <= k < |s| => BinarizedByte(s, k))
  }

  /** Lines 182-197, in place. */
  method BinarizeInPlace(data: array<byte>)
    modifies data
    ensures data[..] == Binarized(old(data[..]))
  {
    ghost var s := data[..];
    var i := 0;
    while i < data.Length
      invariant 0 <= i && i % 4 == 0
      invariant i < data.Length + 4
      invariant forall k | 0 <= k < data.Length && k < i :: data[k] == BinarizedByte(s, k)
      invariant forall k | i <= k < data.Length :: data[k] == s[k]
      decreases data.Length - i
    {
      var dark := i + 2 < data.Length && Luminance(data[i], data[i + 1], data[i + 2]) < Threshold;
      var newValue: byte := if dark then 0 else 255;
      assert dark == Dark(s, i) by {
        if i + 2 < data.Length {
          assert data[i] == s[i] && data[i + 1] == s[i + 1] && data[i + 2] == s[i + 2];
        }
      }
      PixelBytes(s, i);
      ChannelsOf(i);
      data[i] := newValue;
      // a write past the end of a typed array is dropped
      if i + 1 < data.Length { data[i + 1] := newValue; }
      if i + 2 < data.Length { data[i + 2] := newValue; }
      i := i + 4;
    }
    assert data[..] == Binarized(s);
  }

  // ------------------------------------------------------------ lemmas

  /** The four bytes of the pixel starting at `p`. */
  lemma PixelBytes(s: seq<byte>, p: int)
    requires 0 <= p < |s| && p % 4 == 0
    ensures BinarizedByte(s, p) == if Dark(s, p) then 0 else 255
    ensures p + 1 < |s| ==> BinarizedByte(s, p + 1) == BinarizedByte(s, p)
    ensures p + 2 < |s| ==> BinarizedByte(s, p + 2) == BinarizedByte(s, p)
    ensures p + 3 < |s| ==> BinarizedByte(s, p + 3) == s[p + 3]
  {
    ChannelsOf(p);
  }

  lemma ChannelsOf(p: int)
    requires p % 4 == 0
    ensures (p + 1) % 4 == 1 && (p + 2) % 4 == 2 && (p + 3) % 4 == 3 && (p + 4) % 4 == 0
  {
  }

  /** The buffer keeps its length and every alpha byte; each whole pixel
      ends with equal red, green and blue, all 0 or all 255, and 0 exactly
      when its luminance was below the threshold. */
  lemma BinarizedPixel(s: seq<byte>, p: int)
    requires 0 <= p && p % 4 == 0 && p + 3 < |s|
    ensures var r := Binarized(s);
      r[p] == r[p + 1] == r[p + 2] && (r[p] == 0 || r[p] == 255)
      && (r[p] == 0 <==> Luminance(s[p], s[p + 1], s[p + 2]) < Threshold)
      && r[p + 3] == s[p + 3]
  {
    PixelBytes(s, p);
  }

  /** Every alpha byte is unchanged. */
  lemma BinarizedKeepsAlpha(s: seq<byte>)
    ensures forall k | 0 <= k < |s| && k % 4 == 3 :: Binarized(s)[k] == s[k]
  {
  }

  /** Binarising twice gives the same as once: black stays black (luminance 0)
      and white stays white (luminance 255000). */
  lemma BinarizeIdempotent(s: seq<byte>)
    requires |s| % 4 == 0
    ensures Binarized(Binarized(s)) == Binarized(s)
  {
    var r := Binarized(s);
    forall k | 0 <= k < |s| ensures Binarized(r)[k] == r[k] {
      IdempotentAt(s, r, k);
    }
  }

  lemma IdempotentAt(s: seq<byte>, r: seq<byte>, k: int)
    requires |s| % 4 == 0 && r == Binarized(s) && 0 <= k < |s|
    ensures Binarized(r)[k] == r[k]
  {
    var p := k - k % 4;
    PixelStart(k, |s|);
    BinarizedPixel(s, p);
    BinarizedPixel(r, p);
  }

  /** In a buffer of whole pixels, the pixel holding byte `k` fits entirely. */
  lemma PixelStart(k: int, n: int)
    requires n % 4 == 0 && 0 <= k < n
    ensures var p := k - k % 4; p % 4 == 0 && p + 3 < n && p <= k <= p + 3
  {
    var q, m := k / 4, n / 4;
    assert k == 4 * q + k % 4 && n == 4 * m;
    assert k - k % 4 == 4 * q;
  }
}
