/**
 * Thresholding a 32-bit BGRA bitmap into a packed one-bit raster, MSB first:
 * pixel (x, y) is read at byte `y * 4 * width + 4 * x` (blue, green, red), and
 * its bit is the mask `0x80 >> (x % 8)` of byte `y * stride + x / 8`.
 */
module Monochrome {
  import opened LabelModel

  /** Bytes that hold one row of one-bit pixels. */
  function BytesPerRow(width: nat): nat {
    (width + 7) / 8
  }

  /** Row stride of a one-bit GDI+ bitmap: rows are padded to whole 32-bit words. */
  function MonoStride(width: nat): (s: nat)
    ensures BytesPerRow(width) <= s
  {
    ((width + 31) / 32) * 4
  }

  /**
   * Byte position of column byte `k` in row `y` of a buffer with the given
   * stride, `y * stride + k`, counted row by row (see IdxIsProduct).
   */
  function Idx(stride: nat, y: nat, k: nat): nat
    decreases y
  {
    if y == 0 then k else stride + Idx(stride, y - 1, k)
  }

  lemma {:induction false} IdxIsProduct(stride: nat, y: nat, k: nat)
    ensures Idx(stride, y, k) == y * stride + k
    decreases y
  {
    if y > 0 {
      IdxIsProduct(stride, y - 1, k);
      assert (y - 1) * stride + stride == y * stride;
    }
  }

  lemma MulLe(a: nat, b: nat, c: nat)
    requires a <= b
    ensures a * c <= b * c
  {
  }

  lemma IdxBound(stride: nat, height: nat, y: nat, k: nat)
    requires y < height && k < stride
    ensures Idx(stride, y, k) < stride * height
  {
    IdxIsProduct(stride, y, k);
    MulLe(y + 1, height, stride);
    assert (y + 1) * stride == y * stride + stride;
  }

  lemma IdxInjective(stride: nat, y1: nat, k1: nat, y2: nat, k2: nat)
    requires k1 < stride && k2 < stride
    requires Idx(stride, y1, k1) == Idx(stride, y2, k2)
    ensures y1 == y2 && k1 == k2
  {
    IdxIsProduct(stride, y1, k1);
    IdxIsProduct(stride, y2, k2);
  }

  /** Offset of pixel (x, y) in the BGRA buffer, whose stride is `4 * width`. */
  function PixelOffset(bm: Bitmap, x: nat, y: nat): nat {
    Idx(4 * bm.width, y, 4 * x)
  }

  lemma PixelInRange(bm: Bitmap, x: nat, y: nat)
    requires bm.Valid() && x < bm.width && y < bm.height
    ensures PixelOffset(bm, x, y) + 3 < |bm.bgra|
  {
    var stride := 4 * bm.width;
    IdxBound(stride, bm.height, y, 4 * x + 3);
    IdxIsProduct(stride, y, 4 * x + 3);
    IdxIsProduct(stride, y, 4 * x);
    RowsOfIsProduct(stride, bm.height);
    assert stride * bm.height == bm.height * stride;
  }

  /** Flat average of red, green and blue (no perceptual weights), rounded down. */
  function Gray(bm: Bitmap, x: nat, y: nat): (g: int)
    requires bm.Valid() && x < bm.width && y < bm.height
    ensures 0 <= g <= 255
  {
    PixelInRange(bm, x, y);
    var i := PixelOffset(bm, x, y);
    (bm.bgra[i + 2] as int + bm.bgra[i + 1] as int + bm.bgra[i] as int) / 3
  }

  /** A pixel prints black when its gray level is below 128. */
  predicate Dark(bm: Bitmap, x: nat, y: nat)
    requires bm.Valid() && x < bm.width && y < bm.height
  {
    Gray(bm, x, y) < 128
  }

  /** Bit `j` of a byte, counting from the most significant: `0x80 >> j`. */
  function Mask(j: nat): bv8
    requires j < 8
  {
    [0x80, 0x40, 0x20, 0x10, 0x08, 0x04, 0x02, 0x01][j]
  }

  lemma MaskIsShift(j: nat)
    requires j < 8
    ensures Mask(j) == (0x80 as bv8) >> j
  {
  }

  predicate BitSet(b: bv8, j: nat)
    requires j < 8
  {
    b & Mask(j) != 0
  }

  /** Byte `k` of row `y` after the first `n` pixels of that row have been thresholded. */
  function RowByte(bm: Bitmap, y: nat, k: nat, n: nat): bv8
    requires bm.Valid() && y < bm.height && n <= bm.width
    decreases n
  {
    if n == 0 then 0
    else RowByte(bm, y, k, n - 1) | (if (n - 1) / 8 == k && Dark(bm, n - 1, y) then Mask((n - 1) % 8) else 0)
  }

  /** Byte `k` of row `y` of the finished raster. */
  function PackedByte(bm: Bitmap, y: nat, k: nat): bv8
    requires bm.Valid() && y < bm.height
  {
    RowByte(bm, y, k, bm.width)
  }

  lemma OrBit(a: bv8, b: bv8, j: nat)
    requires j < 8
    ensures BitSet(a | b, j) <==> BitSet(a, j) || BitSet(b, j)
  {
  }

  lemma MaskBit(i: nat, j: nat)
    requires i < 8 && j < 8
    ensures BitSet(Mask(i), j) <==> i == j
  {
  }

  lemma DivModPosition(p: nat, k: nat, j: nat)
    requires j < 8
    ensures p == 8 * k + j <==> p / 8 == k && p % 8 == j
  {
  }

  lemma RowByteStep(bm: Bitmap, y: nat, k: nat, p: nat, j: nat)
    requires bm.Valid() && y < bm.height && p < bm.width && j < 8
    ensures BitSet(RowByte(bm, y, k, p + 1), j) <==>
            BitSet(RowByte(bm, y, k, p), j) || (p == 8 * k + j && Dark(bm, p, y))
  {
    var m: bv8 := if p / 8 == k && Dark(bm, p, y) then Mask(p % 8) else 0;
    assert RowByte(bm, y, k, p + 1) == RowByte(bm, y, k, p) | m;
    OrBit(RowByte(bm, y, k, p), m, j);
    DivModPosition(p, k, j);
    if p / 8 == k && Dark(bm, p, y) {
      MaskBit(p % 8, j);
    }
  }

  lemma {:induction false} RowByteBits(bm: Bitmap, y: nat, k: nat, n: nat, j: nat)
    requires bm.Valid() && y < bm.height && n <= bm.width && j < 8
    ensures BitSet(RowByte(bm, y, k, n), j) <==> 8 * k + j < n && Dark(bm, 8 * k + j, y)
    decreases n
  {
    if n > 0 {
      RowByteBits(bm, y, k, n - 1, j);
      RowByteStep(bm, y, k, n - 1, j);
    }
  }

  /**
   * In the finished raster, the bit of pixel (x, y) — mask `0x80 >> (x % 8)` of
   * byte `x / 8` of row `y` — is set exactly when the pixel is dark, and the
   * padding bits past the last pixel of a row are clear.
   */
  lemma PackedBits(bm: Bitmap, y: nat, k: nat, j: nat)
    requires bm.Valid() && y < bm.height && j < 8
    ensures BitSet(PackedByte(bm, y, k), j) <==> 8 * k + j < bm.width && Dark(bm, 8 * k + j, y)
  {
    RowByteBits(bm, y, k, bm.width, j);
  }

  lemma PixelBit(bm: Bitmap, x: nat, y: nat)
    requires bm.Valid() && x < bm.width && y < bm.height
    ensures BitSet(PackedByte(bm, y, x / 8), x % 8) <==> Dark(bm, x, y)
  {
    PackedBits(bm, y, x / 8, x % 8);
  }

  /** The threshold sits between gray 127 (black) and 128 (white). */
  lemma ThresholdBoundary(bm: Bitmap)
    requires bm.width == 1 && bm.height == 1
    ensures bm.bgra == [127, 127, 127, 255] ==> Dark(bm, 0, 0)
    ensures bm.bgra == [128, 128, 128, 255] ==> !Dark(bm, 0, 0)
    ensures bm.bgra == [128, 128, 127, 255] ==> Dark(bm, 0, 0)
  {
  }

  /**
   * Where the thresholding loops are, for byte `k` of row `r`, after rows
   * `< cy` and pixels `< cx` of row `cy`.
   */
  ghost function Progress(bm: Bitmap, r: nat, k: nat, cy: nat, cx: nat): bv8
    requires bm.Valid() && r < bm.height && cx <= bm.width
  {
    if r < cy then PackedByte(bm, r, k)
    else if r == cy then RowByte(bm, r, k, cx)
    else 0
  }

  /**
   * `buf`, `stride` bytes per row, holds what the thresholding loops have
   * written once every pixel before pixel `x` of row `y` is done.
   */
  ghost predicate Thresholded(buf: seq<bv8>, bm: Bitmap, stride: nat, y: nat, x: nat)
    requires bm.Valid() && x <= bm.width
  {
    forall r, k :: 0 <= r < bm.height && 0 <= k < stride ==>
      Idx(stride, r, k) < |buf| && buf[Idx(stride, r, k)] == Progress(bm, r, k, y, x)
  }

  lemma OrZero(a: bv8)
    ensures a | 0 == a
  {
  }

  /** A zeroed buffer is the state before the first pixel. */
  lemma ThresholdStart(buf: seq<bv8>, bm: Bitmap, stride: nat)
    requires bm.Valid() && |buf| == stride * bm.height
    requires forall i :: 0 <= i < |buf| ==> buf[i] == 0
    ensures Thresholded(buf, bm, stride, 0, 0)
  {
    forall r, k | 0 <= r < bm.height && 0 <= k < stride
      ensures Idx(stride, r, k) < |buf| && buf[Idx(stride, r, k)] == Progress(bm, r, k, 0, 0)
    {
      IdxBound(stride, bm.height, r, k);
    }
  }

  /** Pixel (x, y) adds its mask to byte `x / 8` of row `y` when it is dark, and nothing to any other byte. */
  lemma ProgressNext(bm: Bitmap, r: nat, k: nat, y: nat, x: nat)
    requires bm.Valid() && r < bm.height && y < bm.height && x < bm.width
    ensures Progress(bm, r, k, y, x + 1)
         == if r == y && k == x / 8 && Dark(bm, x, y) then Progress(bm, r, k, y, x) | Mask(x % 8)
            else Progress(bm, r, k, y, x)
  {
    if r == y {
      RowByteNext(bm, y, k, x);
    }
  }

  lemma RowByteNext(bm: Bitmap, y: nat, k: nat, x: nat)
    requires bm.Valid() && y < bm.height && x < bm.width
    ensures RowByte(bm, y, k, x + 1)
         == if k == x / 8 && Dark(bm, x, y) then RowByte(bm, y, k, x) | Mask(x % 8) else RowByte(bm, y, k, x)
  {
    if !(k == x / 8 && Dark(bm, x, y)) {
      OrZero(RowByte(bm, y, k, x));
    }
  }

  /** Thresholding a light pixel changes nothing. */
  lemma ThresholdLight(buf: seq<bv8>, bm: Bitmap, stride: nat, y: nat, x: nat)
    requires bm.Valid() && y < bm.height && x < bm.width
    requires Thresholded(buf, bm, stride, y, x) && !Dark(bm, x, y)
    ensures Thresholded(buf, bm, stride, y, x + 1)
  {
    forall r, k | 0 <= r < bm.height && 0 <= k < stride
      ensures Idx(stride, r, k) < |buf| && buf[Idx(stride, r, k)] == Progress(bm, r, k, y, x + 1)
    {
      ProgressNext(bm, r, k, y, x);
    }
  }

  /** Thresholding a dark pixel (x, y) ORs its mask into byte `x / 8` of row `y`, and changes nothing else. */
  lemma ThresholdDark(buf: seq<bv8>, bm: Bitmap, stride: nat, y: nat, x: nat)
    requires bm.Valid() && y < bm.height && x < bm.width && x / 8 < stride
    requires Thresholded(buf, bm, stride, y, x) && Idx(stride, y, x / 8) < |buf| && Dark(bm, x, y)
    ensures Thresholded(buf[Idx(stride, y, x / 8) := buf[Idx(stride, y, x / 8)] | Mask(x % 8)], bm, stride, y, x + 1)
  {
    var t := Idx(stride, y, x / 8);
    var next := buf[t := buf[t] | Mask(x % 8)];
    forall r, k | 0 <= r < bm.height && 0 <= k < stride
      ensures Idx(stride, r, k) < |next| && next[Idx(stride, r, k)] == Progress(bm, r, k, y, x + 1)
    {
      ProgressNext(bm, r, k, y, x);
      if !(r == y && k == x / 8) && Idx(stride, r, k) == t {
        IdxInjective(stride, r, k, y, x / 8);
      }
    }
  }

  /** A finished row is the same state as the start of the next one. */
  lemma ThresholdRowDone(buf: seq<bv8>, bm: Bitmap, stride: nat, y: nat)
    requires bm.Valid() && y < bm.height
    requires Thresholded(buf, bm, stride, y, bm.width)
    ensures Thresholded(buf, bm, stride, y + 1, 0)
  {
  }

  /**
   * The inner loop of the thresholding: ORs the mask of every dark pixel of row
   * `y` into byte `x / 8` of that row, and changes nothing else.
   */
  method ThresholdRow(bm: Bitmap, dst: array<bv8>, stride: nat, y: nat)
    requires bm.Valid() && BytesPerRow(bm.width) <= stride && y < bm.height
    requires Thresholded(dst[..], bm, stride, y, 0)
    modifies dst
    ensures Thresholded(dst[..], bm, stride, y, bm.width)
  {
    var x := 0;
    while x < bm.width
      invariant 0 <= x <= bm.width
      invariant Thresholded(dst[..], bm, stride, y, x)
    {
      PixelInRange(bm, x, y);
      var srcIndex := PixelOffset(bm, x, y);
      var red := bm.bgra[srcIndex + 2];
      var green := bm.bgra[srcIndex + 1];
      var blue := bm.bgra[srcIndex];
      var gray := (red as int + green as int + blue as int) / 3;
      assert gray == Gray(bm, x, y);
      assert Idx(stride, y, x / 8) < dst.Length;
      if gray < 128 {
        ThresholdDark(dst[..], bm, stride, y, x);
        var dstIndex := Idx(stride, y, x / 8);
        var mask := (0x80 as bv8) >> (x % 8);
        MaskIsShift(x % 8);
        ghost var pre := dst[..];
        dst[dstIndex] := dst[dstIndex] | mask;
        assert dst[..] == pre[dstIndex := pre[dstIndex] | mask];
      } else {
        ThresholdLight(dst[..], bm, stride, y, x);
      }
      x := x + 1;
    }
  }

  lemma MulNonNegative(a: nat, b: nat)
    ensures 0 <= a * b
  {
  }

  /**
   * Makes a zeroed (all white) one-bit buffer with the padded stride and ORs
   * the mask of every dark pixel into it, so that it ends holding exactly the
   * packed raster, padding bytes included.
   */
  method ConvertToMonochrome(bm: Bitmap) returns (mono: array<bv8>, stride: nat)
    requires bm.Valid()
    ensures fresh(mono)
    ensures stride == MonoStride(bm.width) && mono.Length == stride * bm.height
    ensures forall r, k :: 0 <= r < bm.height && 0 <= k < stride ==>
              Idx(stride, r, k) < mono.Length && mono[Idx(stride, r, k)] == PackedByte(bm, r, k)
  {
    stride := MonoStride(bm.width);
    MulNonNegative(stride, bm.height);
    mono := new bv8[stride * bm.height](_ => 0);
    ThresholdStart(mono[..], bm, stride);
    var y := 0;
    while y < bm.height
      invariant 0 <= y <= bm.height
      invariant Thresholded(mono[..], bm, stride, y, 0)
    {
      ThresholdRow(bm, mono, stride, y);
      ThresholdRowDone(mono[..], bm, stride, y);
      y := y + 1;
    }
  }
}
