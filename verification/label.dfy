/**
 * The label document the printers read: its size in inches and its elements in
 * paint order. Element positions and sizes are in designer pixels.
 */
module LabelModel {
  import opened Wrappers

  /** An unsigned 8-bit value of the colour buffer. */
  newtype byte = x: int | 0 <= x < 256

  /**
   * A decoded raster image: `width` x `height` pixels, four bytes per pixel in
   * memory order blue, green, red, alpha, rows packed at `4 * width` bytes.
   */
  datatype Bitmap = Bitmap(width: nat, height: nat, bgra: seq<byte>) {
    predicate Valid() {
      |bgra| == RowsOf(4 * width, height)
    }
  }

  /** The bytes of `rows` rows of `rowBytes` bytes each, counted row by row (see RowsOfIsProduct). */
  function RowsOf(rowBytes: nat, rows: nat): nat
    decreases rows
  {
    if rows == 0 then 0 else RowsOf(rowBytes, rows - 1) + rowBytes
  }

  lemma {:induction false} RowsOfIsProduct(rowBytes: nat, rows: nat)
    ensures RowsOf(rowBytes, rows) == rows * rowBytes
    decreases rows
  {
    if rows > 0 {
      RowsOfIsProduct(rowBytes, rows - 1);
      assert (rows - 1) * rowBytes + rowBytes == rows * rowBytes;
    }
  }

  /**
   * `Image` carries the decoded picture, or `None` when the element's base64
   * string is null or empty. `Other` is any element kind the printers do not know.
   */
  datatype Element =
    | Text(x: int, y: int, width: int, height: int, text: string, fontSize: int)
    | Image(x: int, y: int, width: int, height: int, image: Option<Bitmap>)
    | Other(x: int, y: int, width: int, height: int)

  datatype Label = Label(name: string, widthInches: real, heightInches: real, elements: seq<Element>)

  predicate ElementOk(e: Element) {
    e.Image? && e.image.Some? ==> e.image.value.Valid()
  }

  predicate ElementsOk(es: seq<Element>) {
    forall i :: 0 <= i < |es| ==> ElementOk(es[i])
  }

  lemma ElementsOkPrefix(es: seq<Element>, n: nat)
    requires ElementsOk(es) && n <= |es|
    ensures ElementsOk(es[..n])
  {
  }

  lemma ElementsOkAppend(a: seq<Element>, b: seq<Element>)
    requires ElementsOk(a) && ElementsOk(b)
    ensures ElementsOk(a + b)
  {
    forall i | 0 <= i < |a + b|
      ensures ElementOk((a + b)[i])
    {
      if i < |a| {
        assert (a + b)[i] == a[i];
      } else {
        assert (a + b)[i] == b[i - |a|];
      }
    }
  }

  /** Every decoded image in the label has the size its header declares. */
  predicate WellFormed(lbl: Label) {
    ElementsOk(lbl.elements)
  }
}
