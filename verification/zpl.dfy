/**
 * ZPL II generation for the thermal printer: a label becomes one command
 * string, a fixed header, one block per element in document order, and the
 * end-of-format command. The text is built by appending to a string builder,
 * as the printer code does.
 */
module ZplEncoder {
  import opened Wrappers
  import opened Decimal
  import opened LabelModel
  import Units
  import ZplEscape
  import Monochrome
  import ZplHex

  /** The line terminator `AppendLine` writes (the desktop platform's new-line). */
  const NewLine: string := "\r\n"

  /** `s` as one line of output. */
  function Line(s: string): string {
    s + NewLine
  }

  /** A growable text buffer: `Append` adds text, `AppendLine` adds text and a line break. */
  class StringBuilder {
    var content: string

    constructor ()
      ensures content == ""
    {
      content := "";
    }

    method Append(s: string)
      modifies this
      ensures content == old(content) + s
    {
      content := content + s;
    }

    method AppendLine(s: string)
      modifies this
      ensures content == old(content) + Line(s)
    {
      content := content + s + NewLine;
    }
  }

  /** `^XA`, print width, label length, speed 4 and darkness 15, one command per line. */
  function Header(lbl: Label): string {
    Line("^XA")
    + Line("^PW" + IntToString(Units.ConvertToDots(Units.InchesToPixels(lbl.widthInches))))
    + Line("^LL" + IntToString(Units.ConvertToDots(Units.InchesToPixels(lbl.heightInches))))
    + Line("^PR4")
    + Line("^MD15")
  }

  const Footer: string := "^XZ" + NewLine

  /** The field-origin command `^FO<x>,<y>`, positions converted to dots. */
  function FieldOrigin(x: int, y: int): string {
    "^FO" + IntToString(Units.DotsOfPixels(x)) + "," + IntToString(Units.DotsOfPixels(y))
  }

  /** Font command, field origin, field data and a blank line. */
  function TextBlock(x: int, y: int, text: string, fontSize: int): string {
    Line("^CF0," + IntToString(Units.DotsOfPixels(fontSize)))
    + Line(FieldOrigin(x, y))
    + Line("^FD" + ZplEscape.EscapeZplText(text) + "^FS")
    + Line("")
  }

  /** Row `y` of the packed one-bit raster of `bm`: `(width + 7) / 8` bytes. */
  function RowBytes(bm: Bitmap, y: nat): (r: seq<bv8>)
    requires bm.Valid() && y < bm.height
    ensures |r| == Monochrome.BytesPerRow(bm.width)
  {
    seq(Monochrome.BytesPerRow(bm.width), k requires 0 <= k => Monochrome.PackedByte(bm, y, k))
  }

  /** The first `rows` rows of the packed raster of `bm`, top row first. */
  function MonoRows(bm: Bitmap, rows: nat): (r: seq<bv8>)
    requires bm.Valid() && rows <= bm.height
    ensures |r| == Monochrome.BytesPerRow(bm.width) * rows
    decreases rows
  {
    if rows == 0 then [] else MonoRows(bm, rows - 1) + RowBytes(bm, rows - 1)
  }

  /** The raster bytes a decoded picture is sent as. */
  function MonoBytes(bm: Bitmap): seq<bv8>
    requires bm.Valid()
  {
    MonoRows(bm, bm.height)
  }

  /** Field origin line, then, when there is a picture, its graphic field with no line break. */
  function ImageBlock(x: int, y: int, image: Option<Bitmap>): string
    requires image.Some? ==> image.value.Valid()
  {
    Line(FieldOrigin(x, y))
    + match image
      case None => ""
      case Some(bm) => ZplHex.GraphicField(bm.width, bm.height, ZplHex.HexOf(MonoBytes(bm)))
  }

  /** What one element contributes; a kind the printer does not know contributes nothing. */
  function Block(e: Element): string
    requires ElementOk(e)
  {
    match e
    case Text(x, y, _, _, text, fontSize) => TextBlock(x, y, text, fontSize)
    case Image(x, y, _, _, image) => ImageBlock(x, y, image)
    case Other(_, _, _, _) => ""
  }

  /** The blocks of `es`, in order. */
  function Blocks(es: seq<Element>): string
    requires ElementsOk(es)
    decreases |es|
  {
    if es == [] then "" else Blocks(es[..|es| - 1]) + Block(es[|es| - 1])
  }

  lemma BlocksSnoc(es: seq<Element>, i: nat)
    requires ElementsOk(es)
    requires i < |es|
    ensures Blocks(es[..i + 1]) == Blocks(es[..i]) + Block(es[i])
  {
    assert es[..i + 1][..i] == es[..i];
  }

  /** The complete ZPL text of a label. */
  function ZplOf(lbl: Label): string
    requires WellFormed(lbl)
  {
    Header(lbl) + Blocks(lbl.elements) + Footer
  }

  // ---------------------------------------------------------------------------
  // The raster the printer code builds in its one-bit buffer is MonoBytes.

  /** A buffer in which every row-`r`, byte-`k` cell holds the packed byte of `bm`. */
  ghost predicate HoldsPacked(buf: seq<bv8>, bm: Bitmap, stride: nat)
    requires bm.Valid()
  {
    forall r, k :: 0 <= r < bm.height && 0 <= k < stride ==>
      Monochrome.Idx(stride, r, k) < |buf| && buf[Monochrome.Idx(stride, r, k)] == Monochrome.PackedByte(bm, r, k)
  }

  /** Row `y` of such a buffer starts with the packed bytes of that row. */
  lemma PackedRow(buf: seq<bv8>, bm: Bitmap, stride: nat, y: nat)
    requires bm.Valid() && Monochrome.BytesPerRow(bm.width) <= stride
    requires y < bm.height && y * stride + Monochrome.BytesPerRow(bm.width) <= |buf|
    requires HoldsPacked(buf, bm, stride)
    ensures buf[y * stride .. y * stride + Monochrome.BytesPerRow(bm.width)] == RowBytes(bm, y)
  {
    var bpr := Monochrome.BytesPerRow(bm.width);
    var slice := buf[y * stride .. y * stride + bpr];
    forall k | 0 <= k < bpr
      ensures slice[k] == RowBytes(bm, y)[k]
    {
      Monochrome.IdxIsProduct(stride, y, k);
      assert slice[k] == buf[Monochrome.Idx(stride, y, k)];
    }
  }

  /** Reading the first `bytesPerRow` bytes of each row of such a buffer gives the packed raster. */
  lemma {:induction false} PackedBufferRaster(buf: seq<bv8>, bm: Bitmap, stride: nat, rows: nat)
    requires bm.Valid() && Monochrome.BytesPerRow(bm.width) <= stride
    requires rows <= bm.height && rows * stride <= |buf|
    requires HoldsPacked(buf, bm, stride)
    ensures ZplHex.RasterBytes(buf, stride, Monochrome.BytesPerRow(bm.width), rows) == MonoRows(bm, rows)
    decreases rows
  {
    if rows > 0 {
      var bpr := Monochrome.BytesPerRow(bm.width);
      ZplHex.RasterBytesStep(buf, stride, bpr, rows - 1);
      Monochrome.MulLe(rows - 1, rows, stride);
      PackedBufferRaster(buf, bm, stride, rows - 1);
      PackedRow(buf, bm, stride, rows - 1);
    }
  }

  /** Byte `k` of row `y` of the raster is the packed byte of that row. */
  lemma {:induction false} MonoRowsAt(bm: Bitmap, rows: nat, y: nat, k: nat)
    requires bm.Valid() && rows <= bm.height && y < rows && k < Monochrome.BytesPerRow(bm.width)
    ensures y * Monochrome.BytesPerRow(bm.width) + k < |MonoRows(bm, rows)|
    ensures MonoRows(bm, rows)[y * Monochrome.BytesPerRow(bm.width) + k] == Monochrome.PackedByte(bm, y, k)
    decreases rows
  {
    var bpr := Monochrome.BytesPerRow(bm.width);
    Monochrome.MulLe(y, rows - 1, bpr);
    var prev := MonoRows(bm, rows - 1);
    assert |prev| == bpr * (rows - 1) == (rows - 1) * bpr;
    if y < rows - 1 {
      MonoRowsAt(bm, rows - 1, y, k);
    } else {
      assert y * bpr + k - |prev| == k;
    }
  }

  /**
   * The raster sent for a picture: bit `j` (most significant first) of byte
   * `k` of row `y` is set exactly when pixel `8k + j` of that row exists and
   * is dark, so bits past the right edge are clear.
   */
  lemma ImageRasterBits(bm: Bitmap, y: nat, k: nat, j: nat)
    requires bm.Valid() && y < bm.height && k < Monochrome.BytesPerRow(bm.width) && j < 8
    ensures y * Monochrome.BytesPerRow(bm.width) + k < |MonoBytes(bm)|
    ensures Monochrome.BitSet(MonoBytes(bm)[y * Monochrome.BytesPerRow(bm.width) + k], j)
        <==> 8 * k + j < bm.width && Monochrome.Dark(bm, 8 * k + j, y)
  {
    MonoRowsAt(bm, bm.height, y, k);
    Monochrome.PackedBits(bm, y, k, j);
  }

  // ---------------------------------------------------------------------------
  // The printer code.

  /** Appends the block of a text element. */
  method RenderTextElement(sb: StringBuilder, e: Element)
    requires e.Text?
    modifies sb
    ensures sb.content == old(sb.content) + TextBlock(e.x, e.y, e.text, e.fontSize)
  {
    var x := Units.DotsOfPixels(e.x);
    var y := Units.DotsOfPixels(e.y);
    var fontHeight := Units.DotsOfPixels(e.fontSize);
    ghost var start := sb.content;
    ghost var font := Line("^CF0," + IntToString(fontHeight));
    ghost var origin := Line(FieldOrigin(e.x, e.y));
    ghost var data := Line("^FD" + ZplEscape.EscapeZplText(e.text) + "^FS");
    sb.AppendLine("^CF0," + IntToString(fontHeight));
    sb.AppendLine("^FO" + IntToString(x) + "," + IntToString(y));
    ZplEscape.ConcatAssoc(start, font, origin);
    sb.AppendLine("^FD" + ZplEscape.EscapeZplText(e.text) + "^FS");
    ZplEscape.ConcatAssoc(start, font + origin, data);
    sb.AppendLine("");
    ZplEscape.ConcatAssoc(start, font + origin + data, Line(""));
  }

  /**
   * Appends the block of an image element: the field origin, then, when there
   * is a picture, its raster thresholded into a zeroed one-bit buffer and
   * encoded as a graphic field.
   */
  method RenderImageElement(sb: StringBuilder, e: Element)
    requires e.Image? && ElementOk(e)
    modifies sb
    ensures sb.content == old(sb.content) + ImageBlock(e.x, e.y, e.image)
  {
    var x := Units.DotsOfPixels(e.x);
    var y := Units.DotsOfPixels(e.y);
    ghost var start := sb.content;
    ghost var origin := Line(FieldOrigin(e.x, e.y));
    sb.AppendLine("^FO" + IntToString(x) + "," + IntToString(y));
    assert sb.content == start + origin;
    if e.image.None? {
      return;
    }
    var bm := e.image.value;
    var mono, stride := Monochrome.ConvertToMonochrome(bm);
    assert HoldsPacked(mono[..], bm, stride);
    assert bm.height * stride == mono.Length;
    var field := ZplHex.BuildZplImage(mono[..], stride, bm.width, bm.height);
    PackedBufferRaster(mono[..], bm, stride, bm.height);
    assert field == ZplHex.GraphicField(bm.width, bm.height, ZplHex.HexOf(MonoBytes(bm)));
    sb.Append(field);
    assert ImageBlock(e.x, e.y, e.image) == origin + field;
    ZplEscape.ConcatAssoc(start, origin, field);
  }

  /** Dispatches on the element kind; any other kind is passed over. */
  method RenderElement(sb: StringBuilder, e: Element)
    requires ElementOk(e)
    modifies sb
    ensures sb.content == old(sb.content) + Block(e)
  {
    if e.Text? {
      RenderTextElement(sb, e);
    }
    if e.Image? {
      RenderImageElement(sb, e);
    }
  }

  /** The header lines of the label: start of format, print width, label length, speed, darkness. */
  method AppendHeader(sb: StringBuilder, lbl: Label)
    modifies sb
    ensures sb.content == old(sb.content) + Header(lbl)
  {
    ghost var start := sb.content;
    var widthDots := Units.ConvertToDots(Units.InchesToPixels(lbl.widthInches));
    var heightDots := Units.ConvertToDots(Units.InchesToPixels(lbl.heightInches));
    ghost var l1, l2, l3 := Line("^XA"), Line("^PW" + IntToString(widthDots)), Line("^LL" + IntToString(heightDots));
    ghost var l4, l5 := Line("^PR4"), Line("^MD15");
    sb.AppendLine("^XA");
    sb.AppendLine("^PW" + IntToString(widthDots));
    ZplEscape.ConcatAssoc(start, l1, l2);
    sb.AppendLine("^LL" + IntToString(heightDots));
    ZplEscape.ConcatAssoc(start, l1 + l2, l3);
    sb.AppendLine("^PR4");
    ZplEscape.ConcatAssoc(start, l1 + l2 + l3, l4);
    sb.AppendLine("^MD15");
    ZplEscape.ConcatAssoc(start, l1 + l2 + l3 + l4, l5);
  }

  /** Builds the ZPL text of a label: header, the blocks of its elements in order, footer. */
  method BuildZpl(lbl: Label) returns (zpl: string)
    requires WellFormed(lbl)
    ensures zpl == ZplOf(lbl)
  {
    var sb := new StringBuilder();
    AppendHeader(sb, lbl);
    ElementsOkPrefix(lbl.elements, 0);
    var i := 0;
    while i < |lbl.elements|
      invariant 0 <= i <= |lbl.elements|
      invariant ElementsOk(lbl.elements[..i])
      invariant sb.content == Header(lbl) + Blocks(lbl.elements[..i])
    {
      ElementsOkPrefix(lbl.elements, i + 1);
      BlocksSnoc(lbl.elements, i);
      ZplEscape.ConcatAssoc(Header(lbl), Blocks(lbl.elements[..i]), Block(lbl.elements[i]));
      RenderElement(sb, lbl.elements[i]);
      i := i + 1;
    }
    assert lbl.elements[..i] == lbl.elements;
    ghost var body := sb.content;
    sb.AppendLine("^XZ");
    zpl := sb.content;
    assert zpl == body + Footer;
  }
}
