/**
 * The ASCII-hex body of a ZPL `^GFA` graphic field: the one-bit raster read row
 * by row, `(width + 7) / 8` bytes per row (stride padding skipped), each byte
 * written as two upper-case hex digits.
 */
module ZplHex {
  import opened Wrappers
  import opened Decimal
  import Monochrome

  const HexDigits: string := "0123456789ABCDEF"

  predicate IsHexDigit(c: char) {
    c in HexDigits
  }

  /** `b.ToString("X2")`. */
  function Hex2(b: bv8): (s: string)
    ensures |s| == 2 && IsHexDigit(s[0]) && IsHexDigit(s[1])
  {
    [HexDigits[b as int / 16], HexDigits[b as int % 16]]
  }

  function HexOf(bs: seq<bv8>): (s: string)
    ensures |s| == 2 * |bs|
    decreases |bs|
  {
    if bs == [] then [] else Hex2(bs[0]) + HexOf(bs[1..])
  }

  /** Every character of the hex body is one of the sixteen upper-case hex digits. */
  lemma {:induction false} HexOfDigits(bs: seq<bv8>)
    ensures forall i :: 0 <= i < |HexOf(bs)| ==> IsHexDigit(HexOf(bs)[i])
    decreases |bs|
  {
    if bs != [] {
      HexOfDigits(bs[1..]);
      var s := HexOf(bs);
      assert s == Hex2(bs[0]) + HexOf(bs[1..]);
      forall i | 0 <= i < |s|
        ensures IsHexDigit(s[i])
      {
        if i >= 2 {
          assert s[i] == HexOf(bs[1..])[i - 2];
        }
      }
    }
  }

  lemma {:induction false} HexOfAppend(a: seq<bv8>, b: seq<bv8>)
    ensures HexOf(a + b) == HexOf(a) + HexOf(b)
    decreases |a|
  {
    if a == [] {
      assert a + b == b;
    } else {
      assert (a + b)[0] == a[0] && (a + b)[1..] == a[1..] + b;
      HexOfAppend(a[1..], b);
    }
  }

  function HexValue(c: char): Option<nat> {
    if '0' <= c <= '9' then Some(c as int - '0' as int)
    else if 'A' <= c <= 'F' then Some(c as int - 'A' as int + 10)
    else None
  }

  /** Reads an even-length upper-case hex string back into bytes. */
  function ParseHex(s: string): Option<seq<bv8>>
    decreases |s|
  {
    if s == [] then Some([])
    else if |s| == 1 then None
    else match (HexValue(s[0]), HexValue(s[1]), ParseHex(s[2..]))
      case (Some(hi), Some(lo), Some(rest)) => Some([(hi * 16 + lo) as bv8] + rest)
      case _ => None
  }

  lemma HexDigitValue(d: nat)
    requires d < 16
    ensures HexValue(HexDigits[d]) == Some(d)
  {
  }

  lemma ByteAsInt(b: bv8)
    ensures 0 <= b as int < 256 && (b as int) as bv8 == b
  {
  }

  lemma Hex2Value(b: bv8)
    ensures HexValue(Hex2(b)[0]) == Some(b as int / 16)
    ensures HexValue(Hex2(b)[1]) == Some(b as int % 16)
    ensures ((b as int / 16) * 16 + b as int % 16) as bv8 == b
  {
    var n := b as int;
    ByteAsInt(b);
    HexDigitValue(n / 16);
    HexDigitValue(n % 16);
    assert (n / 16) * 16 + n % 16 == n;
  }

  /** Reading the two digits of a byte ahead of further hex gives that byte ahead of the rest. */
  lemma ParseHexStep(b: bv8, t: string)
    ensures ParseHex(Hex2(b) + t) == if ParseHex(t).Some? then Some([b] + ParseHex(t).value) else None
  {
    var s := Hex2(b) + t;
    assert s[0] == Hex2(b)[0] && s[1] == Hex2(b)[1] && s[2..] == t;
    Hex2Value(b);
  }

  /** The printer recovers every raster byte from the hex body. */
  lemma {:induction false} HexRoundTrip(bs: seq<bv8>)
    ensures ParseHex(HexOf(bs)) == Some(bs)
    decreases |bs|
  {
    if bs != [] {
      var t := HexOf(bs[1..]);
      assert HexOf(bs) == Hex2(bs[0]) + t;
      assert ParseHex(Hex2(bs[0]) + t) == Some([bs[0]] + bs[1..]) by {
        HexRoundTrip(bs[1..]);
        ParseHexStep(bs[0], t);
      }
      assert [bs[0]] + bs[1..] == bs;
    }
  }

  /**
   * The bytes the encoder reads from a one-bit buffer: the first `bpr` bytes of
   * each of the first `rows` rows of `stride` bytes, top row first.
   */
  function RasterBytes(buf: seq<bv8>, stride: nat, bpr: nat, rows: nat): (r: seq<bv8>)
    requires bpr <= stride && rows * stride <= |buf|
    ensures |r| == bpr * rows
    decreases rows
  {
    if rows == 0 then []
    else
      Monochrome.MulLe(rows - 1, rows, stride);
      RasterBytes(buf, stride, bpr, rows - 1) + buf[(rows - 1) * stride .. (rows - 1) * stride + bpr]
  }

  /** Row `y`, byte `k` of the raster is buffer byte `y * stride + k`: padding is never read. */
  lemma {:induction false} RasterBytesAt(buf: seq<bv8>, stride: nat, bpr: nat, rows: nat, y: nat, k: nat)
    requires bpr <= stride && rows * stride <= |buf|
    requires y < rows && k < bpr
    ensures y * bpr + k < bpr * rows
    ensures RasterBytes(buf, stride, bpr, rows)[y * bpr + k] == buf[y * stride + k]
    decreases rows
  {
    Monochrome.MulLe(rows - 1, rows, stride);
    var prev := RasterBytes(buf, stride, bpr, rows - 1);
    var last := buf[(rows - 1) * stride .. (rows - 1) * stride + bpr];
    assert RasterBytes(buf, stride, bpr, rows) == prev + last;
    assert bpr * rows == bpr * (rows - 1) + bpr;
    if y < rows - 1 {
      RasterBytesAt(buf, stride, bpr, rows - 1, y, k);
    } else {
      assert y * bpr + k - |prev| == k;
    }
  }

  /** Hex body of a one-bit buffer of the given width and height. */
  function ZplHexOf(buf: seq<bv8>, stride: nat, width: nat, height: nat): string
    requires Monochrome.BytesPerRow(width) <= stride && height * stride <= |buf|
  {
    HexOf(RasterBytes(buf, stride, Monochrome.BytesPerRow(width), height))
  }

  lemma RowsFit(stride: nat, rows: nat, height: nat, len: nat)
    requires rows <= height && height * stride <= len
    ensures rows * stride <= len
  {
    Monochrome.MulLe(rows, height, stride);
  }

  lemma RasterBytesStep(buf: seq<bv8>, stride: nat, bpr: nat, y: nat)
    requires bpr <= stride && (y + 1) * stride <= |buf|
    ensures y * stride + bpr <= |buf|
    ensures RasterBytes(buf, stride, bpr, y + 1) == RasterBytes(buf, stride, bpr, y) + buf[y * stride .. y * stride + bpr]
  {
    Monochrome.MulLe(y, y + 1, stride);
  }

  /** One more row of hex: what the outer loop of the hex encoder adds per row. */
  lemma HexRowStep(buf: seq<bv8>, stride: nat, bpr: nat, y: nat, height: nat)
    requires bpr <= stride && height * stride <= |buf| && y < height
    ensures 0 <= y * stride && (y + 1) * stride <= |buf| && y * stride + bpr <= |buf|
    ensures HexOf(RasterBytes(buf, stride, bpr, y + 1))
         == HexOf(RasterBytes(buf, stride, bpr, y)) + HexOf(buf[y * stride .. y * stride + bpr])
  {
    RowsFit(stride, y + 1, height, |buf|);
    RasterBytesStep(buf, stride, bpr, y);
    HexOfAppend(RasterBytes(buf, stride, bpr, y), buf[y * stride .. y * stride + bpr]);
  }

  /** Appending the digits of one more byte extends the hex of the bytes before it. */
  lemma HexOfSnoc(row: seq<bv8>, x: nat, prefix: string)
    requires x < |row|
    ensures prefix + HexOf(row[..x]) + Hex2(row[x]) == prefix + HexOf(row[..x + 1])
  {
    assert row[..x + 1] == row[..x] + [row[x]];
    HexOfAppend(row[..x], [row[x]]);
    assert HexOf([row[x]]) == Hex2(row[x]) + HexOf([]);
  }

  /** The inner loop of the hex encoder: two digits for each of the `count` bytes from `from`. */
  method AppendRowHex(buf: seq<bv8>, from: nat, count: nat, prefix: string) returns (hex: string)
    requires from + count <= |buf|
    ensures hex == prefix + HexOf(buf[from .. from + count])
  {
    ghost var row := buf[from .. from + count];
    hex := prefix;
    var x := 0;
    assert row[..x] == [];
    assert prefix + HexOf([]) == prefix;
    while x < count
      invariant 0 <= x <= count
      invariant hex == prefix + HexOf(row[..x])
    {
      assert buf[from + x] == row[x];
      HexOfSnoc(row, x, prefix);
      hex := hex + Hex2(buf[from + x]);
      x := x + 1;
    }
    assert row[..count] == row;
  }

  /**
   * The hex loops of the printer code: two digits per byte of each row, rows
   * top to bottom, bytes beyond `(width + 7) / 8` in a row skipped.
   */
  method BitmapToZplHex(buf: seq<bv8>, stride: nat, width: nat, height: nat) returns (hex: string)
    requires Monochrome.BytesPerRow(width) <= stride && height * stride <= |buf|
    ensures hex == ZplHexOf(buf, stride, width, height)
    ensures |hex| == 2 * (Monochrome.BytesPerRow(width) * height)
  {
    var bytesPerRow := Monochrome.BytesPerRow(width);
    hex := "";
    var y := 0;
    while y < height
      invariant 0 <= y <= height
      invariant y * stride <= |buf|
      invariant hex == HexOf(RasterBytes(buf, stride, bytesPerRow, y))
    {
      HexRowStep(buf, stride, bytesPerRow, y, height);
      hex := AppendRowHex(buf, y * stride, bytesPerRow, hex);
      y := y + 1;
    }
  }

  /** `^GFA,<total>,<total>,<bytesPerRow>,<hex>` with `total = bytesPerRow * height`. */
  function GraphicField(width: nat, height: nat, hex: string): string {
    var bytesPerRow := Monochrome.BytesPerRow(width);
    var total := bytesPerRow * height;
    "^GFA," + IntToString(total) + "," + IntToString(total) + "," + IntToString(bytesPerRow) + "," + hex
  }

  /** The graphic field text of a one-bit buffer; no line break follows it. */
  method BuildZplImage(buf: seq<bv8>, stride: nat, width: nat, height: nat) returns (field: string)
    requires Monochrome.BytesPerRow(width) <= stride && height * stride <= |buf|
    ensures field == GraphicField(width, height, ZplHexOf(buf, stride, width, height))
  {
    var bytesPerRow := Monochrome.BytesPerRow(width);
    var totalBytes := bytesPerRow * height;
    var hex := BitmapToZplHex(buf, stride, width, height);
    field := "^GFA," + IntToString(totalBytes) + "," + IntToString(totalBytes) + ","
             + IntToString(bytesPerRow) + "," + hex;
  }

  /** The comma-separated parts of a command's text, as a printer splits `^GFA,a,b,c,data`. */
  function Fields(s: string): (r: seq<string>)
    ensures |r| >= 1
    decreases |s|
  {
    if s == [] then [[]]
    else if s[0] == ',' then [[]] + Fields(s[1..])
    else
      var f := Fields(s[1..]);
      [[s[0]] + f[0]] + f[1..]
  }

  lemma {:induction false} FieldsComma(a: string, b: string)
    requires ',' !in a
    ensures Fields(a + "," + b) == [a] + Fields(b)
    decreases |a|
  {
    var s := a + "," + b;
    if a == [] {
      assert s[0] == ',' && s[1..] == b;
    } else {
      assert s[0] == a[0] && s[1..] == a[1..] + "," + b;
      FieldsComma(a[1..], b);
      assert [a[0]] + a[1..] == a;
    }
  }

  lemma {:induction false} FieldsNoComma(a: string)
    requires ',' !in a
    ensures Fields(a) == [a]
    decreases |a|
  {
    if a != [] {
      FieldsNoComma(a[1..]);
      assert [a[0]] + a[1..] == a;
    }
  }

  /** A command with four comma-free parameters splits into its name and them. */
  lemma FiveFields(a: string, b: string, c: string, d: string)
    requires ',' !in a && ',' !in b && ',' !in c && ',' !in d
    ensures Fields("^GFA," + a + "," + b + "," + c + "," + d) == ["^GFA", a, b, c, d]
  {
    var s4 := c + "," + d;
    var s3 := b + "," + s4;
    var s2 := a + "," + s3;
    var s1 := "^GFA" + "," + s2;
    assert Fields(s4) == [c, d] by {
      FieldsNoComma(d);
      FieldsComma(c, d);
    }
    assert Fields(s3) == [b, c, d] by {
      FieldsComma(b, s4);
    }
    assert Fields(s2) == [a, b, c, d] by {
      FieldsComma(a, s3);
    }
    assert Fields(s1) == ["^GFA", a, b, c, d] by {
      FieldsComma("^GFA", s2);
    }
    CommandText(a, b, c, d);
  }

  lemma CommandText(a: string, b: string, c: string, d: string)
    ensures "^GFA," + a + "," + b + "," + c + "," + d == "^GFA" + "," + (a + "," + (b + "," + (c + "," + d)))
  {
  }

  lemma NumberHasNoComma(i: int)
    ensures ',' !in IntToString(i)
  {
    var s := IntToString(i);
    forall k | 0 <= k < |s|
      ensures s[k] != ','
    {
    }
  }

  /**
   * The graphic field read back part by part: split at its commas it is
   * `^GFA`, the total twice and the row width as decimal numbers that parse
   * back to `bytesPerRow * height` and `bytesPerRow`, and a hex body of twice
   * the total in digits that decodes to the raster read.
   */
  lemma GraphicFieldConsistent(buf: seq<bv8>, stride: nat, width: nat, height: nat)
    requires Monochrome.BytesPerRow(width) <= stride && height * stride <= |buf|
    ensures var f := Fields(GraphicField(width, height, ZplHexOf(buf, stride, width, height)));
            |f| == 5 && f[0] == "^GFA"
    ensures var f := Fields(GraphicField(width, height, ZplHexOf(buf, stride, width, height)));
            var total := Monochrome.BytesPerRow(width) * height;
            |f| == 5 && ParseInt(f[1]) == Some(total) && ParseInt(f[2]) == Some(total)
    ensures var f := Fields(GraphicField(width, height, ZplHexOf(buf, stride, width, height)));
            |f| == 5 && ParseInt(f[3]) == Some(Monochrome.BytesPerRow(width))
    ensures var f := Fields(GraphicField(width, height, ZplHexOf(buf, stride, width, height)));
            var bytesPerRow := Monochrome.BytesPerRow(width);
            && |f| == 5 && |f[4]| == 2 * (bytesPerRow * height)
            && ParseHex(f[4]) == Some(RasterBytes(buf, stride, bytesPerRow, height))
  {
    var bytesPerRow := Monochrome.BytesPerRow(width);
    var total := bytesPerRow * height;
    var raster := RasterBytes(buf, stride, bytesPerRow, height);
    var hex := ZplHexOf(buf, stride, width, height);
    var t, p := IntToString(total), IntToString(bytesPerRow);
    NumberHasNoComma(total);
    NumberHasNoComma(bytesPerRow);
    assert ',' !in hex by {
      HexOfDigits(raster);
    }
    var f := Fields(GraphicField(width, height, hex));
    assert f == ["^GFA", t, t, p, hex] by {
      FiveFields(t, t, p, hex);
    }
    assert f[1] == t && f[2] == t && f[3] == p && f[4] == hex;
    assert |hex| == 2 * total;
    IntToStringRoundTrip(total);
    IntToStringRoundTrip(bytesPerRow);
    HexRoundTrip(raster);
  }
}
