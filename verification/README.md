# Label printing codec, modelled in Dafny

This project models the part of the LabelPrinting system that turns a label
document into printer output:

- **ZPL II for the network thermal printer** (`ZebraTcpPrinter`). Sizes and
  positions in designer pixels (100 per inch) become printer dots (203 per
  inch), truncated toward zero. The output is a fixed header (`^XA`, `^PW`,
  `^LL`, `^PR4`, `^MD15`), one block per element in document order, then
  `^XZ`.
  - In the text of a text field, every `^`, `~` and `\` is replaced by a
    `^FH` sequence. A printer ends the field data at that `^FH` (see
    "## Findings").
  - Pictures are thresholded into a packed one-bit raster, most significant
    bit first. The raster is sent as an ASCII-hex `^GFA` graphic field.
- **The PDF printer** (`PdfLabelPrinter`): the output file name made from
  the label name, the page size in points, and where text elements are
  placed.
- **The printer factory** (`LabelPrinterFactory`): choosing a printer from
  the configured type, ignoring letter case.

## Structure

The model follows the source's own form.

- **Pure code becomes functions and lemmas:** unit conversion, escaping,
  file-name sanitising, the factory switch.
- **Step-by-step code becomes methods with loop invariants:**
  - The string builder that `BuildZpl` and the `Render*` methods append to is
    a class, `ZplEncoder.StringBuilder`.
  - The threshold loop ORs bits in place into a byte `array`.
  - The hex loops append to a string.
- **Each method is proved against a specification function.** The specs are
  `ZplOf`, `PackedByte` and `ZplHex.ZplHexOf`. The properties the source
  promises are then proved about those functions.

| file | module | models |
|---|---|---|
| wrappers.dfy | `Wrappers` | `Option`, `Result` |
| decimal.dfy | `Decimal` | integer to decimal text, its parser, the round trip |
| label.dfy | `LabelModel` | label, elements, decoded bitmap |
| units.dfy | `Units` | pixel to dot and pixel to point conversion |
| escape.dfy | `ZplEscape` | `EscapeZplText`, how a printer reads field data, the intended `^FH` escape |
| monochrome.dfy | `Monochrome` | `ConvertToMonochrome` |
| hex.dfy | `ZplHex` | `BitmapToZplHex`, `BuildZplImage` |
| zpl.dfy | `ZplEncoder` | `BuildZpl`, `RenderElement`, `RenderTextElement`, `RenderImageElement` |
| zpl_facts.dfy | `ZplFacts` | properties of the whole ZPL text |
| pdf.dfy | `PdfPrinter` | `SanitizeFileName`, `ConvertToPoints`, file name, page size |
| factory.dfy | `PrinterFactory` | `LabelPrinterFactory.Create` |

### Modelling decisions

- **Element positions and font sizes are whole designer pixels** (`int`).
  - The source's `X`, `Y` and `FontSize` are `double`
    (LabelPrinting.Domain/Entities/Label/Elements/LabelElement.cs:6-7,
    LabelTextElement.cs:6). The model takes only whole values.
  - For an integer `p`, the source's `(int)(p / 100.0 * 203)` is
    `p * 203 / 100` truncated toward zero.
  - `Units.DotsOfPixelsExact` proves that the real-valued conversion and
    this integer form agree.
  - Label sizes in inches stay `real`. The header uses the real-valued
    `Units.ConvertToDots`.
- **One label size serves both printers.** The ZPL path reads
  `LabelWidthInches` and `LabelHeightInches` (ZebraTcpPrinter.cs:65-66). The
  PDF path reads the label's `WidthInches` and `HeightInches`
  (PdfLabelPrinter.cs:21-22). The model has one pair, `widthInches` and
  `heightInches`, so it assumes both pairs hold the same size.
- **The host is assumed to be Windows.** The ZPL text and the PDF file name
  are built in the API service that loads a label and calls the printer
  (LabelPrinting.Application/Labels/Services/LabelService.cs:58-60). The thermal
  printer's picture path needs Windows: it uses System.Drawing (GDI+) bitmaps,
  `LockBits` and `Format1bppIndexed` (ZebraTcpPrinter.cs:7-8, :155-198), which
  .NET 6 and later support only on Windows.
  On Windows:
  - `Environment.NewLine` is `"\r\n"`;
  - `Path.GetInvalidFileNameChars()` is the Windows set below.
- **The image is taken already decoded**, as `width`, `height` and
  `4 * width * height` bytes in blue, green, red, alpha order.
  - An element whose base64 string is null or empty has no image (`None`).
- **The one-bit destination is a fresh zero-filled (all white) array.**
  - `ConvertToMonochrome` allocates it, as the source allocates a new one-bit
    bitmap, and returns it with its stride.
  - Its stride is the GDI+ stride for one-bit bitmaps, `((width + 31) / 32) * 4`.
  - `BitmapToZplHex` takes any stride that holds a row.
- **Buffer positions are counted row by row.** `Monochrome.Idx(stride, y, k)`
  and `LabelModel.RowsOf` add one row at a time. `Monochrome.IdxIsProduct`
  and `LabelModel.RowsOfIsProduct` prove that they equal `y * stride + k` and
  `rows * rowBytes`.
- **The invalid file-name characters are a parameter.**
  - `PdfPrinter.WindowsInvalidChars` is the Windows set: code points 0-31
    and `" < > | : * ? \ /`.
  - The properties are proved for any set that allows `_` and the letters
    of `Label`.
- **The C# `Split`/`Join` pair is modelled as `Pieces` and `Join`.**
  - `Scan`, a one-pass left-to-right scanner, is an independent reference
    definition of it.
  - `PdfPrinter.ScanMatchesJoin` proves the two equal.

### Behaviour of the code

- **Unknown element kinds are skipped silently.** `RenderElement`
  (ZebraTcpPrinter.cs:106-117) has one type test for text and one for
  images, and emits nothing for any other kind.
  `ZplFacts.UnknownElementsSkipped` proves the output is the same as if such
  elements were absent.
- **Positions truncate.** A text element at (50, 50) pixels is at 101.5 dots,
  and the `(int)` cast gives `^FO101,101` (`ZplFacts.PlainTextLabel`).
- **Each text block ends with a blank line** (`AppendLine()` at
  ZebraTcpPrinter.cs:131).
- **Nothing follows a graphic field.** `sb.Append` at ZebraTcpPrinter.cs:143
  adds no `^FS` and no line break after `^GFA`.

## Model

| member | source | states |
|---|---|---|
| Units.ConvertToDots | LabelPrinting.Infrastructure/LabelPrinters/ZebraTcpPrinter.cs:87-91 | the dot count is the pixel length times 203/100 truncated toward zero: for non-negative input the largest whole number not above it, for negative input the smallest not below it |
| Units.DotsOfPixelsExact | LabelPrinting.Infrastructure/LabelPrinters/ZebraTcpPrinter.cs:20-21 | on whole pixels the real-valued conversion equals the integer `p * 203 / 100` truncated toward zero |
| Units.DotsExamples | LabelPrinting.Infrastructure/LabelPrinters/ZebraTcpPrinter.cs:87-91 | 102 px to 207 dots, 50 to 101, 24 to 48, 4 in to 812, 6 in to 1218 |
| Units.DotsOdd | LabelPrinting.Infrastructure/LabelPrinters/ZebraTcpPrinter.cs:90 | truncation toward zero is symmetric: negating the length negates the dots |
| Units.DotsMonotonic | LabelPrinting.Infrastructure/LabelPrinters/ZebraTcpPrinter.cs:90 | a longer length never gives fewer dots |
| Units.ConvertToPoints | LabelPrinting.Infrastructure/LabelPrinters/PdfLabelPrinter.cs:64-69 | points times 100 equal pixels times 72 |
| Units.PointsKeepPhysicalLength | LabelPrinting.Infrastructure/LabelPrinters/PdfLabelPrinter.cs:14-15 | an inch in pixels converts to the inch in points; the physical length is kept |
| Units.PointsExamples | LabelPrinting.Infrastructure/LabelPrinters/PdfLabelPrinter.cs:21-22 | 100 px to 72 pt, 50 px to 36 pt, 4 in to 288 pt, 6 in to 432 pt |
| Decimal.IntToStringRoundTrip | LabelPrinting.Infrastructure/LabelPrinters/ZebraTcpPrinter.cs:67-68 | the decimal numbers written into commands parse back to the same integer |
| Decimal.IntToStringInjective | LabelPrinting.Infrastructure/LabelPrinters/ZebraTcpPrinter.cs:67-68 | different integers are written differently |
| ZplEscape.ReplaceChar | LabelPrinting.Infrastructure/LabelPrinters/ZebraTcpPrinter.cs:99-102 | one `string.Replace` of a character; a text without that character is returned unchanged |
| ZplEscape.SequentialReplaceIsOnePass | LabelPrinting.Infrastructure/LabelPrinters/ZebraTcpPrinter.cs:93-103 | the three chained replacements equal one left-to-right pass that escapes each original `^`, `~`, `\` exactly once; the empty text maps to the empty text |
| ZplEscape.EscapeZplTextSafe | LabelPrinting.Infrastructure/LabelPrinters/ZebraTcpPrinter.cs:99-102 | escaped text holds no `~` or `\`, no `^X` and no `^FS` |
| ZplEscape.EscapeMapSafe | LabelPrinting.Infrastructure/LabelPrinters/ZebraTcpPrinter.cs:99-102 | in the one-pass escape every `^` opens `^FH` or a hex pair `^5`/`^7` |
| ZplEscape.EscapeRoundTrip | LabelPrinting.Infrastructure/LabelPrinters/ZebraTcpPrinter.cs:93-103 | the escape loses no information: its inverse `EscapeInverse` recovers the text (that inverse is not how a printer reads field data) |
| ZplEscape.AsWrittenFieldCutShort | LabelPrinting.Infrastructure/LabelPrinters/ZebraTcpPrinter.cs:99-102 | when the text's first special character is at `i`, the field data a printer reads after `^FD` is the first `i` characters, never the whole text |
| ZplEscape.AsWrittenReadsBack | LabelPrinting.Infrastructure/LabelPrinters/ZebraTcpPrinter.cs:93-103 | a printer reads the text back exactly when it holds no `^`, `~` or `\` |
| ZplEscape.HexEscape | LabelPrinting.Infrastructure/LabelPrinters/ZebraTcpPrinter.cs:99-102 | the intended escape leaves no `^` or `~` in the field data |
| ZplEscape.IntendedRoundTrip | LabelPrinting.Infrastructure/LabelPrinters/ZebraTcpPrinter.cs:93-103 | with `^FH` ahead of `^FD`, a printer reads the whole field data and its hex decoding gives back every text |
| ZplEscape.PlainTextUnchanged | LabelPrinting.Infrastructure/LabelPrinters/ZebraTcpPrinter.cs:93-103 | a text without `^`, `~` or `\` is sent unchanged |
| ZplEscape.EscapeExample | LabelPrinting.Infrastructure/LabelPrinters/ZebraTcpPrinter.cs:99-102 | for any plain characters `a`, `b`, `c`, `d`, the text `a^b~c\d` becomes `a^FH^5Eb^FH^7Ec^FH^5Cd` |
| Monochrome.MonoStride | LabelPrinting.Infrastructure/LabelPrinters/ZebraTcpPrinter.cs:158 | the one-bit bitmap's padded row holds at least `(width + 7) / 8` bytes |
| Monochrome.Gray | LabelPrinting.Infrastructure/LabelPrinters/ZebraTcpPrinter.cs:170-176 | the flat average of red (+2), green (+1) and blue (+0) at `y * 4 * width + 4 * x` lies in 0..255 |
| Monochrome.MaskIsShift | LabelPrinting.Infrastructure/LabelPrinters/ZebraTcpPrinter.cs:181 | the mask of bit `j` is `0x80 >> j` |
| Monochrome.PackedBits | LabelPrinting.Infrastructure/LabelPrinters/ZebraTcpPrinter.cs:166-188 | bit `j` of byte `k` of row `y` is set exactly when pixel `8k + j` exists and its gray is below 128; bits beyond the width stay clear |
| Monochrome.PixelBit | LabelPrinting.Infrastructure/LabelPrinters/ZebraTcpPrinter.cs:176-185 | pixel `x` lands in byte `x / 8`, bit `x % 8` from the most significant end, set exactly when dark |
| Monochrome.ThresholdBoundary | LabelPrinting.Infrastructure/LabelPrinters/ZebraTcpPrinter.cs:176-178 | gray 127 is dark, gray 128 is light, and the average truncates (128, 128, 127 is dark) |
| Monochrome.IdxIsProduct | LabelPrinting.Infrastructure/LabelPrinters/ZebraTcpPrinter.cs:180 | byte `k` of row `y` sits at `y * stride + k` |
| Monochrome.ThresholdLight | LabelPrinting.Infrastructure/LabelPrinters/ZebraTcpPrinter.cs:178 | a pixel whose gray is 128 or more writes nothing |
| Monochrome.ThresholdDark | LabelPrinting.Infrastructure/LabelPrinters/ZebraTcpPrinter.cs:178-186 | a dark pixel (x, y) ORs its mask into byte `x / 8` of row `y` and into no other byte |
| Monochrome.ThresholdRow | LabelPrinting.Infrastructure/LabelPrinters/ZebraTcpPrinter.cs:168-188 | after the inner loop over row `y`, every byte of that row holds its packed byte, earlier rows keep theirs and later rows are still zero |
| Monochrome.ConvertToMonochrome | LabelPrinting.Infrastructure/LabelPrinters/ZebraTcpPrinter.cs:155-198 | returns a fresh buffer of `stride * height` bytes, stride `((width + 31) / 32) * 4`, in which byte `k` of row `y` is the packed byte of that row, padding bytes included |
| ZplHex.Hex2 | LabelPrinting.Infrastructure/LabelPrinters/ZebraTcpPrinter.cs:221 | `ToString("X2")` gives two upper-case hex digits |
| ZplHex.HexOfDigits | LabelPrinting.Infrastructure/LabelPrinters/ZebraTcpPrinter.cs:221 | the hex body is made of upper-case hex digits only |
| ZplHex.HexRoundTrip | LabelPrinting.Infrastructure/LabelPrinters/ZebraTcpPrinter.cs:212-223 | the hex body decodes back to exactly the bytes read |
| ZplHex.RasterBytes | LabelPrinting.Infrastructure/LabelPrinters/ZebraTcpPrinter.cs:201-202 | the raster read holds `bytesPerRow * height` bytes |
| ZplHex.RasterBytesAt | LabelPrinting.Infrastructure/LabelPrinters/ZebraTcpPrinter.cs:216-218 | raster byte `y * bytesPerRow + k` is buffer byte `y * stride + k`: rows top to bottom, padding never read |
| ZplHex.AppendRowHex | LabelPrinting.Infrastructure/LabelPrinters/ZebraTcpPrinter.cs:214-222 | the inner loop appends the hex of the row's first `bytesPerRow` bytes |
| ZplHex.BitmapToZplHex | LabelPrinting.Infrastructure/LabelPrinters/ZebraTcpPrinter.cs:200-231 | the result is the hex of the raster read, of length `2 * bytesPerRow * height` |
| ZplHex.BuildZplImage | LabelPrinting.Infrastructure/LabelPrinters/ZebraTcpPrinter.cs:233-243 | `^GFA,total,total,bytesPerRow,hex` with no line break |
| ZplHex.GraphicFieldConsistent | LabelPrinting.Infrastructure/LabelPrinters/ZebraTcpPrinter.cs:233-243 | split at its commas, the field is `^GFA`, two totals that parse back to `bytesPerRow * height`, a row width that parses back to `bytesPerRow`, and a hex body of twice the total in digits that decodes to the raster read |
| ZplEncoder.StringBuilder.Append | LabelPrinting.Infrastructure/LabelPrinters/ZebraTcpPrinter.cs:143 | appends the text |
| ZplEncoder.StringBuilder.AppendLine | LabelPrinting.Infrastructure/LabelPrinters/ZebraTcpPrinter.cs:128-131 | appends the text and a line break |
| ZplEncoder.RenderTextElement | LabelPrinting.Infrastructure/LabelPrinters/ZebraTcpPrinter.cs:119-132 | appends `^CF0,<font dots>`, `^FO<x>,<y>`, `^FD<escaped>^FS` and a blank line, nothing else |
| ZplEncoder.RenderImageElement | LabelPrinting.Infrastructure/LabelPrinters/ZebraTcpPrinter.cs:134-144 | appends the field origin line, and when there is a picture the graphic field of its packed raster, with no line break |
| ZplEncoder.RenderElement | LabelPrinting.Infrastructure/LabelPrinters/ZebraTcpPrinter.cs:106-117 | appends the element's block; an unknown kind appends nothing and raises no error |
| ZplEncoder.AppendHeader | LabelPrinting.Infrastructure/LabelPrinters/ZebraTcpPrinter.cs:61-72 | appends `^XA`, `^PW<width dots>`, `^LL<height dots>`, `^PR4`, `^MD15`, one per line |
| ZplEncoder.BuildZpl | LabelPrinting.Infrastructure/LabelPrinters/ZebraTcpPrinter.cs:59-85 | the result is the header, the element blocks in document order, and `^XZ` |
| ZplEncoder.PackedBufferRaster | LabelPrinting.Infrastructure/LabelPrinters/ZebraTcpPrinter.cs:139-143 | the hex encoder reading the thresholded buffer sees exactly the packed rows of the picture |
| ZplEncoder.ImageRasterBits | LabelPrinting.Infrastructure/LabelPrinters/ZebraTcpPrinter.cs:139-143 | in the raster sent, bit `j` of byte `k` of row `y` is set exactly when pixel `8k + j` exists and is dark |
| ZplFacts.BlocksAppend | LabelPrinting.Infrastructure/LabelPrinters/ZebraTcpPrinter.cs:76-80 | element blocks follow the element order: the text of two lists is the text of the first followed by the second |
| ZplFacts.UnknownElementsSkipped | LabelPrinting.Infrastructure/LabelPrinters/ZebraTcpPrinter.cs:106-117 | dropping the unknown elements leaves the output unchanged |
| ZplFacts.OnlyUnknownElements | LabelPrinting.Infrastructure/LabelPrinters/ZebraTcpPrinter.cs:76-82 | a label of unknown elements only prints the header and `^XZ` |
| ZplFacts.Framing | LabelPrinting.Infrastructure/LabelPrinters/ZebraTcpPrinter.cs:62-82 | the output starts with the line `^XA` and ends with the line `^XZ` |
| ZplFacts.TextFieldAsRead | LabelPrinting.Infrastructure/LabelPrinters/ZebraTcpPrinter.cs:128-131 | a text block is its font and origin lines, `^FD`, the escaped text and its closing; the field data a printer reads from it is the text exactly when the text holds no `^`, `~` or `\` |
| ZplFacts.TextBlockInjective | LabelPrinting.Infrastructure/LabelPrinters/ZebraTcpPrinter.cs:128-131 | two texts at the same place and size give the same block only if they are equal |
| ZplFacts.ImageFieldConsistent | LabelPrinting.Infrastructure/LabelPrinters/ZebraTcpPrinter.cs:139-143 | a picture's field carries `2 * bytesPerRow * height` hex digits that decode to its packed raster |
| ZplFacts.FourBySixHeader | LabelPrinting.Infrastructure/LabelPrinters/ZebraTcpPrinter.cs:61-72 | a 4 x 6 inch label gets `^PW812` and `^LL1218` |
| ZplFacts.PlainTextBlock | LabelPrinting.Infrastructure/LabelPrinters/ZebraTcpPrinter.cs:119-132 | any text without `^`, `~` or `\` at (50, 50) in a 24 px font gives `^CF0,48`, `^FO101,101`, `^FD<text>^FS` and a blank line |
| ZplFacts.PlainTextLabel | LabelPrinting.Infrastructure/LabelPrinters/ZebraTcpPrinter.cs:59-85 | the complete ZPL text of a 4 x 6 inch label holding only that element |
| PdfPrinter.TokenEnd | LabelPrinting.Infrastructure/LabelPrinters/PdfLabelPrinter.cs:76 | a split piece runs up to the next invalid character or the end |
| PdfPrinter.Pieces | LabelPrinting.Infrastructure/LabelPrinters/PdfLabelPrinter.cs:76 | `Split` with `RemoveEmptyEntries` yields non-empty pieces without invalid characters |
| PdfPrinter.WindowsSetAllowsFallback | LabelPrinting.Infrastructure/LabelPrinters/PdfLabelPrinter.cs:75-77 | the Windows set of invalid characters contains neither the `_` separator nor any letter of the fallback name "Label", so the sanitiser's properties hold for it |
| PdfPrinter.ScanMatchesJoin | LabelPrinting.Infrastructure/LabelPrinters/PdfLabelPrinter.cs:76 | split-then-join equals the one-pass scan, which writes one `_` per interior invalid run and drops leading and trailing runs |
| PdfPrinter.SanitizeIsScan | LabelPrinting.Infrastructure/LabelPrinters/PdfLabelPrinter.cs:73-78 | the sanitised name is the scan's output, or "Label" when that is blank |
| PdfPrinter.SanitizedIsValid | LabelPrinting.Infrastructure/LabelPrinters/PdfLabelPrinter.cs:73-78 | the saved name holds no invalid character when `_` and the letters of "Label" are allowed |
| PdfPrinter.SanitizedNotBlank | LabelPrinting.Infrastructure/LabelPrinters/PdfLabelPrinter.cs:77 | the saved name is never empty or all white space; a blank join becomes "Label" |
| PdfPrinter.AllInvalidFallsBack | LabelPrinting.Infrastructure/LabelPrinters/PdfLabelPrinter.cs:76-77 | a name of invalid characters only, or the empty name, is saved as "Label" |
| PdfPrinter.CleanNameUnchanged | LabelPrinting.Infrastructure/LabelPrinters/PdfLabelPrinter.cs:76-77 | a non-blank name without invalid characters is kept as is |
| PdfPrinter.SanitizeIdempotent | LabelPrinting.Infrastructure/LabelPrinters/PdfLabelPrinter.cs:73-78 | sanitising twice equals sanitising once |
| PdfPrinter.SanitizeExample | LabelPrinting.Infrastructure/LabelPrinters/PdfLabelPrinter.cs:76 | `a//b/` with `/` invalid becomes `a_b` |
| PdfPrinter.PdfFileNameShape | LabelPrinting.Infrastructure/LabelPrinters/PdfLabelPrinter.cs:44-45 | the file is the sanitised name followed by `.pdf` |
| PdfPrinter.PlacedFaithful | LabelPrinting.Infrastructure/LabelPrinters/PdfLabelPrinter.cs:48-61 | every placed text comes from a text element, moved to its position in points, with its text and font size |
| PdfPrinter.PlacedComplete | LabelPrinting.Infrastructure/LabelPrinters/PdfLabelPrinter.cs:48-61 | every text element is placed; the PDF library's one-primary-layer rule is not modelled (see "## Left out") |
| PdfPrinter.SampleLabelPage | LabelPrinting.Infrastructure/LabelPrinters/PdfLabelPrinter.cs:21-22 | a 4 x 6 inch sample label is a 288 x 432 pt page with its one text at (36, 36) |
| PrinterFactory.LowerSpells | LabelPrinting.Infrastructure/Factories/LabelPrinterFactory.cs:13-16 | for a lower-case word without `k`, the invariant lower case of a type equals the word exactly when the type spells it with each letter in either case |
| PrinterFactory.CreatePdf | LabelPrinting.Infrastructure/Factories/LabelPrinterFactory.cs:13-15 | the PDF printer is chosen exactly when the type spells "pdf" in any letter case |
| PrinterFactory.CreateZebra | LabelPrinting.Infrastructure/Factories/LabelPrinterFactory.cs:13-16 | the thermal printer is chosen exactly when the type spells "zebra" in any letter case, with the configured IP and port |
| PrinterFactory.CreateUnsupported | LabelPrinting.Infrastructure/Factories/LabelPrinterFactory.cs:17 | any other non-null type gives the "Unsupported printer type" error and no printer |
| PrinterFactory.CreateIgnoresOtherFields | LabelPrinting.Infrastructure/Factories/LabelPrinterFactory.cs:11-19 | name, id and the active flag do not affect the result; inactive printers are dispatched too |
| PrinterFactory.CreateExamples | LabelPrinting.Infrastructure/Factories/LabelPrinterFactory.cs:13-17 | "pdf", "PDF" and "Pdf" give the PDF printer, "ZEBRA" the thermal printer, "laser" the error |

## Left out

- **Sending to the printer.** `ZebraTcpPrinter.Print` (the TCP connection, the ASCII encoding of the command text, and the exception wrapping) is network I/O.
- **Image decoding.** `Base64ToBitmap` and the GDI+ bitmap plumbing (`LockBits`, `Marshal`, `UnlockBits`) are library calls. The model takes the decoded pixels as input.
- **Diagnostic output.** The `Console.WriteLine` in `ConvertToMonochrome` writes only to the console.
- **PDF document construction.** The document built with the PDF library (`Document.Create`, layers, text styling, colour) and the file write in `PdfLabelPrinter.Print` are a library and I/O. The model keeps the page size, the file name and the list of placed texts.
- PdfPrinter.PlacedComplete: each text element calls `layers.PrimaryLayer()` (PdfLabelPrinter.cs:55). The PDF library accepts exactly one primary layer in a `Layers` container and fails otherwise. So `Print` fails for a label with no text element or with more than one. The model does not include that library rule: it lists every text element as placed.
- **Floating point.** IEEE double and single precision rounding is not modelled. Conversions use exact reals.
  - Units.ConvertToDots: does not model the overflow of the `(int)` cast for lengths beyond the 32-bit range.
  - PdfPrinter.PageOf: uses exact reals where the source multiplies in `float`.
- ZplEncoder.AppendHeader: the header lines that `BuildZpl` appends inline are a separate method in the model. The composed proof does not fit the verifier's resource bound in one method.
- ZplHex.AppendRowHex: the inner loop of `BitmapToZplHex` is a separate method, for the same reason.
- Monochrome.ThresholdRow: the inner loop of `ConvertToMonochrome` is a separate method, for the same reason.
- Monochrome.ConvertToMonochrome: relies on the new one-bit bitmap starting all white (zero bits), as a freshly allocated GDI+ bitmap does.
- PrinterFactory.ToLowerInvariant: maps only the characters whose lower case is an ASCII letter. Every other character is kept as is. That is exact for comparing against "pdf" and "zebra", but it is not full Unicode lower-casing.
- **Null text.** A null element text is modelled as the empty string. `EscapeZplText` returns the empty string for both (ZebraTcpPrinter.cs:95-96).
- PrinterFactory.Create: the model has no null printer type. In the source, a null `Type` (LabelPrinting.Domain/Entities/Printer/Printer.cs:9 has no default) throws `NullReferenceException` at `ToLowerInvariant` (LabelPrinterFactory.cs:13), not the "Unsupported printer type" error. That error path is not modelled.
- ZplEncoder.BuildZpl: the model has no null element list. In the source, a null `Elements` throws `NullReferenceException` at the `foreach` (ZebraTcpPrinter.cs:76; likewise PdfLabelPrinter.cs:32 for the PDF page). That error path is not modelled.
- PdfPrinter.SanitizeFileName: the model has no null label name. In the source, a null name throws `NullReferenceException` at `Split` (PdfLabelPrinter.cs:76), before the `IsNullOrWhiteSpace` test. That error path is not modelled.
- PdfPrinter.SanitizeFileName: takes the invalid-character set as a parameter instead of querying the platform. On a host other than Windows, `GetInvalidFileNameChars` returns only `\0` and `/`.
- Decimal.IntToString: writes the negative sign as `-`. `$"{n}"` formats with the current culture, and a culture whose negative sign is another character (such as U+2212) is not modelled.

## Findings

| source | as written | input that shows it | evidently intended | confidence | as-written member | corrected member |
|---|---|---|---|---|---|---|
| LabelPrinting.Infrastructure/LabelPrinters/ZebraTcpPrinter.cs:99-102 | each `^`, `~` and `\` of a text is replaced by `^FH^5E`, `^FH^7E` and `^FH^5C` inside `^FD ... ^FS`; in ZPL II the `^` of that `^FH` opens a command, so the field data ends there | the text `a^b` gives `^FDa^FH^5Eb^FS`, whose field data is `a` | `^FH` ahead of `^FD`, and the data escaped with the default hex indicator `_`: `_5E`, `_7E`, `_5C`, and `_5F` for `_` itself | medium; not executed | ZplEscape.AsWrittenFieldCutShort | ZplEscape.IntendedRoundTrip |

The ZPL encoder (`ZplEncoder.BuildZpl` and `ZplEncoder.RenderTextElement`)
models the escape as the code writes it, so that its contract describes the
text the code sends. `ZplFacts.TextFieldAsRead` states what that means for
each text block.
