/**
 * Choosing the printer for a stored printer configuration: the configured
 * type, compared without regard to letter case, selects the PDF printer or the
 * network thermal printer; any other type is an error.
 */
module PrinterFactory {
  import opened Wrappers

  /** A stored printer configuration. The identifier is kept as text. */
  datatype PrinterConfig = PrinterConfig(printerId: string, name: string, ip: string, port: int, printerType: string, active: bool)

  /** The printer the factory hands out: the PDF file printer, or the thermal printer at an address. */
  datatype LabelPrinter = PdfPrinter | ZebraPrinter(ip: string, port: int)

  const UnsupportedPrinterType: string := "Unsupported printer type"

  /**
   * Lower-casing of one character, exact for every character whose lower case
   * is an ASCII letter: 'A'-'Z' and the Kelvin sign (to 'k'). Other characters
   * are kept; the dotted capital I is one of them, since invariant casing
   * leaves it unchanged. The lower case of the others is never an ASCII
   * letter, so no comparison below depends on it.
   */
  function LowerChar(c: char): char {
    if 'A' <= c <= 'Z' then (c as int + 32) as char
    else if c == '\U{212A}' then 'k'
    else c
  }

  /** `ToLowerInvariant`, as far as it decides the type comparison. */
  function ToLowerInvariant(s: string): (r: string)
    ensures |r| == |s|
    ensures forall i :: 0 <= i < |s| ==> r[i] == LowerChar(s[i])
  {
    seq(|s|, i requires 0 <= i < |s| => LowerChar(s[i]))
  }

  /** The printer for a configuration, or the unsupported-type error. */
  function Create(config: PrinterConfig): Result<LabelPrinter, string> {
    match ToLowerInvariant(config.printerType)
    case "pdf" => Ok(PdfPrinter)
    case "zebra" => Ok(ZebraPrinter(config.ip, config.port))
    case _ => Err(UnsupportedPrinterType)
  }

  /** `s` spells the lower-case ASCII word `word`, each letter in either case. */
  predicate SpellsIgnoringCase(s: string, word: string) {
    |s| == |word| &&
    forall i :: 0 <= i < |s| ==> s[i] == word[i] || s[i] as int == word[i] as int - 32
  }

  lemma LowerCharIsLetter(c: char, l: char)
    requires 'a' <= l <= 'z' && l != 'k'
    ensures LowerChar(c) == l <==> c == l || c as int == l as int - 32
  {
  }

  lemma LowerSpells(s: string, word: string)
    requires forall i :: 0 <= i < |word| ==> 'a' <= word[i] <= 'z' && word[i] != 'k'
    ensures ToLowerInvariant(s) == word <==> SpellsIgnoringCase(s, word)
  {
    var r := ToLowerInvariant(s);
    if |s| == |word| {
      forall i | 0 <= i < |s|
        ensures r[i] == word[i] <==> s[i] == word[i] || s[i] as int == word[i] as int - 32
      {
        LowerCharIsLetter(s[i], word[i]);
      }
    }
  }

  /** The PDF printer is chosen exactly when the type spells "pdf" in any letter case. */
  lemma CreatePdf(config: PrinterConfig)
    ensures Create(config) == Ok(PdfPrinter) <==> SpellsIgnoringCase(config.printerType, "pdf")
  {
    LowerSpells(config.printerType, "pdf");
  }

  /** The thermal printer is chosen exactly when the type spells "zebra" in any letter case; it gets the configured address unchanged. */
  lemma CreateZebra(config: PrinterConfig)
    ensures Create(config).Ok? && Create(config).value.ZebraPrinter? <==> SpellsIgnoringCase(config.printerType, "zebra")
    ensures Create(config).Ok? && Create(config).value.ZebraPrinter? ==>
              Create(config).value == ZebraPrinter(config.ip, config.port)
  {
    LowerSpells(config.printerType, "zebra");
  }

  /** Every other type is refused with the unsupported-type error, and no printer is made. */
  lemma CreateUnsupported(config: PrinterConfig)
    ensures Create(config) == Err(UnsupportedPrinterType)
        <==> !SpellsIgnoringCase(config.printerType, "pdf") && !SpellsIgnoringCase(config.printerType, "zebra")
  {
    LowerSpells(config.printerType, "pdf");
    LowerSpells(config.printerType, "zebra");
  }

  /** Only the type (and, for the thermal printer, the address) matters: name, id and the active flag are not consulted. */
  lemma CreateIgnoresOtherFields(config: PrinterConfig, id: string, name: string, active: bool)
    ensures Create(config.(printerId := id, name := name, active := active)) == Create(config)
  {
  }

  lemma CreateExamples(ip: string, port: int)
    ensures Create(PrinterConfig("", "", ip, port, "pdf", true)) == Ok(PdfPrinter)
    ensures Create(PrinterConfig("", "", ip, port, "PDF", true)) == Ok(PdfPrinter)
    ensures Create(PrinterConfig("", "", ip, port, "Pdf", false)) == Ok(PdfPrinter)
    ensures Create(PrinterConfig("", "", ip, port, "ZEBRA", true)) == Ok(ZebraPrinter(ip, port))
    ensures Create(PrinterConfig("", "", ip, port, "laser", true)) == Err(UnsupportedPrinterType)
  {
    CreatePdf(PrinterConfig("", "", ip, port, "pdf", true));
    CreatePdf(PrinterConfig("", "", ip, port, "PDF", true));
    CreatePdf(PrinterConfig("", "", ip, port, "Pdf", false));
    CreateZebra(PrinterConfig("", "", ip, port, "ZEBRA", true));
    CreateUnsupported(PrinterConfig("", "", ip, port, "laser", true));
    assert "laser"[0] != "zebra"[0] && "laser"[0] as int != "zebra"[0] as int - 32;
  }
}
