/**
 * The PDF printer's pure parts: the output file name made from the label
 * name, the page size in points and where each text element is placed.
 */
module PdfPrinter {
  import opened LabelModel
  import Units

  // ---------------------------------------------------------------------------
  // File name.

  /** The characters `char.IsWhiteSpace` accepts: the Unicode space separators, line and paragraph separators, tab to carriage return and next-line. */
  predicate IsWhiteSpace(c: char) {
    c == ' ' || ('\t' <= c <= '\r') || c == '\U{85}' || c == '\U{A0}' || c == '\U{1680}'
    || ('\U{2000}' <= c <= '\U{200A}') || c == '\U{2028}' || c == '\U{2029}' || c == '\U{202F}'
    || c == '\U{205F}' || c == '\U{3000}'
  }


  /** `string.IsNullOrWhiteSpace` (a null name is modelled as the empty string). */
  predicate IsNullOrWhiteSpace(s: string) {
    forall i :: 0 <= i < |s| ==> IsWhiteSpace(s[i])
  }

  /** The characters the Windows file system refuses in a file name: controls 0-31 and `" < > | : * ? \ /`. */
  predicate WindowsInvalid(c: char) {
    c < ' ' || c in "\"<>|:*?\\/"
  }

  const FallbackName: string := "Label"

  /** Length of the run of valid characters that opens `s`. */
  function TokenEnd(s: string, invalid: set<char>): (n: nat)
    ensures n <= |s|
    ensures forall i :: 0 <= i < n ==> s[i] !in invalid
    ensures n < |s| ==> s[n] in invalid
    decreases |s|
  {
    if s == [] || s[0] in invalid then 0 else 1 + TokenEnd(s[1..], invalid)
  }

  /** `s.Split(invalid, RemoveEmptyEntries)`: the maximal runs of valid characters, in order. */
  function Pieces(s: string, invalid: set<char>): (r: seq<string>)
    ensures forall p :: p in r ==> p != [] && forall i :: 0 <= i < |p| ==> p[i] !in invalid
    decreases |s|
  {
    if s == [] then []
    else if s[0] in invalid then Pieces(s[1..], invalid)
    else
      var n := TokenEnd(s, invalid);
      [s[..n]] + Pieces(s[n..], invalid)
  }

  /** `string.Join(sep, parts)`. */
  function Join(parts: seq<string>, sep: string): string
    decreases |parts|
  {
    if parts == [] then ""
    else if |parts| == 1 then parts[0]
    else parts[0] + sep + Join(parts[1..], sep)
  }

  /** The file name the label is saved under, without extension. */
  function SanitizeFileName(name: string, invalid: set<char>): string {
    var joined := Join(Pieces(name, invalid), "_");
    if IsNullOrWhiteSpace(joined) then FallbackName else joined
  }

  /** `{name}.pdf` */
  function PdfFileName(name: string, invalid: set<char>): string {
    SanitizeFileName(name, invalid) + ".pdf"
  }

  /** `Path.GetInvalidFileNameChars()` on Windows, the host this model assumes. */
  function WindowsInvalidChars(): (r: set<char>)
    ensures forall c :: c in r <==> WindowsInvalid(c)
  {
    set c: char | c < ' ' || c in "\"<>|:*?\\/"
  }

  // ---------------------------------------------------------------------------
  // A reference definition of the sanitiser as one left-to-right scan.

  /** Where the scan stands: nothing kept yet, inside a run of kept characters, or in a run of invalid ones after some kept text. */
  datatype ScanState = Start | InWord | Gap

  /**
   * Keeps valid characters, drops invalid ones, and writes one `_` before a
   * kept character that follows a run of invalid ones after earlier kept
   * text; leading and trailing invalid runs leave nothing.
   */
  function Scan(s: string, invalid: set<char>, st: ScanState): string
    decreases |s|
  {
    if s == [] then ""
    else if s[0] in invalid then Scan(s[1..], invalid, if st == Start then Start else Gap)
    else (if st == Gap then "_" else "") + [s[0]] + Scan(s[1..], invalid, InWord)
  }

  /** Inside a word, a run of valid characters is copied as is. */
  lemma {:induction false} ScanWord(s: string, invalid: set<char>, n: nat)
    requires n <= |s| && forall i :: 0 <= i < n ==> s[i] !in invalid
    ensures Scan(s, invalid, InWord) == s[..n] + Scan(s[n..], invalid, InWord)
    decreases n
  {
    if n > 0 {
      ScanWord(s[1..], invalid, n - 1);
      assert s[1..][..n - 1] == s[1..n];
      assert s[1..][n - 1..] == s[n..];
      assert s[..n] == [s[0]] + s[1..n];
    }
  }

  /** Before a kept character, the scan from the start or from a gap differs from the scan inside a word only by the separator. */
  lemma KeptFirst(s: string, invalid: set<char>)
    requires s != [] && s[0] !in invalid
    ensures Scan(s, invalid, Start) == Scan(s, invalid, InWord)
    ensures Scan(s, invalid, Gap) == "_" + Scan(s, invalid, InWord)
  {
    var after := Scan(s[1..], invalid, InWord);
    assert Scan(s, invalid, Gap) == "_" + [s[0]] + after;
    assert Scan(s, invalid, InWord) == "" + [s[0]] + after;
  }

  /** A word ends at an invalid character or at the end, where being in a word and in a gap agree. */
  lemma WordEnd(rest: string, invalid: set<char>)
    requires rest != [] ==> rest[0] in invalid
    ensures Scan(rest, invalid, InWord) == Scan(rest, invalid, Gap)
  {
  }

  lemma JoinCons(word: string, tail: seq<string>)
    ensures Join([word] + tail, "_") == if tail == [] then word else word + "_" + Join(tail, "_")
  {
    assert ([word] + tail)[1..] == tail;
  }

  /** From the start the scan equals the join of the pieces; in a gap it is that join after one separator. */
  lemma {:induction false} ScanMatchesJoin(s: string, invalid: set<char>)
    ensures Scan(s, invalid, Start) == Join(Pieces(s, invalid), "_")
    ensures Scan(s, invalid, Gap) == if Pieces(s, invalid) == [] then "" else "_" + Join(Pieces(s, invalid), "_")
    decreases |s|
  {
    if s != [] {
      if s[0] in invalid {
        ScanMatchesJoin(s[1..], invalid);
      } else {
        var rest := s[TokenEnd(s, invalid)..];
        ScanMatchesJoin(rest, invalid);
        WordThenRest(s, invalid);
      }
    }
  }

  /** The step of `ScanMatchesJoin` for a kept first character, given the fact for what follows its word. */
  lemma WordThenRest(s: string, invalid: set<char>)
    requires s != [] && s[0] !in invalid
    requires var rest := s[TokenEnd(s, invalid)..];
             Scan(rest, invalid, Gap) == if Pieces(rest, invalid) == [] then "" else "_" + Join(Pieces(rest, invalid), "_")
    ensures Scan(s, invalid, Start) == Join(Pieces(s, invalid), "_")
    ensures Scan(s, invalid, Gap) == "_" + Join(Pieces(s, invalid), "_")
  {
    var n := TokenEnd(s, invalid);
    var word, rest := s[..n], s[n..];
    var after := Scan(rest, invalid, Gap);
    assert Pieces(s, invalid) == [word] + Pieces(rest, invalid);
    JoinThenGap(word, Pieces(rest, invalid), after);
    assert Scan(s, invalid, InWord) == word + after by {
      ScanWord(s, invalid, n);
      WordEnd(rest, invalid);
    }
    KeptFirst(s, invalid);
  }

  /** Joining a word before further pieces: the word, then a separator and the rest, if any. */
  lemma JoinThenGap(word: string, tail: seq<string>, after: string)
    requires after == if tail == [] then "" else "_" + Join(tail, "_")
    ensures Join([word] + tail, "_") == word + after
  {
    JoinCons(word, tail);
    if tail != [] {
      assert word + after == word + "_" + Join(tail, "_");
    }
  }

  /**
   * The sanitiser collapses every run of invalid characters between kept text
   * into a single `_` and drops leading and trailing runs.
   */
  lemma SanitizeIsScan(name: string, invalid: set<char>)
    ensures var joined := Scan(name, invalid, Start);
            SanitizeFileName(name, invalid) == if IsNullOrWhiteSpace(joined) then FallbackName else joined
  {
    ScanMatchesJoin(name, invalid);
  }

  // ---------------------------------------------------------------------------
  // Properties of the file name.

  /** Joining pieces free of invalid characters with a valid separator leaves no invalid character. */
  lemma {:induction false} JoinValid(parts: seq<string>, invalid: set<char>)
    requires '_' !in invalid
    requires forall p :: p in parts ==> forall i :: 0 <= i < |p| ==> p[i] !in invalid
    ensures forall i :: 0 <= i < |Join(parts, "_")| ==> Join(parts, "_")[i] !in invalid
    decreases |parts|
  {
    if |parts| > 1 {
      JoinValid(parts[1..], invalid);
      assert parts[0] in parts;
      var j := Join(parts, "_");
      var head, rest := parts[0] + "_", Join(parts[1..], "_");
      assert j == head + rest;
      forall i | 0 <= i < |j|
        ensures j[i] !in invalid
      {
        if i >= |head| {
          assert j[i] == rest[i - |head|];
        } else if i < |parts[0]| {
          assert j[i] == parts[0][i];
        }
      }
    } else if |parts| == 1 {
      assert parts[0] in parts;
    }
  }

  /** With `_` and the fallback's letters allowed, the saved name never holds an invalid character. */
  lemma SanitizedIsValid(name: string, invalid: set<char>)
    requires '_' !in invalid
    requires forall i :: 0 <= i < |FallbackName| ==> FallbackName[i] !in invalid
    ensures forall i :: 0 <= i < |SanitizeFileName(name, invalid)| ==> SanitizeFileName(name, invalid)[i] !in invalid
  {
    JoinValid(Pieces(name, invalid), invalid);
  }

  /** The saved name is never empty or blank; a blank result is replaced by "Label". */
  lemma SanitizedNotBlank(name: string, invalid: set<char>)
    ensures SanitizeFileName(name, invalid) != ""
    ensures !IsNullOrWhiteSpace(SanitizeFileName(name, invalid))
    ensures IsNullOrWhiteSpace(Join(Pieces(name, invalid), "_")) ==> SanitizeFileName(name, invalid) == FallbackName
  {
    assert !IsWhiteSpace(FallbackName[0]);
  }

  /** A name made only of invalid characters (the empty name included) is saved as "Label". */
  lemma AllInvalidFallsBack(name: string, invalid: set<char>)
    requires forall i :: 0 <= i < |name| ==> name[i] in invalid
    ensures SanitizeFileName(name, invalid) == FallbackName
  {
    NoPieces(name, invalid);
  }

  lemma {:induction false} NoPieces(s: string, invalid: set<char>)
    requires forall i :: 0 <= i < |s| ==> s[i] in invalid
    ensures Pieces(s, invalid) == []
    decreases |s|
  {
    if s != [] {
      NoPieces(s[1..], invalid);
    }
  }

  /** A name with no invalid character that is not blank is saved unchanged. */
  lemma CleanNameUnchanged(name: string, invalid: set<char>)
    requires forall i :: 0 <= i < |name| ==> name[i] !in invalid
    requires !IsNullOrWhiteSpace(name)
    ensures SanitizeFileName(name, invalid) == name
  {
    assert name != [];
    var n := TokenEnd(name, invalid);
    assert name[..n] == name;
    assert name[n..] == [];
    assert Pieces(name, invalid) == [name];
  }

  /** Sanitising a sanitised name changes nothing. */
  lemma SanitizeIdempotent(name: string, invalid: set<char>)
    requires '_' !in invalid
    requires forall i :: 0 <= i < |FallbackName| ==> FallbackName[i] !in invalid
    ensures SanitizeFileName(SanitizeFileName(name, invalid), invalid) == SanitizeFileName(name, invalid)
  {
    SanitizedIsValid(name, invalid);
    SanitizedNotBlank(name, invalid);
    CleanNameUnchanged(SanitizeFileName(name, invalid), invalid);
  }

  /** The output file is the sanitised name with the `.pdf` extension. */
  lemma PdfFileNameShape(name: string, invalid: set<char>)
    ensures |PdfFileName(name, invalid)| >= 5
    ensures PdfFileName(name, invalid)[|PdfFileName(name, invalid)| - 4..] == ".pdf"
    ensures PdfFileName(name, invalid)[..|PdfFileName(name, invalid)| - 4] == SanitizeFileName(name, invalid)
  {
    SanitizedNotBlank(name, invalid);
  }

  /** The Windows set allows `_` and the letters of "Label", so the properties above apply to it. */
  lemma WindowsSetAllowsFallback()
    ensures '_' !in WindowsInvalidChars()
    ensures forall i :: 0 <= i < |FallbackName| ==> FallbackName[i] !in WindowsInvalidChars()
  {
  }

  /** "a//b/" with '/' invalid: the interior run becomes one `_`, the trailing run is dropped. */
  lemma SanitizeExample(invalid: set<char>)
    requires '/' in invalid && 'a' !in invalid && 'b' !in invalid
    ensures SanitizeFileName("a//b/", invalid) == "a_b"
  {
    SanitizeIsScan("a//b/", invalid);
    ScanExample(invalid);
    assert !IsWhiteSpace("a_b"[0]);
  }

  lemma ScanExample(invalid: set<char>)
    requires '/' in invalid && 'a' !in invalid && 'b' !in invalid
    ensures Scan("a//b/", invalid, Start) == "a_b"
  {
    var s := "a//b/";
    assert Scan(s[4..], invalid, InWord) == "";
    assert Scan(s[3..], invalid, Gap) == "_b";
    assert Scan(s[2..], invalid, Gap) == "_b";
    assert Scan(s[1..], invalid, InWord) == "_b";
  }

  // ---------------------------------------------------------------------------
  // Page layout.

  /** A text element placed on the page: offsets and font size in points. */
  datatype PlacedText = PlacedText(x: real, y: real, text: string, fontSize: real)

  /** One page with no margin and the text elements as layers, in document order. */
  datatype Page = Page(width: real, height: real, texts: seq<PlacedText>)

  /** Only text elements are drawn; images and unknown kinds are passed over. */
  function Placed(es: seq<Element>): seq<PlacedText>
    decreases |es|
  {
    if es == [] then []
    else
      var e := es[0];
      (if e.Text?
       then [PlacedText(Units.ConvertToPoints(e.x as real), Units.ConvertToPoints(e.y as real), e.text, e.fontSize as real)]
       else [])
      + Placed(es[1..])
  }

  function PageOf(lbl: Label): Page {
    Page(Units.InchesToPoints(lbl.widthInches), Units.InchesToPoints(lbl.heightInches), Placed(lbl.elements))
  }

  /** Every placed text comes from a text element at the same physical position. */
  lemma {:induction false} PlacedFaithful(es: seq<Element>, k: nat)
    requires k < |Placed(es)|
    ensures exists i :: 0 <= i < |es| && es[i].Text? &&
              Placed(es)[k] == PlacedText(Units.ConvertToPoints(es[i].x as real), Units.ConvertToPoints(es[i].y as real),
                                         es[i].text, es[i].fontSize as real)
    decreases |es|
  {
    var e := es[0];
    if e.Text? && k == 0 {
      assert es[0].Text?;
    } else {
      var j := if e.Text? then k - 1 else k;
      PlacedFaithful(es[1..], j);
      var i :| 0 <= i < |es[1..]| && es[1..][i].Text? &&
               Placed(es[1..])[j] == PlacedText(Units.ConvertToPoints(es[1..][i].x as real), Units.ConvertToPoints(es[1..][i].y as real),
                                               es[1..][i].text, es[1..][i].fontSize as real);
      assert es[i + 1] == es[1..][i];
    }
  }

  /** Every text element is placed, at its converted position and with its own text and size. */
  lemma {:induction false} PlacedComplete(es: seq<Element>, i: nat)
    requires i < |es| && es[i].Text?
    ensures PlacedText(Units.ConvertToPoints(es[i].x as real), Units.ConvertToPoints(es[i].y as real),
                       es[i].text, es[i].fontSize as real) in Placed(es)
    decreases |es|
  {
    if i > 0 {
      PlacedComplete(es[1..], i - 1);
      assert es[1..][i - 1] == es[i];
    }
  }

  /** A sample label: 4 x 6 inches with one text at (50, 50) pixels in a 24-pixel font. */
  lemma SampleLabelPage(name: string, w: int, h: int, text: string)
    ensures PageOf(Label(name, 4.0, 6.0, [Text(50, 50, w, h, text, 24)]))
         == Page(288.0, 432.0, [PlacedText(36.0, 36.0, text, 24.0)])
  {
    Units.PointsExamples();
    var es := [Text(50, 50, w, h, text, 24)];
    assert es[1..] == [];
    assert Units.ConvertToPoints(50 as real) == 36.0;
    assert Placed(es) == [PlacedText(36.0, 36.0, text, 24.0)] + Placed([]);
  }
}
