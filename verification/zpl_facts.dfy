/**
 * Properties of the ZPL text a label is turned into: element blocks keep the
 * document order, unknown element kinds leave no trace, how a printer reads the
 * text fields, and the text of a sample label.
 */
module ZplFacts {
  import opened Decimal
  import opened LabelModel
  import Units
  import ZplEscape
  import opened ZplEncoder
  import opened Wrappers
  import Monochrome
  import ZplHex

  /** The text of a concatenation of element lists is the concatenation of their texts. */
  lemma {:induction false} BlocksAppend(a: seq<Element>, b: seq<Element>)
    requires ElementsOk(a) && ElementsOk(b)
    ensures ElementsOk(a + b)
    ensures Blocks(a + b) == Blocks(a) + Blocks(b)
    decreases |b|
  {
    ElementsOkAppend(a, b);
    if b == [] {
      assert a + b == a;
    } else {
      var front, last := b[..|b| - 1], b[|b| - 1];
      ElementsOkPrefix(b, |b| - 1);
      BlocksAppend(a, front);
      assert (a + b)[..|a + b| - 1] == a + front;
      assert (a + b)[|a + b| - 1] == last;
      assert Blocks(a + b) == Blocks(a + front) + Block(last);
      assert Blocks(b) == Blocks(front) + Block(last);
      ZplEscape.ConcatAssoc(Blocks(a), Blocks(front), Block(last));
    }
  }

  /** The elements the printer knows how to draw, in their original order. */
  function KnownElements(es: seq<Element>): (r: seq<Element>)
    ensures forall e :: e in r ==> e in es && !e.Other?
    decreases |es|
  {
    if es == [] then []
    else
      var last := es[|es| - 1];
      KnownElements(es[..|es| - 1]) + (if last.Other? then [] else [last])
  }

  /**
   * An element of a kind the printer does not know neither stops the job nor
   * leaves any text: the label prints as if those elements were not there.
   */
  lemma {:induction false} UnknownElementsSkipped(es: seq<Element>)
    requires ElementsOk(es)
    ensures ElementsOk(KnownElements(es))
    ensures Blocks(KnownElements(es)) == Blocks(es)
    decreases |es|
  {
    var k := KnownElements(es);
    assert ElementsOk(k) by {
      forall i | 0 <= i < |k|
        ensures ElementOk(k[i])
      {
        assert k[i] in es;
      }
    }
    if es != [] {
      var front, last := es[..|es| - 1], es[|es| - 1];
      assert ElementsOk(front) by {
        assert forall i :: 0 <= i < |front| ==> front[i] == es[i];
      }
      UnknownElementsSkipped(front);
      var tail: seq<Element> := if last.Other? then [] else [last];
      assert k == KnownElements(front) + tail;
      BlocksAppend(KnownElements(front), tail);
      if last.Other? {
        assert Blocks(tail) == "";
      } else {
        assert tail[..0] == [];
        assert Blocks(tail) == Block(last);
      }
    }
  }

  lemma {:induction false} NothingKnown(es: seq<Element>)
    requires forall i :: 0 <= i < |es| ==> es[i].Other?
    ensures KnownElements(es) == []
    decreases |es|
  {
    if es != [] {
      NothingKnown(es[..|es| - 1]);
    }
  }

  /** A label of unknown elements only prints as the bare header and footer. */
  lemma OnlyUnknownElements(lbl: Label)
    requires WellFormed(lbl)
    requires forall i :: 0 <= i < |lbl.elements| ==> lbl.elements[i].Other?
    ensures ZplOf(lbl) == Header(lbl) + Footer
  {
    assert Blocks(lbl.elements) == "" by {
      UnknownElementsSkipped(lbl.elements);
      NothingKnown(lbl.elements);
    }
    assert Header(lbl) + "" == Header(lbl);
  }

  /** The label text opens with the start-of-format line and closes with the end-of-format line. */
  lemma Framing(lbl: Label)
    requires WellFormed(lbl)
    ensures |ZplOf(lbl)| >= 10
    ensures ZplOf(lbl)[..5] == "^XA\r\n"
    ensures ZplOf(lbl)[|ZplOf(lbl)| - 5..] == "^XZ\r\n"
  {
    var h := Header(lbl);
    var body := h + Blocks(lbl.elements);
    var h4 := Line("^XA") + Line("^PW" + IntToString(Units.ConvertToDots(Units.InchesToPixels(lbl.widthInches))))
      + Line("^LL" + IntToString(Units.ConvertToDots(Units.InchesToPixels(lbl.heightInches)))) + Line("^PR4");
    var h3 := Line("^XA") + Line("^PW" + IntToString(Units.ConvertToDots(Units.InchesToPixels(lbl.widthInches))))
      + Line("^LL" + IntToString(Units.ConvertToDots(Units.InchesToPixels(lbl.heightInches))));
    var h2 := Line("^XA") + Line("^PW" + IntToString(Units.ConvertToDots(Units.InchesToPixels(lbl.widthInches))));
    PrefixOfConcat(Line("^XA"), h2[5..], 5);
    assert h2[..5] == "^XA\r\n";
    PrefixOfConcat(h2, h3[|h2|..], 5);
    PrefixOfConcat(h3, h4[|h3|..], 5);
    PrefixOfConcat(h4, Line("^MD15"), 5);
    PrefixOfConcat(h, Blocks(lbl.elements), 5);
    PrefixOfConcat(body, Footer, 5);
    SuffixOfConcat(body, Footer);
  }

  lemma PrefixOfConcat(a: string, b: string, n: nat)
    requires n <= |a|
    ensures (a + b)[..n] == a[..n]
  {
  }

  lemma SuffixOfConcat(a: string, b: string)
    ensures (a + b)[|a|..] == b
  {
  }

  /**
   * What a printer takes as the field data of a text block: everything after
   * `^FD` up to the next command. The text comes back as typed exactly when it
   * holds no '^', '~' or '\'; otherwise the field ends at the first of them.
   */
  lemma TextFieldAsRead(x: int, y: int, text: string, fontSize: int)
    ensures var pre := Line("^CF0," + IntToString(Units.DotsOfPixels(fontSize))) + Line(FieldOrigin(x, y)) + "^FD";
            var post := "^FS" + NewLine + Line("");
            && TextBlock(x, y, text, fontSize) == pre + ZplEscape.EscapeZplText(text) + post
            && (ZplEscape.FieldDataRead(ZplEscape.EscapeZplText(text) + post) == text
                <==> ('^' !in text && '~' !in text && '\\' !in text))
  {
    TextBlockSplit(x, y, text, fontSize);
    ZplEscape.AsWrittenReadsBack(text, "^FS" + NewLine + Line(""));
  }

  /** Two text elements that differ only in their text produce different blocks. */
  lemma TextBlockInjective(x: int, y: int, fontSize: int, t1: string, t2: string)
    requires TextBlock(x, y, t1, fontSize) == TextBlock(x, y, t2, fontSize)
    ensures t1 == t2
  {
    var pre := Line("^CF0," + IntToString(Units.DotsOfPixels(fontSize))) + Line(FieldOrigin(x, y)) + "^FD";
    var post := "^FS" + NewLine + Line("");
    assert ZplEscape.EscapeZplText(t1) == ZplEscape.EscapeZplText(t2) by {
      TextBlockSplit(x, y, t1, fontSize);
      TextBlockSplit(x, y, t2, fontSize);
      Cancel(pre, ZplEscape.EscapeZplText(t1), ZplEscape.EscapeZplText(t2), post);
    }
    ZplEscape.EscapeRoundTrip(t1);
    ZplEscape.EscapeRoundTrip(t2);
  }

  /** A text block is its fixed opening, the field data and its fixed closing. */
  lemma TextBlockSplit(x: int, y: int, text: string, fontSize: int)
    ensures TextBlock(x, y, text, fontSize)
         == Line("^CF0," + IntToString(Units.DotsOfPixels(fontSize))) + Line(FieldOrigin(x, y)) + "^FD"
            + ZplEscape.EscapeZplText(text) + ("^FS" + NewLine + Line(""))
  {
    var p := Line("^CF0," + IntToString(Units.DotsOfPixels(fontSize))) + Line(FieldOrigin(x, y));
    var d := ZplEscape.EscapeZplText(text);
    assert Line("^FD" + d + "^FS") == "^FD" + d + ("^FS" + NewLine);
    ZplEscape.ConcatAssoc(p, Line("^FD" + d + "^FS"), Line(""));
    assert p + ("^FD" + d + ("^FS" + NewLine) + Line("")) == p + "^FD" + d + ("^FS" + NewLine + Line(""));
  }

  lemma Cancel(p: string, a: string, b: string, q: string)
    requires p + a + q == p + b + q
    ensures a == b
  {
    assert |a| == |b|;
    assert a == (p + a + q)[|p| .. |p| + |a|];
    assert b == (p + b + q)[|p| .. |p| + |b|];
  }

  /**
   * The graphic field of a picture: its declared byte count is what it
   * carries, two hex digits per byte, and the printer decodes the hex back to
   * exactly the packed raster.
   */
  lemma ImageFieldConsistent(bm: Bitmap)
    requires bm.Valid()
    ensures |ZplHex.HexOf(MonoBytes(bm))| == 2 * (Monochrome.BytesPerRow(bm.width) * bm.height)
    ensures ZplHex.ParseHex(ZplHex.HexOf(MonoBytes(bm))) == Some(MonoBytes(bm))
  {
    ZplHex.HexRoundTrip(MonoBytes(bm));
  }

  lemma SmallNumbers()
    ensures IntToString(48) == "48" && IntToString(101) == "101"
    ensures IntToString(812) == "812" && IntToString(1218) == "1218"
  {
    assert NatToString(4) == "4" && NatToString(48) == "48";
    assert NatToString(1) == "1" && NatToString(10) == "10" && NatToString(101) == "101";
    assert NatToString(8) == "8" && NatToString(81) == "81" && NatToString(812) == "812";
    assert NatToString(12) == "12" && NatToString(121) == "121" && NatToString(1218) == "1218";
  }

  /** A 4 x 6 inch label: 812 dots wide and 1218 dots long at 203 dpi. */
  lemma FourBySixHeader(name: string, es: seq<Element>)
    ensures Header(Label(name, 4.0, 6.0, es))
         == "^XA\r\n" + "^PW812\r\n" + "^LL1218\r\n" + "^PR4\r\n" + "^MD15\r\n"
  {
    var lbl := Label(name, 4.0, 6.0, es);
    assert Line("^PW" + IntToString(Units.ConvertToDots(Units.InchesToPixels(lbl.widthInches)))) == "^PW812\r\n" by {
      assert Units.InchesToPixels(lbl.widthInches) == 400.0;
      Units.DotsExamples();
      SmallNumbers();
    }
    assert Line("^LL" + IntToString(Units.ConvertToDots(Units.InchesToPixels(lbl.heightInches)))) == "^LL1218\r\n" by {
      assert Units.InchesToPixels(lbl.heightInches) == 600.0;
      Units.DotsExamples();
      SmallNumbers();
    }
  }

  /**
   * The text element of a sample label: a text without '^', '~' or '\' at
   * (50, 50) in a 24-pixel font. The origin truncates 101.5 dots
   * to 101 and the text is sent unchanged.
   */
  lemma PlainTextBlock(w: int, h: int, text: string)
    requires '^' !in text && '~' !in text && '\\' !in text
    ensures Block(Text(50, 50, w, h, text, 24))
         == "^CF0,48\r\n" + "^FO101,101\r\n" + Line("^FD" + text + "^FS") + "\r\n"
  {
    ZplEscape.PlainTextUnchanged(text);
    FontAndOrigin();
    assert Line("") == "\r\n";
  }

  /** A 24-pixel font is 48 dots high and (50, 50) pixels is (101, 101) dots. */
  lemma FontAndOrigin()
    ensures Line("^CF0," + IntToString(Units.DotsOfPixels(24))) == "^CF0,48\r\n"
    ensures Line(FieldOrigin(50, 50)) == "^FO101,101\r\n"
  {
    assert Units.DotsOfPixels(24) == 48 && Units.DotsOfPixels(50) == 101;
    SmallNumbers();
  }

  /** The whole ZPL text of that element on a 4 x 6 inch label. */
  lemma PlainTextLabel(name: string, w: int, h: int, text: string)
    requires '^' !in text && '~' !in text && '\\' !in text
    ensures var lbl := Label(name, 4.0, 6.0, [Text(50, 50, w, h, text, 24)]);
            WellFormed(lbl) &&
            ZplOf(lbl) == ("^XA\r\n" + "^PW812\r\n" + "^LL1218\r\n" + "^PR4\r\n" + "^MD15\r\n")
                        + ("^CF0,48\r\n" + "^FO101,101\r\n" + Line("^FD" + text + "^FS") + "\r\n")
                        + "^XZ\r\n"
  {
    var e := Text(50, 50, w, h, text, 24);
    var lbl := Label(name, 4.0, 6.0, [e]);
    var header := "^XA\r\n" + "^PW812\r\n" + "^LL1218\r\n" + "^PR4\r\n" + "^MD15\r\n";
    var block := "^CF0,48\r\n" + "^FO101,101\r\n" + Line("^FD" + text + "^FS") + "\r\n";
    assert WellFormed(lbl);
    assert Blocks(lbl.elements) == block by {
      assert [e][..0] == [];
      assert Blocks([e]) == Blocks([]) + Block(e);
      PlainTextBlock(w, h, text);
    }
    assert Header(lbl) == header by {
      FourBySixHeader(name, [e]);
    }
    assert Footer == "^XZ\r\n";
    assert ZplOf(lbl) == header + block + "^XZ\r\n";
  }
}
