/**
 * ZPL field-data escaping. The thermal printer code replaces every '^' of a
 * text element by `^FH^5E`, every '~' by `^FH^7E` and every '\' by `^FH^5C`
 * before writing it between `^FD` and `^FS`.
 *
 * In ZPL II, `^` and `~` open commands wherever they occur, and `^FH` is a
 * command that takes effect on the next `^FD`, with `_` as its default hex
 * indicator. The second half of this module models how a printer reads the
 * field data, shows that the replacement as written cuts the field short, and
 * proves the round trip of the escape the code evidently intends: `^FH` ahead
 * of `^FD` and `_5E`, `_7E`, `_5C`, `_5F` in the data.
 */
module ZplEscape {
  import opened Wrappers
  import ZplHex

  const CaretEscape: string := "^FH^5E"
  const TildeEscape: string := "^FH^7E"
  const BackslashEscape: string := "^FH^5C"

  /** `s.Replace(c, rep)` for a one-character pattern: every `c` becomes `rep`. */
  function ReplaceChar(s: string, c: char, rep: string): (r: string)
    ensures c !in s ==> r == s
    decreases |s|
  {
    if s == [] then []
    else (if s[0] == c then rep else [s[0]]) + ReplaceChar(s[1..], c, rep)
  }

  /** The escaping as the printer code writes it: three successive replacements. */
  function EscapeZplText(text: string): string {
    if text == [] then []
    else ReplaceChar(ReplaceChar(ReplaceChar(text, '^', CaretEscape), '~', TildeEscape), '\\', BackslashEscape)
  }

  /** A text without `^`, `~` or a backslash is sent as it is. */
  lemma PlainTextUnchanged(text: string)
    requires '^' !in text && '~' !in text && '\\' !in text
    ensures EscapeZplText(text) == text
  {
    assert '~' !in ReplaceChar(text, '^', CaretEscape);
  }

  function EscapeChar(c: char): string {
    if c == '^' then CaretEscape
    else if c == '~' then TildeEscape
    else if c == '\\' then BackslashEscape
    else [c]
  }

  /** Escaping as one left-to-right pass over the original text. */
  function EscapeMap(text: string): string
    decreases |text|
  {
    if text == [] then [] else EscapeChar(text[0]) + EscapeMap(text[1..])
  }

  lemma {:induction false} ReplaceCharAppend(a: string, b: string, c: char, rep: string)
    ensures ReplaceChar(a + b, c, rep) == ReplaceChar(a, c, rep) + ReplaceChar(b, c, rep)
    decreases |a|
  {
    if a == [] {
      assert a + b == b;
    } else {
      assert (a + b)[0] == a[0] && (a + b)[1..] == a[1..] + b;
      ReplaceCharAppend(a[1..], b, c, rep);
    }
  }

  lemma OneCharEscape(c: char)
    ensures ReplaceChar(ReplaceChar(ReplaceChar([c], '^', CaretEscape), '~', TildeEscape), '\\', BackslashEscape)
         == EscapeChar(c)
  {
    assert '~' !in CaretEscape && '\\' !in CaretEscape && '\\' !in TildeEscape;
  }

  /**
   * The three chained replacements equal the one-pass map: no replacement text
   * contains '~' or '\', so no character is escaped twice and every original
   * special character is escaped exactly once.
   */
  lemma {:induction false} SequentialReplaceIsOnePass(text: string)
    ensures EscapeZplText(text) == EscapeMap(text)
    decreases |text|
  {
    if text != [] {
      var c, rest := text[0], text[1..];
      assert text == [c] + rest;
      ReplaceCharAppend([c], rest, '^', CaretEscape);
      var r1a, r1b := ReplaceChar([c], '^', CaretEscape), ReplaceChar(rest, '^', CaretEscape);
      ReplaceCharAppend(r1a, r1b, '~', TildeEscape);
      var r2a, r2b := ReplaceChar(r1a, '~', TildeEscape), ReplaceChar(r1b, '~', TildeEscape);
      ReplaceCharAppend(r2a, r2b, '\\', BackslashEscape);
      OneCharEscape(c);
      SequentialReplaceIsOnePass(rest);
    }
  }

  /** `^` at `i` of `s` opens `^FH` or a hex pair `^5`/`^7`. */
  predicate OpensEscape(s: string, i: nat)
    requires i < |s|
  {
    (i + 1 < |s| && s[i + 1] in {'5', '7'}) || (i + 2 < |s| && s[i + 1] == 'F' && s[i + 2] == 'H')
  }

  /** The escaped text carries no raw '~' or '\', and every '^' in it opens `^FH` or a hex pair. */
  lemma {:induction false} EscapeMapSafe(text: string)
    ensures '~' !in EscapeMap(text) && '\\' !in EscapeMap(text)
    ensures forall i :: 0 <= i < |EscapeMap(text)| && EscapeMap(text)[i] == '^' ==> OpensEscape(EscapeMap(text), i)
    decreases |text|
  {
    if text != [] {
      EscapeMapSafe(text[1..]);
      var h, t := EscapeChar(text[0]), EscapeMap(text[1..]);
      assert EscapeMap(text) == h + t;
      forall i | 0 <= i < |h + t| && (h + t)[i] == '^'
        ensures OpensEscape(h + t, i)
      {
        if i < |h| {
          OpensInHead(text[0], t, i);
        } else {
          assert t[i - |h|] == '^';
          OpensInTail(h, t, i);
        }
      }
    }
  }

  lemma OpensInHead(c: char, t: string, i: nat)
    requires i < |EscapeChar(c)| && (EscapeChar(c) + t)[i] == '^'
    ensures OpensEscape(EscapeChar(c) + t, i)
  {
    var h := EscapeChar(c);
    assert (h + t)[i] == h[i];
    if i + 1 < |h| {
      assert (h + t)[i + 1] == h[i + 1];
    }
    if i + 2 < |h| {
      assert (h + t)[i + 2] == h[i + 2];
    }
  }

  lemma OpensInTail(h: string, t: string, i: nat)
    requires |h| <= i < |h + t| && OpensEscape(t, i - |h|)
    ensures OpensEscape(h + t, i)
  {
    if i + 1 < |h + t| {
      assert (h + t)[i + 1] == t[i + 1 - |h|];
    }
    if i + 2 < |h + t| {
      assert (h + t)[i + 2] == t[i + 2 - |h|];
    }
  }

  /** The escaped text holds no tilde, no backslash, no `^X` and no `^FS`. */
  lemma EscapeZplTextSafe(text: string)
    ensures '~' !in EscapeZplText(text) && '\\' !in EscapeZplText(text)
    ensures forall i :: 0 <= i < |EscapeZplText(text)| && EscapeZplText(text)[i] == '^' ==>
              i + 1 < |EscapeZplText(text)| && EscapeZplText(text)[i + 1] != 'X'
    ensures forall i :: 0 <= i && i + 2 < |EscapeZplText(text)| && EscapeZplText(text)[i] == '^' ==>
              !(EscapeZplText(text)[i + 1] == 'F' && EscapeZplText(text)[i + 2] == 'S')
  {
    SequentialReplaceIsOnePass(text);
    EscapeMapSafe(text);
    var d := EscapeZplText(text);
    forall i | 0 <= i < |d| && d[i] == '^'
      ensures i + 1 < |d| && d[i + 1] != 'X'
    {
      assert OpensEscape(d, i);
    }
    forall i | 0 <= i && i + 2 < |d| && d[i] == '^'
      ensures !(d[i + 1] == 'F' && d[i + 2] == 'S')
    {
      assert OpensEscape(d, i);
    }
  }

  /**
   * The inverse of the escape: each six-character replacement back to its
   * character. This is not how a printer reads field data (see
   * `FieldDataRead`); it shows that the escape loses no information.
   */
  function EscapeInverse(s: string): string
    decreases |s|
  {
    if |s| >= 6 && s[..6] == CaretEscape then ['^'] + EscapeInverse(s[6..])
    else if |s| >= 6 && s[..6] == TildeEscape then ['~'] + EscapeInverse(s[6..])
    else if |s| >= 6 && s[..6] == BackslashEscape then ['\\'] + EscapeInverse(s[6..])
    else if s == [] then []
    else [s[0]] + EscapeInverse(s[1..])
  }

  /** The escape loses no information: its inverse recovers the text. */
  lemma {:induction false} EscapeRoundTrip(text: string)
    ensures EscapeInverse(EscapeZplText(text)) == text
  {
    SequentialReplaceIsOnePass(text);
    EscapeMapRoundTrip(text);
  }

  lemma {:induction false} EscapeMapRoundTrip(text: string)
    ensures EscapeInverse(EscapeMap(text)) == text
    decreases |text|
  {
    if text != [] {
      var c := text[0];
      var h, t := EscapeChar(c), EscapeMap(text[1..]);
      var s := h + t;
      assert EscapeMap(text) == s;
      EscapeMapRoundTrip(text[1..]);
      if c == '^' || c == '~' || c == '\\' {
        assert s[..6] == h && s[6..] == t;
      } else {
        assert s[0] == c && s[1..] == t;
        assert |s| >= 6 ==> s[..6] != CaretEscape && s[..6] != TildeEscape && s[..6] != BackslashEscape
          by { if |s| >= 6 { assert s[..6][0] == c; } }
      }
    }
  }

  lemma EscapeMapCons(c: char, rest: string)
    ensures EscapeMap([c] + rest) == EscapeChar(c) + EscapeMap(rest)
  {
    assert ([c] + rest)[0] == c && ([c] + rest)[1..] == rest;
  }

  /** The one-pass map on plain characters around one of each special character. */
  lemma EscapeMapMixed(a: char, b: char, c: char, d: char)
    requires !IsSpecial(a) && !IsSpecial(b) && !IsSpecial(c) && !IsSpecial(d)
    ensures EscapeMap([a, '^', b, '~', c, '\\', d])
         == [a] + (CaretEscape + ([b] + (TildeEscape + ([c] + (BackslashEscape + [d])))))
  {
    var s6: string := [d];
    var s5: string := ['\\'] + s6;
    var s4: string := [c] + s5;
    var s3: string := ['~'] + s4;
    var s2: string := [b] + s3;
    var s1: string := ['^'] + s2;
    assert [a, '^', b, '~', c, '\\', d] == [a] + s1;
    var e6: string := [d];
    assert EscapeMap(s6) == e6 by {
      EscapeMapCons(d, []);
      assert [d] + [] == s6;
    }
    var e5 := BackslashEscape + e6;
    assert EscapeMap(s5) == e5 by { EscapeMapCons('\\', s6); }
    var e4 := [c] + e5;
    assert EscapeMap(s4) == e4 by { EscapeMapCons(c, s5); }
    var e3 := TildeEscape + e4;
    assert EscapeMap(s3) == e3 by { EscapeMapCons('~', s4); }
    var e2 := [b] + e3;
    assert EscapeMap(s2) == e2 by { EscapeMapCons(b, s3); }
    var e1 := CaretEscape + e2;
    assert EscapeMap(s1) == e1 by { EscapeMapCons('^', s2); }
    EscapeMapCons(a, s1);
    assert EscapeMap([a, '^', b, '~', c, '\\', d]) == EscapeMap([a] + s1);
  }

  /**
   * The documented sample `a^b~c\d` and every text of that shape: plain
   * characters pass through and each special character becomes its `^FH` form.
   */
  lemma EscapeExample(a: char, b: char, c: char, d: char)
    requires !IsSpecial(a) && !IsSpecial(b) && !IsSpecial(c) && !IsSpecial(d)
    ensures EscapeZplText([a, '^', b, '~', c, '\\', d])
         == [a] + (CaretEscape + ([b] + (TildeEscape + ([c] + (BackslashEscape + [d])))))
  {
    SequentialReplaceIsOnePass([a, '^', b, '~', c, '\\', d]);
    EscapeMapMixed(a, b, c, d);
  }

  // How a ZPL II printer reads field data, and what that makes of the escape.

  /**
   * The field data a printer takes after `^FD`: `^` and `~` open the next
   * command, so the data runs up to the first of them.
   */
  function FieldDataRead(s: string): (r: string)
    ensures r <= s
    ensures '^' !in r && '~' !in r
    ensures |r| < |s| ==> s[|r|] == '^' || s[|r|] == '~'
    decreases |s|
  {
    if s == [] || s[0] == '^' || s[0] == '~' then [] else [s[0]] + FieldDataRead(s[1..])
  }

  /** Data free of `^` and `~` followed by a command is read up to that command. */
  lemma {:induction false} ReadStopsAtCommand(p: string, q: string)
    requires '^' !in p && '~' !in p
    requires q != [] && (q[0] == '^' || q[0] == '~')
    ensures FieldDataRead(p + q) == p
    decreases |p|
  {
    if p == [] {
      assert p + q == q;
    } else {
      assert (p + q)[0] == p[0] && (p + q)[1..] == p[1..] + q;
      ReadStopsAtCommand(p[1..], q);
    }
  }

  lemma {:induction false} EscapeMapAppend(a: string, b: string)
    ensures EscapeMap(a + b) == EscapeMap(a) + EscapeMap(b)
    decreases |a|
  {
    if a == [] {
      assert a + b == b;
    } else {
      assert (a + b)[0] == a[0] && (a + b)[1..] == a[1..] + b;
      EscapeMapAppend(a[1..], b);
    }
  }

  lemma {:induction false} EscapeMapPlain(p: string)
    requires '^' !in p && '~' !in p && '\\' !in p
    ensures EscapeMap(p) == p
    decreases |p|
  {
    if p != [] {
      assert p == [p[0]] + p[1..];
      EscapeMapPlain(p[1..]);
    }
  }

  predicate IsSpecial(c: char) {
    c == '^' || c == '~' || c == '\\'
  }

  /** The first '^', '~' or '\' of a text that has one. */
  lemma {:induction false} FirstSpecial(text: string) returns (i: nat)
    requires '^' in text || '~' in text || '\\' in text
    ensures i < |text| && IsSpecial(text[i])
    ensures '^' !in text[..i] && '~' !in text[..i] && '\\' !in text[..i]
    decreases |text|
  {
    if IsSpecial(text[0]) {
      i := 0;
    } else {
      assert forall c :: c in text && c != text[0] ==> c in text[1..];
      var j := FirstSpecial(text[1..]);
      i := j + 1;
      assert text[..i] == [text[0]] + text[1..][..j];
    }
  }

  /**
   * As written, the field is cut short at the first special character: the `^`
   * of the `^FH` put in its place opens a command, so the printer takes only
   * the characters before it as field data. `tail` is what follows the
   * escaped text on the line, `^FS` and onwards.
   */
  lemma AsWrittenFieldCutShort(text: string, tail: string, i: nat)
    requires tail != [] && tail[0] == '^'
    requires i < |text| && IsSpecial(text[i])
    requires '^' !in text[..i] && '~' !in text[..i] && '\\' !in text[..i]
    ensures FieldDataRead(EscapeZplText(text) + tail) == text[..i]
    ensures FieldDataRead(EscapeZplText(text) + tail) != text
  {
    var a, c, r := text[..i], text[i], text[i + 1..];
    TextAround(text, i);
    SequentialReplaceIsOnePass(text);
    CutShortAround(a, c, r, tail);
  }

  lemma TextAround(text: string, i: nat)
    requires i < |text|
    ensures text == text[..i] + ([text[i]] + text[i + 1..])
  {
  }

  /** A plain prefix `a` followed by a special character `c`: the read stops after `a`. */
  lemma CutShortAround(a: string, c: char, r: string, tail: string)
    requires tail != [] && tail[0] == '^'
    requires '^' !in a && '~' !in a && '\\' !in a && IsSpecial(c)
    ensures FieldDataRead(EscapeMap(a + ([c] + r)) + tail) == a
  {
    var q := EscapeChar(c) + EscapeMap(r);
    assert EscapeMap(a + ([c] + r)) == a + q by {
      EscapeMapAppend(a, [c] + r);
      EscapeMapCons(c, r);
      EscapeMapPlain(a);
    }
    var s := q + tail;
    assert s[0] == '^';
    ConcatAssoc(a, q, tail);
    ReadStopsAtCommand(a, s);
  }

  /** Concatenation is associative. */
  lemma ConcatAssoc(x: string, y: string, z: string)
    ensures (x + y) + z == x + (y + z)
  {
  }

  /**
   * As written, a text element prints as typed exactly when it holds no '^',
   * '~' or '\'.
   */
  lemma AsWrittenReadsBack(text: string, tail: string)
    requires tail != [] && tail[0] == '^'
    ensures FieldDataRead(EscapeZplText(text) + tail) == text
        <==> ('^' !in text && '~' !in text && '\\' !in text)
  {
    if '^' !in text && '~' !in text && '\\' !in text {
      PlainTextUnchanged(text);
      ReadStopsAtCommand(text, tail);
    } else {
      var i := FirstSpecial(text);
      AsWrittenFieldCutShort(text, tail, i);
    }
  }

  /** The hex indicator `^FH` sets when it is given no parameter. */
  const HexIndicator: char := '_'

  /** The intended escape of one character: the indicator and the two hex digits of its code. */
  function HexEscapeChar(c: char): string {
    if c == '^' then "_5E"
    else if c == '~' then "_7E"
    else if c == '\\' then "_5C"
    else if c == HexIndicator then "_5F"
    else [c]
  }

  /** The intended field data: every special character and the indicator itself hex-escaped. */
  function HexEscape(text: string): (r: string)
    ensures '^' !in r && '~' !in r
    decreases |text|
  {
    if text == [] then [] else HexEscapeChar(text[0]) + HexEscape(text[1..])
  }

  /** The intended text field: `^FH` ahead of `^FD`, then the hex-escaped data and `^FS`. */
  function IntendedField(text: string): string {
    "^FH^FD" + HexEscape(text) + "^FS"
  }

  /** The value of a hex digit after the indicator; lower-case digits are read as well. */
  function HexNibble(c: char): (v: Option<nat>)
    ensures v.Some? ==> v.value < 16
  {
    if 'a' <= c <= 'f' then Some(c as int - 'a' as int + 10) else ZplHex.HexValue(c)
  }

  /**
   * How a printer decodes field data after `^FH`: the indicator followed by two
   * hex digits stands for the character of that code.
   */
  function HexDecode(s: string): string
    decreases |s|
  {
    if |s| >= 3 && s[0] == HexIndicator && HexNibble(s[1]).Some? && HexNibble(s[2]).Some? then
      [(HexNibble(s[1]).value * 16 + HexNibble(s[2]).value) as char] + HexDecode(s[3..])
    else if s == [] then []
    else [s[0]] + HexDecode(s[1..])
  }

  lemma {:induction false} HexDecodeEscape(text: string)
    ensures HexDecode(HexEscape(text)) == text
    decreases |text|
  {
    if text != [] {
      var c, rest := text[0], text[1..];
      assert HexEscape(text) == HexEscapeChar(c) + HexEscape(rest);
      HexDecodeEscape(rest);
      HexDecodeStep(c, HexEscape(rest));
      assert text == [c] + rest;
    }
  }

  /** Decoding the escape of one character ahead of more data gives that character first. */
  lemma HexDecodeStep(c: char, u: string)
    ensures HexDecode(HexEscapeChar(c) + u) == [c] + HexDecode(u)
  {
    var s := HexEscapeChar(c) + u;
    if c == '^' || c == '~' || c == '\\' || c == HexIndicator {
      assert s[0] == HexIndicator && s[3..] == u;
    } else {
      assert s[0] == c && s[1..] == u;
    }
  }

  /**
   * The intended field prints exactly the text: after `^FH^FD` the data holds
   * no command prefix, so the printer reads all of it up to `^FS`, and hex
   * decoding restores every escaped character.
   */
  lemma IntendedRoundTrip(text: string)
    ensures IntendedField(text)[..6] == "^FH^FD"
    ensures HexDecode(FieldDataRead(IntendedField(text)[6..])) == text
  {
    var f := IntendedField(text);
    assert f[6..] == HexEscape(text) + "^FS";
    ReadStopsAtCommand(HexEscape(text), "^FS");
    HexDecodeEscape(text);
  }
}
