/** The plugin's final document: the unpreprocessed source copied in as character data with
    `>`, `<` and `&` replaced by entities and every non-ASCII byte by a decimal character
    reference (sections 4.6 and 4.1 of XML 1.0), the collected type definitions and function
    bodies copied byte for byte, and the order of the sections around them. */
module PluginOutput {
  import opened Wrappers
  import opened Text
  import opened Decoding
  import opened Tree
  import opened PluginTree
  import opened Units

  // ---------------------------------------------------------------- dump

  /** `dump`: copy every byte of the input until end of file. */
  method Dump(input: seq<byte>) returns (output: seq<byte>)
    ensures output == input
  {
    output := [];
    var i := 0;
    while i < |input|
      invariant i <= |input|
      invariant output == input[..i]
    {
      output := output + [input[i]];
      i := i + 1;
    }
    assert input[..|input|] == input;
  }

  // ---------------------------------------------------------------- dump_raw

  /** What `dump_raw` writes for one byte. */
  function EscapeRawByte(b: byte): (s: string)
    ensures '<' !in s && '>' !in s
    ensures b < 128 && b != '<' as int && b != '>' as int && b != '&' as int ==> s == [b as char]
    ensures b >= 128 ==> s == "&#" + NatToString(b) + ";"
    ensures |s| > 0 && (s[0] == '\n' <==> b == 0x0A) && ('\r' in s <==> b == 0x0D)
  {
    if b == '>' as int then "&gt;"
    else if b == '<' as int then "&lt;"
    else if b == '&' as int then "&amp;"
    else if b < 128 then [b as char]
    else "&#" + NatToString(b) + ";"
  }

  /** `dump_raw` over the whole source. */
  function DumpRaw(bs: seq<byte>): (s: string)
    ensures '<' !in s && '>' !in s
    ensures |s| >= |bs|
    decreases |bs|
  {
    if |bs| == 0 then "" else EscapeRawByte(bs[0]) + DumpRaw(bs[1..])
  }

  /** A decimal character reference to a byte above 127 reads back as that byte's character. */
  lemma CharacterReferenceReadBack(b: byte)
    requires b >= 128
    ensures XmlUnescape("&#" + NatToString(b) + ";") == Some([b as char])
  {
    var d := NatToString(b);
    DigitsOfNatToString(b);
    DecimalReference(d, b);
    SingleReference("&#" + d + ";", b as char);
  }

  /** Each byte reads back as the character with the byte's value. */
  lemma RawByteReadBack(b: byte)
    ensures XmlUnescape(EscapeRawByte(b)) == Some([b as char])
  {
    if b == '>' as int {
      EntityUnescapes("&gt;", '>');
    } else if b == '<' as int {
      EntityUnescapes("&lt;", '<');
    } else if b == '&' as int {
      EntityUnescapes("&amp;", '&');
    } else if b < 128 {
      XmlUnescapePlain([b as char]);
    } else {
      CharacterReferenceReadBack(b);
    }
  }

  /** The parser gives back the source with each byte read as the character of that value
      (for a UTF-8 source, each byte of a multi-byte character becomes a character of its own). */
  lemma {:induction false} DumpRawReadBack(bs: seq<byte>)
    ensures XmlUnescape(DumpRaw(bs)) == Some(BytesToString(bs))
    decreases |bs|
  {
    if |bs| == 0 {
      assert BytesToString(bs) == "";
    } else {
      RawByteReadBack(bs[0]);
      DumpRawReadBack(bs[1..]);
      XmlUnescapeAppend(EscapeRawByte(bs[0]), DumpRaw(bs[1..]));
      assert BytesToString(bs) == [bs[0] as char] + BytesToString(bs[1..]);
    }
  }

  /** The parser hands on a carriage return, or a carriage return and line feed, as one
      line feed (section 2.11 of XML 1.0). `dump_raw` copies both bytes through, so the source
      comes back with its line ends normalised in the same way. */
  lemma {:induction false} DumpRawLineEnds(bs: seq<byte>)
    ensures XmlUnescape(LineEnds(DumpRaw(bs))) == Some(LineEnds(BytesToString(bs)))
    decreases |bs|
  {
    if |bs| == 0 {
      assert BytesToString(bs) == "";
    } else {
      var tail := BytesToString(bs[1..]);
      assert BytesToString(bs) == [bs[0] as char] + tail;
      if bs[0] == 0x0D {
        var crlf := |bs| > 1 && bs[1] == 0x0A;
        var rest := if crlf then bs[2..] else bs[1..];
        ReturnReadBack(bs, crlf, rest);
      } else {
        DumpRawLineEnds(bs[1..]);
        LineEndsPlain(EscapeRawByte(bs[0]), DumpRaw(bs[1..]));
        LineEndsPlain([bs[0] as char], tail);
        RawByteReadBack(bs[0]);
        XmlUnescapeAppend(EscapeRawByte(bs[0]), LineEnds(DumpRaw(bs[1..])));
      }
    }
  }

  /** The step of `DumpRawLineEnds` for a source opening with a carriage return. */
  lemma {:induction false} ReturnReadBack(bs: seq<byte>, crlf: bool, rest: seq<byte>)
    requires |bs| > 0 && bs[0] == 0x0D
    requires crlf == (|bs| > 1 && bs[1] == 0x0A) && rest == (if crlf then bs[2..] else bs[1..])
    ensures XmlUnescape(LineEnds(DumpRaw(bs))) == Some(LineEnds(BytesToString(bs)))
    decreases |bs|, 0
  {
    DumpRawLineEnds(rest);
    ReturnLineEnds(bs, crlf, rest);
    XmlUnescapePlain("\n");
    XmlUnescapeAppend("\n", LineEnds(DumpRaw(rest)));
  }

  /** A leading carriage return, with the line feed after it if any, normalises to one line
      feed both in the source and in `dump_raw`'s output. */
  lemma ReturnLineEnds(bs: seq<byte>, crlf: bool, rest: seq<byte>)
    requires |bs| > 0 && bs[0] == 0x0D
    requires crlf == (|bs| > 1 && bs[1] == 0x0A) && rest == (if crlf then bs[2..] else bs[1..])
    ensures LineEnds(DumpRaw(bs)) == "\n" + LineEnds(DumpRaw(rest))
    ensures LineEnds(BytesToString(bs)) == "\n" + LineEnds(BytesToString(rest))
  {
    var d := DumpRaw(bs[1..]);
    assert DumpRaw(bs) == "\r" + d;
    if crlf {
      assert d == "\n" + DumpRaw(rest);
      assert d[1..] == DumpRaw(rest);
    } else if |bs| > 1 {
      assert d[0] == EscapeRawByte(bs[1])[0];
    }
    ReturnNormalises(d, DumpRaw(rest));
    var t := BytesToString(bs[1..]);
    assert BytesToString(bs) == "\r" + t;
    if crlf {
      assert t[1..] == BytesToString(rest);
    }
    ReturnNormalises(t, BytesToString(rest));
  }

  /** A carriage return before `t` normalises to a line feed, taking a line feed that opens
      `t` with it. */
  lemma ReturnNormalises(t: string, tail: string)
    requires (|t| > 0 && t[0] == '\n' && tail == t[1..]) || ((|t| == 0 || t[0] != '\n') && tail == t)
    ensures LineEnds("\r" + t) == "\n" + LineEnds(tail)
  {
    LineEndsReturn(t);
  }

  /** The bytes whose output is a character XML 1.0 admits: tab, line feed, carriage return,
      printable ASCII, and anything non-ASCII (written as a reference). */
  predicate AdmittedByte(b: byte) {
    b >= 128 || XmlChar(b)
  }

  lemma AllXmlCharsAppend(a: string, b: string)
    ensures AllXmlChars(a + b) <==> AllXmlChars(a) && AllXmlChars(b)
  {
    if AllXmlChars(a) && AllXmlChars(b) {
      forall i | 0 <= i < |a + b| ensures XmlChar((a + b)[i] as int) {
        if i >= |a| {
          assert (a + b)[i] == b[i - |a|];
        }
      }
    }
    if AllXmlChars(a + b) {
      forall i | 0 <= i < |a| ensures XmlChar(a[i] as int) {
        assert (a + b)[i] == a[i];
      }
      forall i | 0 <= i < |b| ensures XmlChar(b[i] as int) {
        assert (a + b)[|a| + i] == b[i];
      }
    }
  }

  lemma EscapeRawByteChars(b: byte)
    ensures AllXmlChars(EscapeRawByte(b)) <==> AdmittedByte(b)
  {
    var s := EscapeRawByte(b);
    if b >= 128 {
      var d := NatToString(b);
      assert s == "&#" + d + ";";
      forall i | 0 <= i < |s| ensures XmlChar(s[i] as int) {
        if 2 <= i < 2 + |d| {
          assert s[i] == d[i - 2];
        }
      }
    } else if b == '>' as int || b == '<' as int || b == '&' as int {
      forall i | 0 <= i < |s| ensures XmlChar(s[i] as int) {
        assert s[i] in "&amp;lgt";
      }
    } else {
      assert s == [b as char] && (b as char) as int == b;
      assert AllXmlChars(s) <==> XmlChar(s[0] as int);
    }
  }

  /** The raw source is well-formed character data exactly when it holds no ASCII control
      byte other than tab, line feed and carriage return: those bytes are copied through
      unchanged, and XML 1.0 admits them neither literally nor as references. */
  lemma {:induction false} DumpRawWellFormed(bs: seq<byte>)
    ensures AllXmlChars(DumpRaw(bs)) <==> forall i :: 0 <= i < |bs| ==> AdmittedByte(bs[i])
    decreases |bs|
  {
    if |bs| > 0 {
      DumpRawWellFormed(bs[1..]);
      EscapeRawByteChars(bs[0]);
      AllXmlCharsAppend(EscapeRawByte(bs[0]), DumpRaw(bs[1..]));
      if forall i :: 0 <= i < |bs[1..]| ==> AdmittedByte(bs[1..][i]) {
        if AdmittedByte(bs[0]) {
          forall i | 0 <= i < |bs| ensures AdmittedByte(bs[i]) {
            if i > 0 {
              assert bs[i] == bs[1..][i - 1];
            }
          }
        }
      } else {
        var k :| 0 <= k < |bs[1..]| && !AdmittedByte(bs[1..][k]);
        assert bs[k + 1] == bs[1..][k];
      }
    }
  }

  /** A form feed (common in GNU-style sources) is one of the bytes that leave the document
      ill-formed. */
  lemma FormFeedIsNotAdmitted()
    ensures !AllXmlChars(DumpRaw([0x0C]))
  {
    DumpRawWellFormed([0x0C]);
  }

  // ---------------------------------------------------------------- the document

  /** The parsed value of character data: empty text reads as no text at all, as the XML
      library reports it. Text the parser refuses has no value either; the document holding it
      is refused as a whole (`Document`). */
  function ParsedText(written: string): (r: Option<string>)
    ensures r.Some? ==> written != "" && AllXmlChars(written)
  {
    if written == "" then None else CharData(written)
  }

  /** A source every byte of which `dump_raw` writes as an admitted character. */
  predicate AdmittedSource(src: seq<byte>) {
    forall i :: 0 <= i < |src| ==> AdmittedByte(src[i])
  }

  /** `lh_output_finish`, as the backend's parser reads it: the root element with the file
      name, the language (`C` for the C front end, `C++` for any other) and the client version,
      then the raw source, the referenced types and the function bodies, in that order. The
      file name and version are printed unescaped between single quotes and the source is
      copied with its control bytes, so the parser refuses the whole document (None) when
      either value cannot stand there or the source holds a byte XML does not admit. */
  function Document(filename: string, isC: bool, version: string, src: seq<byte>,
                    types: seq<Element>, functions: seq<Element>): (doc: Option<Element>)
    ensures doc.Some? ==> doc.value.tag == "lh-translation-unit" && |doc.value.children| == 3
    ensures doc.Some? ==>
      (doc.value.children[0].tag == "raw-source" && doc.value.children[1].tag == "referenced-types"
       && doc.value.children[2].tag == "function-bodies")
  {
    var raw := DumpRaw(src);
    var name := SingleQuotedValue(filename);
    var client := SingleQuotedValue(version);
    if !AllXmlChars(raw) || name.None? || client.None? then None
    else
      var attrs := map["filename" := name.value, "language" := (if isC then "C" else "C++"),
                       "client-version" := client.value];
      Some(Element("lh-translation-unit", attrs,
                   [Element("raw-source", map[], [], ParsedText(raw)),
                    Element("referenced-types", map[], types, None),
                    Element("function-bodies", map[], functions, None)],
                   None))
  }

  /** The document is accepted exactly when the source holds only admitted bytes and both
      printed values can stand between single quotes. */
  lemma DocumentWellFormed(filename: string, isC: bool, version: string, src: seq<byte>,
                           types: seq<Element>, functions: seq<Element>)
    ensures Document(filename, isC, version, src, types, functions).Some? <==>
      AdmittedSource(src) && SingleQuotedValue(filename).Some? && SingleQuotedValue(version).Some?
  {
    DumpRawWellFormed(src);
  }

  /** Reading an accepted document back: the language is one the unit accepts, the file name
      and version are their attribute values (the names themselves for plain text, see
      `Decoding.PlainAttributeValue`), the source is its bytes with line ends normalised
      (absent for an empty file, which the unit then refuses to hand out), and the type and
      function elements are found in the order they were written. */
  lemma DocumentReadBack(filename: string, isC: bool, version: string, src: seq<byte>,
                         types: seq<Element>, functions: seq<Element>)
    requires Document(filename, isC, version, src, types, functions).Some?
    ensures var doc := Document(filename, isC, version, src, types, functions).value;
      Get(doc, "language").Some? && SetLang(NewUnit(), Get(doc, "language").value).Ok?
      && Get(doc, "filename") == SingleQuotedValue(filename)
      && Get(doc, "client-version") == SingleQuotedValue(version)
      && Find(doc, "raw-source").Some?
      && Find(doc, "raw-source").value.text == (if |src| == 0 then None else Some(LineEnds(BytesToString(src))))
      && Find(doc, "referenced-types").Some? && Find(doc, "referenced-types").value.children == types
      && Find(doc, "function-bodies").Some? && Find(doc, "function-bodies").value.children == functions
  {
    var doc := Document(filename, isC, version, src, types, functions).value;
    var raw := DumpRaw(src);
    DumpRawLineEnds(src);
    assert |src| > 0 ==> raw != "";
    assert |src| == 0 ==> raw == "";
    assert doc.children[1..][0] == doc.children[1];
    assert doc.children[1..][1..][0] == doc.children[2];
  }

  /** A source without carriage returns comes back byte for byte. */
  lemma SourceWithoutReturnsReadBack(src: seq<byte>)
    requires forall i :: 0 <= i < |src| ==> src[i] != 0x0D
    ensures XmlUnescape(LineEnds(DumpRaw(src))) == Some(BytesToString(src))
  {
    DumpRawLineEnds(src);
    LineEndsWithoutReturn(BytesToString(src));
  }

  /** A carriage return-line feed pair reads back as one line feed, so such a source is not
      given back as written. */
  lemma CarriageReturnsNormalised()
    ensures XmlUnescape(LineEnds(DumpRaw([0x0D, 0x0A]))) == Some("\n")
  {
    var t := BytesToString([0x0D, 0x0A]);
    assert t[0] as int == 0x0D && t[1] as int == 0x0A;
    assert t == "\r" + "\n";
    DumpRawLineEnds([0x0D, 0x0A]);
    LineEndsReturn("\n");
    assert "\n"[1..] == "";
    assert LineEnds(t) == "\n" + LineEnds("");
    assert "\n" + "" == "\n";
  }
}
