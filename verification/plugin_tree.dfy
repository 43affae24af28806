/** The GCC plugin's serialisation of trees: the tags written for expression and type tree
    codes, the indentation helper, locations, qualifier and attribute lists, declaration
    references, the varargs mark of function types, and the escaping of string literals.

    GCC's trees are not modelled; what the plugin reads from them (tree codes, qualifier bits,
    attribute identifiers, uids, names, bytes) arrives as parameters. Each piece is proved
    against the backend's reading of what it writes. */
module PluginTree {
  import opened Wrappers
  import opened Text
  import opened Misc
  import opened Decoding
  import opened Tree
  import opened Types
  import opened Expressions

  /** `INDENT`: the step between nesting levels. */
  const Indent: nat := 2

  // ---------------------------------------------------------------- indentation

  /** `spc(i)`: a string of `i` spaces from a 128-byte buffer; the assertion `i < 128` stops
      the plugin otherwise (None). */
  function Spc(i: nat): (r: Option<string>)
    ensures r.Some? <==> i < 128
    ensures r.Some? ==> |r.value| == i && forall k :: 0 <= k < i ==> r.value[k] == ' '
  {
    if i < 128 then Some(Spaces(i)) else None
  }

  /** One nesting level deeper is the same prefix followed by `INDENT` more spaces. */
  lemma SpcNests(i: nat)
    requires i + Indent < 128
    ensures Spc(i + Indent) == Some(Spc(i).value + "  ")
  {
    var a := Spc(i + Indent).value;
    var b := Spc(i).value + "  ";
    assert |a| == |b|;
    assert forall k :: 0 <= k < |a| ==> a[k] == b[k];
    assert a == b;
  }

  // ---------------------------------------------------------------- locations

  /** `filter_built_in`: GCC's pseudo file `<built-in>` (or no file at all) is written with
      its angle brackets as entity references. */
  function FilterBuiltIn(file: Option<string>): (r: string)
    ensures file.None? || file == Some(BuiltInFile) ==> XmlUnescape(r) == Some(BuiltInFile)
    ensures file.Some? && file != Some(BuiltInFile) ==> r == file.value
  {
    if file.None? || file == Some(BuiltInFile) then
      BuiltInUnescapes(BuiltInText);
      BuiltInText
    else file.value
  }

  /** GCC's name for the pseudo file holding its built-in declarations, `<built-in>`. */
  const BuiltInFile: string := "<" + BuiltInWord + ">"
  const BuiltInWord: string := "built-in"
  /** What the plugin writes for it, `&lt;built-in&gt;`. */
  const BuiltInText: string := "&lt;" + BuiltInWord + "&gt;"

  lemma BuiltInUnescapes(s: string)
    requires s == BuiltInText
    ensures XmlUnescape(s) == Some(BuiltInFile)
  {
    AngleReferences(BuiltInWord);
  }

  /** Text without `&` between the `&lt;` and `&gt;` references reads back inside angle brackets. */
  lemma AngleReferences(x: string)
    requires '&' !in x
    ensures XmlUnescape("&lt;" + x + "&gt;") == Some("<" + x + ">")
  {
    var y := x + "&gt;";
    PlainThenGreater(x);
    EntityThen("&lt;", '<', y);
    assert "&lt;" + x + "&gt;" == "&lt;" + y;
    assert "<" + x + ">" == ['<'] + (x + ">");
  }

  lemma PlainThenGreater(x: string)
    requires '&' !in x
    ensures XmlUnescape(x + "&gt;") == Some(x + ">")
  {
    XmlUnescapePlain(x);
    EntityUnescapes("&gt;", '>');
    XmlUnescapeAppend(x, "&gt;");
  }

  /** An entity reference followed by well-formed text reads back as its character followed
      by that text's value. */
  lemma EntityThen(e: string, c: char, y: string)
    requires (e == "&amp;" && c == '&') || (e == "&lt;" && c == '<') || (e == "&gt;" && c == '>')
    requires XmlUnescape(y).Some?
    ensures XmlUnescape(e + y) == Some([c] + XmlUnescape(y).value)
  {
    EntityUnescapes(e, c);
    XmlUnescapeAppend(e, y);
  }

  /** The three entity references the plugin writes each stand for their character. */
  lemma EntityUnescapes(s: string, c: char)
    requires (s == "&amp;" && c == '&') || (s == "&lt;" && c == '<') || (s == "&gt;" && c == '>')
    ensures XmlUnescape(s) == Some([c])
  {
    if s == "&lt;" {
      assert !IsPrefix("&amp;", s);
    } else if s == "&gt;" {
      assert !IsPrefix("&amp;", s);
      assert s[1] != "&lt;"[1];
      assert !IsPrefix("&lt;", s);
    }
    assert Reference(s) == Some((c, |s|));
    SingleReference(s, c);
  }

  /** The value of the `location` attribute: file, line and column joined by colons. */
  function LocationValue(file: Option<string>, line: int, column: int): (v: string)
  {
    FilterBuiltIn(file) + Position(line, column)
  }

  /** The `:line:column` part of a location. */
  function Position(line: int, column: int): string {
    ":" + IntToString(line) + ":" + IntToString(column)
  }

  /** The file name the backend sees for a location. */
  function ShownFile(file: Option<string>): string {
    if file.None? || file == Some(BuiltInFile) then BuiltInFile else file.value
  }

  /** Reference replacement gives back the location the plugin writes: the same line and
      column, and the file written, `<built-in>` standing for a missing one. File names are
      written unescaped, so this holds for names without `&` or `:`; the attribute's own
      parsing is added by `LocationAttributeReadBack`. */
  lemma LocationReadBack(file: Option<string>, line: int, column: int)
    requires file.Some? ==> '&' !in file.value && ':' !in file.value
    ensures XmlUnescape(LocationValue(file, line, column)).Some?
    ensures ParseLocation(XmlUnescape(LocationValue(file, line, column)).value)
      == Some(Location(ShownFile(file), line, column))
  {
    var shown := ShownFile(file);
    LocationUnescapes(file, line, column);
    assert ':' !in shown by {
      if file.None? || file == Some(BuiltInFile) {
        BuiltInFileHasNoColon();
      }
    }
    ThreeFieldLocation(shown, line, column);
  }

  /** The attribute as the parser reads it between its single quotes: for a file name that
      is also quotable (no quote, `<`, tab or line break), the location comes back whole. */
  lemma LocationAttributeReadBack(file: Option<string>, line: int, column: int)
    requires file.Some? ==> '&' !in file.value && ':' !in file.value && Quotable(file.value)
    ensures SingleQuotedValue(LocationValue(file, line, column)).Some?
    ensures ParseLocation(SingleQuotedValue(LocationValue(file, line, column)).value)
      == Some(Location(ShownFile(file), line, column))
  {
    var f := FilterBuiltIn(file);
    var p := Position(line, column);
    FilterBuiltInQuotable(file);
    PositionQuotable(line, column);
    QuotableAppend(f, p);
    QuotableValue(f + p);
    LocationReadBack(file, line, column);
  }

  lemma FilterBuiltInQuotable(file: Option<string>)
    requires file.Some? ==> Quotable(file.value)
    ensures Quotable(FilterBuiltIn(file))
  {
    if file.None? || file == Some(BuiltInFile) {
      var f := BuiltInText;
      assert forall i :: 0 <= i < |f| ==> f[i] in "&lt;built-in&gt;";
    }
  }

  lemma PositionQuotable(line: int, column: int)
    ensures Quotable(Position(line, column))
  {
    IntToStringQuotable(line);
    IntToStringQuotable(column);
    QuotableAppend(":", IntToString(line));
    QuotableAppend(":" + IntToString(line), ":");
    QuotableAppend(":" + IntToString(line) + ":", IntToString(column));
  }

  lemma IntToStringQuotable(n: int)
    ensures Quotable(IntToString(n))
  {
    var s := IntToString(n);
    if n < 0 {
      assert forall i :: 1 <= i < |s| ==> s[i] == NatToString(-n)[i - 1];
    }
  }

  lemma BuiltInFileHasNoColon()
    ensures ':' !in BuiltInFile
  {
    assert forall i :: 0 <= i < |BuiltInFile| ==> BuiltInFile[i] in "<built-in>";
  }

  /** The parser's view of the attribute: only the `<built-in>` references are replaced. */
  lemma LocationUnescapes(file: Option<string>, line: int, column: int)
    requires file.Some? ==> '&' !in file.value
    ensures XmlUnescape(LocationValue(file, line, column)) == Some(ShownFile(file) + Position(line, column))
  {
    var f := FilterBuiltIn(file);
    var rest := Position(line, column);
    NumbersUnescape(line, column);
    if file.Some? && file != Some(BuiltInFile) {
      XmlUnescapePlain(f);
    }
    XmlUnescapeAppend(f, rest);
  }

  /** `file:line:column` parses to its three parts, a zero column included. */
  lemma ThreeFieldLocation(file: string, line: int, column: int)
    requires ':' !in file
    ensures ParseLocation(file + Position(line, column)) == Some(Location(file, line, column))
  {
    var parts := [file, IntToString(line), IntToString(column)];
    assert parts[1..][1..] == [IntToString(column)];
    assert Join(parts[1..], [':']) == IntToString(line) + ":" + IntToString(column);
    assert file + Position(line, column) == Join(parts, [':']);
    SplitOfJoin(parts, ':');
    ParseIntOfIntToString(line);
    ParseIntOfIntToString(column);
  }

  lemma NumbersUnescape(line: int, column: int)
    ensures XmlUnescape(Position(line, column)) == Some(Position(line, column))
  {
    var rest := Position(line, column);
    assert rest == [':'] + IntToString(line) + [':'] + IntToString(column);
    IntTextHasNoAmpersand(line);
    IntTextHasNoAmpersand(column);
    assert '&' !in rest;
    XmlUnescapePlain(rest);
  }

  lemma IntTextHasNoAmpersand(i: int)
    ensures '&' !in IntToString(i)
  {
    var s := IntToString(i);
    forall k | 0 <= k < |s| ensures s[k] != '&' {
      assert s[k] == '-' || IsDigit(s[k]) by { IntToStringChars(i); }
    }
  }

  lemma IntToStringChars(i: int)
    ensures forall k :: 0 <= k < |IntToString(i)| ==> IntToString(i)[k] == '-' || IsDigit(IntToString(i)[k])
  {
    if i < 0 {
      assert IntToString(i) == "-" + NatToString(-i);
    } else {
      assert IntToString(i) == NatToString(i);
    }
  }

  // ---------------------------------------------------------------- qualifiers

  /** GCC's qualifier bits: `TYPE_QUAL_CONST`, `TYPE_QUAL_VOLATILE`, `TYPE_QUAL_RESTRICT`. */
  const QualConst: nat := 1
  const QualVolatile: nat := 2
  const QualRestrict: nat := 4

  predicate HasQual(quals: nat, bit: nat)
    requires bit > 0
  {
    (quals / bit) % 2 == 1
  }

  /** Position of a qualifier attribute in the fixed output order. */
  function QualRank(name: string): nat {
    if name == "constant" then 0 else if name == "volatile" then 1 else 2
  }

  /** `xml_type_quals`: one attribute with value `1` per qualifier bit that is set, in the
      order constant, volatile, restrict. */
  function TypeQuals(quals: nat): (attrs: seq<(string, string)>)
    ensures ("constant", "1") in attrs <==> HasQual(quals, QualConst)
    ensures ("volatile", "1") in attrs <==> HasQual(quals, QualVolatile)
    ensures ("restrict", "1") in attrs <==> HasQual(quals, QualRestrict)
    ensures forall i :: 0 <= i < |attrs| ==> attrs[i].1 == "1" && attrs[i].0 in {"constant", "volatile", "restrict"}
    ensures forall i, j :: 0 <= i < j < |attrs| ==> QualRank(attrs[i].0) < QualRank(attrs[j].0)
  {
    (if HasQual(quals, QualConst) then [("constant", "1")] else [])
    + (if HasQual(quals, QualVolatile) then [("volatile", "1")] else [])
    + (if HasQual(quals, QualRestrict) then [("restrict", "1")] else [])
  }

  /** The first value given for an attribute name, as an XML parser keeps it. */
  function Lookup(attrs: seq<(string, string)>, name: string): (r: Option<string>)
    ensures r.Some? <==> exists i :: 0 <= i < |attrs| && attrs[i].0 == name
    ensures r.Some? ==> (name, r.value) in attrs
  {
    if |attrs| == 0 then None
    else if attrs[0].0 == name then Some(attrs[0].1)
    else Lookup(attrs[1..], name)
  }

  /** The backend's reading of an integer type's `constant` attribute: absent or empty is
      false, otherwise its integer value must be non-zero (not an integer: ValueError). */
  function ConstantAttr(v: Option<string>): (r: Result<bool, Fault>)
    ensures v.None? ==> r == Ok(false)
    ensures v.Some? && |v.value| > 0 && ParseInt(v.value).Some? ==> r == Ok(ParseInt(v.value).value != 0)
  {
    if v.None? || |v.value| == 0 then Ok(false)
    else
      var n :- ParseInt(v.value).ToResult(ValueError);
      Ok(n != 0)
  }

  /** The backend reads constness back exactly when the const bit is set. */
  lemma QualsReadBack(quals: nat)
    ensures ConstantAttr(Lookup(TypeQuals(quals), "constant")) == Ok(HasQual(quals, QualConst))
  {
    var attrs := TypeQuals(quals);
    if HasQual(quals, QualConst) {
      assert attrs[0] == ("constant", "1");
      assert Lookup(attrs, "constant") == Some("1");
      assert AllDigits("1");
      assert DigitsValue("1") == 1;
    } else {
      assert Lookup(attrs, "constant").None?;
    }
  }

  // ---------------------------------------------------------------- type attributes

  /** What one entry of a type's attribute chain contributes: its identifier, or nothing for
      an entry that is not an identifier (reported on standard output instead). */
  function AttribName(a: Option<string>): string {
    if a.Some? then a.value else ""
  }

  function AttribNames(attribs: seq<Option<string>>): (names: seq<string>)
    ensures |names| == |attribs|
    ensures forall i :: 0 <= i < |attribs| ==> names[i] == AttribName(attribs[i])
  {
    seq(|attribs|, i requires 0 <= i < |attribs| => AttribName(attribs[i]))
  }

  /** The loop over the attribute chain: each entry, then a comma when another follows. */
  function AttribList(attribs: seq<Option<string>>): string
    decreases |attribs|
  {
    if |attribs| == 0 then ""
    else AttribName(attribs[0]) + (if |attribs| > 1 then "," else "") + AttribList(attribs[1..])
  }

  /** `xml_type_attribs`: the value of the `attributes` attribute, or None when it is not
      written at all (no attribute and no extra). `extra` (`noreturn`) comes first. */
  function TypeAttribs(attribs: seq<Option<string>>, extra: Option<string>): (r: Option<string>)
    ensures r.None? <==> |attribs| == 0 && extra.None?
  {
    if |attribs| == 0 && extra.None? then None
    else
      var head := if extra.Some? then extra.value + (if |attribs| > 0 then "," else "") else "";
      Some(head + AttribList(attribs))
  }

  lemma {:induction false} AttribListIsJoin(attribs: seq<Option<string>>)
    ensures AttribList(attribs) == Join(AttribNames(attribs), ",")
    decreases |attribs|
  {
    if |attribs| > 0 {
      AttribListIsJoin(attribs[1..]);
      assert AttribNames(attribs)[1..] == AttribNames(attribs[1..]);
      if |attribs| == 1 {
        assert AttribList(attribs[1..]) == "";
      }
    }
  }

  /** Splitting the written list at commas gives `extra` first and then one field per chain
      entry, in chain order, as long as no identifier contains a comma: a present item is
      never dropped and separators appear only between items. */
  lemma AttribsReadBack(attribs: seq<Option<string>>, extra: Option<string>)
    requires extra.Some? ==> ',' !in extra.value
    requires forall i :: 0 <= i < |attribs| ==> ',' !in AttribName(attribs[i])
    requires |attribs| > 0 || extra.Some?
    ensures Split(TypeAttribs(attribs, extra).value, ',')
      == (if extra.Some? then [extra.value] else []) + AttribNames(attribs)
  {
    var names := AttribNames(attribs);
    var parts := (if extra.Some? then [extra.value] else []) + names;
    AttribListIsJoin(attribs);
    assert forall k :: 0 <= k < |parts| ==> ',' !in parts[k] by {
      forall k | 0 <= k < |parts| ensures ',' !in parts[k] {
        if extra.Some? && k == 0 {
        } else {
          var j := if extra.Some? then k - 1 else k;
          assert parts[k] == names[j];
        }
      }
    }
    var v := TypeAttribs(attribs, extra).value;
    if extra.Some? && |attribs| > 0 {
      assert parts[1..] == names;
      assert v == extra.value + "," + Join(names, ",");
      assert v == Join(parts, ",");
    } else if extra.Some? {
      assert parts == [extra.value];
      assert v == extra.value + "" + "";
      assert v == Join(parts, ",");
    } else {
      assert parts == names;
      assert v == "" + Join(names, ",");
      assert v == Join(parts, ",");
    }
    SplitOfJoin(parts, ',');
  }

  // ---------------------------------------------------------------- declaration references

  /** `xml_decl_binding`: an empty element carrying the decl's uid; the name is written only
      for the `binding` tag (a declaration itself), so references carry the id alone. */
  function DeclBinding(tag: string, uid: int, name: Option<string>): (e: Element)
    ensures e.tag == tag && e.children == [] && e.text.None?
    ensures "name" in e.attrs <==> tag == "binding" && name.Some?
  {
    var attrs := map["id" := IntToString(uid)];
    Element(tag, if tag == "binding" && name.Some? then attrs["name" := name.value] else attrs, [], None)
  }

  /** The backend's `Binding.from_xml`: the id is the integer of `id` (missing: TypeError,
      not a number: ValueError), the name whatever `name` holds. */
  function BindingOf(e: Element): (r: Result<Binding, Fault>)
    ensures r.Ok? ==> Get(e, "id").Some? && ParseInt(Get(e, "id").value) == Some(r.value.id) && r.value.name == Get(e, "name")
    ensures Get(e, "id").None? ==> r == Err(TypeError)
  {
    var text :- Get(e, "id").ToResult(TypeError);
    var id :- ParseInt(text).ToResult(ValueError);
    Ok(Binding(id, Get(e, "name"), None))
  }

  /** A declaration's binding reads back with its uid and name; a reference reads back with
      its uid and no name. */
  lemma DeclBindingReadBack(tag: string, uid: int, name: Option<string>)
    ensures BindingOf(DeclBinding(tag, uid, name))
      == Ok(Binding(uid, if tag == "binding" then name else None, None))
  {
    ParseIntOfIntToString(uid);
  }

  // ---------------------------------------------------------------- tree codes and tags

  /** The tree codes `SIMPLE_TAGS` names. */
  datatype SimpleCode =
    | PlusExpr | MinusExpr | MultExpr | PointerPlusExpr
    | TruncDivExpr | CeilDivExpr | FloorDivExpr | RoundDivExpr | ExactDivExpr | RdivExpr
    | TruncModExpr | CeilModExpr | FloorModExpr | RoundModExpr
    | FloatExpr | FixTruncExpr | NegateExpr | AbsExpr
    | LshiftExpr | RshiftExpr | LrotateExpr | RrotateExpr
    | BitIorExpr | BitXorExpr | BitAndExpr | BitNotExpr
    | MinExpr | MaxExpr | UnorderedExpr | OrderedExpr
    | TruthAndifExpr | TruthOrifExpr | TruthAndExpr | TruthOrExpr | TruthXorExpr | TruthNotExpr
    | LtExpr | LeExpr | GtExpr | GeExpr | EqExpr | NeExpr | NopExpr | ConvertExpr

  /** The empty element written for a simple code. */
  function SimpleTag(c: SimpleCode): string {
    match c
    case PlusExpr => "plus"
    case MinusExpr => "minus"
    case MultExpr => "multiply"
    case PointerPlusExpr => "pointer-offset"
    case TruncDivExpr => "division-truncate"
    case CeilDivExpr => "division-ceil"
    case FloorDivExpr => "division-floor"
    case RoundDivExpr => "division-round"
    case ExactDivExpr => "division-exact"
    case RdivExpr => "division-real"
    case TruncModExpr => "modulo-truncate"
    case CeilModExpr => "modulo-ceil"
    case FloorModExpr => "modulo-floor"
    case RoundModExpr => "modulo-round"
    case FloatExpr => "float"
    case FixTruncExpr => "fixed-point-truncate"
    case NegateExpr => "negate"
    case AbsExpr => "absolute"
    case LshiftExpr => "shift-left"
    case RshiftExpr => "shift-right"
    case LrotateExpr => "rotate-left"
    case RrotateExpr => "rotate-right"
    case BitIorExpr => "bitwise-or"
    case BitXorExpr => "bitwise-xor"
    case BitAndExpr => "bitwise-and"
    case BitNotExpr => "bitwise-not"
    case MinExpr => "min"
    case MaxExpr => "max"
    case UnorderedExpr => "unordered"
    case OrderedExpr => "ordered"
    case TruthAndifExpr => "logical-short-and"
    case TruthOrifExpr => "logical-short-or"
    case TruthAndExpr => "logical-and"
    case TruthOrExpr => "logical-or"
    case TruthXorExpr => "logical-xor"
    case TruthNotExpr => "logical-not"
    case LtExpr => "less-than"
    case LeExpr => "less-than-or-equal"
    case GtExpr => "greater-than"
    case GeExpr => "greater-than-or-equal"
    case EqExpr => "equal"
    case NeExpr => "not-equal"
    case NopExpr => "nop-convert"
    case ConvertExpr => "convert"
  }

  /** The codes with no backend operator: real division and the two NaN comparisons. */
  predicate Unsupported(c: SimpleCode) {
    c == RdivExpr || c == UnorderedExpr || c == OrderedExpr
  }

  /** Every simple tag is a backend binary or unary operator, except the three unsupported
      codes, whose tags the backend turns into its placeholder reference. */
  lemma SimpleTagsDecode(c: SimpleCode)
    ensures Unsupported(c) <==> ExprKindOf(SimpleTag(c)) == Placeholder
    ensures !Unsupported(c) ==> ExprKindOf(SimpleTag(c)).Binary? || ExprKindOf(SimpleTag(c)).Unary?
  {
    if Unsupported(c) {
      UnsupportedTags(SimpleTag(c));
    } else {
      SupportedTags(c);
    }
  }

  lemma SupportedTags(c: SimpleCode)
    requires !Unsupported(c)
    ensures BinaryOperatorText(SimpleTag(c)).Some? || UnaryOperatorText(SimpleTag(c)).Some?
  {
    if c in UnaryCodes {
      UnaryCodeTags(c);
    } else {
      BinaryCodeTags(c);
    }
  }

  /** The simple codes the backend reads as unary operators. */
  const UnaryCodes: set<SimpleCode> :=
    {FloatExpr, FixTruncExpr, NegateExpr, AbsExpr, BitNotExpr, TruthNotExpr, NopExpr, ConvertExpr}

  lemma UnaryCodeTags(c: SimpleCode)
    requires c in UnaryCodes
    ensures UnaryOperatorText(SimpleTag(c)).Some?
  {
    match c {
      case FloatExpr => UnaryTags("float");
      case FixTruncExpr => UnaryTags("fixed-point-truncate");
      case NegateExpr => UnaryTags("negate");
      case AbsExpr => UnaryTags("absolute");
      case BitNotExpr => UnaryTags("bitwise-not");
      case TruthNotExpr => UnaryTags("logical-not");
      case NopExpr => UnaryTags("nop-convert");
      case ConvertExpr => UnaryTags("convert");
    }
  }

  lemma BinaryCodeTags(c: SimpleCode)
    requires c !in UnaryCodes && !Unsupported(c)
    ensures BinaryOperatorText(SimpleTag(c)).Some?
  {
    BinaryTags(SimpleTag(c));
  }

  /** Every key of the backend's binary operator table has an entry. */
  lemma BinaryTags(t: string)
    requires t == "plus" || t == "minus" || t == "multiply" || t == "pointer-offset" ||
         t == "division-truncate" || t == "division-ceil" || t == "division-floor" ||
         t == "division-round" || t == "division-exact" || t == "modulo-truncate" ||
         t == "modulo-ceil" || t == "modulo-floor" || t == "modulo-round" || t == "shift-left" ||
         t == "shift-right" || t == "rotate-left" || t == "rotate-right" || t == "bitwise-or" ||
         t == "bitwise-xor" || t == "bitwise-and" || t == "logical-short-and" ||
         t == "logical-short-or" || t == "logical-and" || t == "logical-or" ||
         t == "logical-xor" || t == "less-than" || t == "less-than-or-equal" ||
         t == "greater-than" || t == "greater-than-or-equal" || t == "equal" ||
         t == "not-equal" || t == "min" || t == "max"
    ensures BinaryOperatorText(t).Some?
  {
  }

  /** Every key of the backend's unary operator table has an entry. */
  lemma UnaryTags(t: string)
    requires t == "float" || t == "fixed-point-truncate" || t == "negate" || t == "absolute" ||
         t == "bitwise-not" || t == "logical-not" || t == "nop-convert" ||
         t == "exception-pointer" || t == "convert" || t == "address-of"
    ensures UnaryOperatorText(t).Some?
  {
  }

  lemma UnsupportedTags(t: string)
    requires t == "division-real" || t == "unordered" || t == "ordered"
    ensures !IsLvalueTag(t) && BinaryOperatorText(t).None? && UnaryOperatorText(t).None?
    ensures t !in {"constant", "addr-of", "void", "function"}
  {
  }

  /** The expression tree codes `xml_expr` distinguishes; `OtherCode` stands for all the rest. */
  datatype ExprCode =
    | RealCst | StringCst | IntegerCst
    | ComponentRef | BitFieldRef | IndirectRef
    | ResultDecl | VarDecl | ParmDecl
    | AddrExpr | FunctionDecl | Simple(code: SimpleCode)
    | ArrayRef | Constructor | ReferenceType | OtherCode

  /** What the plugin does with a tree code: write an element with this tag, skip it with a
      warning, or abort. */
  datatype Emitted = Written(tag: string) | Skipped | Aborted

  /** The outer tag `xml_expr` writes for an expression of the given code. */
  function ExprTag(code: ExprCode): (r: Emitted)
    ensures r == Skipped <==> code == ReferenceType
    ensures r == Aborted <==> code == OtherCode
  {
    match code
    case RealCst => Written("constant")
    case StringCst => Written("constant")
    case IntegerCst => Written("constant")
    case ComponentRef => Written("member-ref")
    case BitFieldRef => Written("bitfield-ref")
    case IndirectRef => Written("indirection")
    case ResultDecl => Written("result")
    case VarDecl => Written("bound")
    case ParmDecl => Written("bound-parameter")
    case AddrExpr => Written("addr-of")
    case FunctionDecl => Written("function")
    case Simple(c) => Written(SimpleTag(c))
    case ArrayRef => Written("item-ref")
    case Constructor => Written("constructor")
    case ReferenceType => Skipped
    case OtherCode => Aborted
  }

  /** The decl references are lvalue tags of the backend: a result decl reads back as the
      function's result, a variable or parameter as a bound reference. */
  lemma DeclRefTagsAreLvalues()
    ensures ExprKindOf(ExprTag(ResultDecl).tag) == Lvalue(ResultKind)
    ensures ExprKindOf(ExprTag(VarDecl).tag) == Lvalue(BoundKind)
    ensures ExprKindOf(ExprTag(ParmDecl).tag) == Lvalue(BoundKind)
  {
  }

  /** How the backend reads every tag `xml_expr` writes: constants are converted, references
      become lvalues, `addr-of` and `function` keep their meaning, operators become operators,
      and exactly the bit-field references, constructors and the three unsupported operators
      fall back to the placeholder. */
  lemma ExprTagsDecode(code: ExprCode)
    requires ExprTag(code).Written?
    ensures code in {RealCst, StringCst, IntegerCst} <==> ExprKindOf(ExprTag(code).tag) == ConstantKind
    ensures code in {ComponentRef, IndirectRef, ResultDecl, VarDecl, ParmDecl, ArrayRef}
      <==> ExprKindOf(ExprTag(code).tag).Lvalue?
    ensures code == AddrExpr <==> ExprKindOf(ExprTag(code).tag) == AddrOfKind
    ensures code == FunctionDecl <==> ExprKindOf(ExprTag(code).tag) == DescendKind
    ensures ExprKindOf(ExprTag(code).tag) == Placeholder
      <==> code == BitFieldRef || code == Constructor || (code.Simple? && Unsupported(code.code))
  {
    if code.Simple? {
      SimpleTagsDecode(code.code);
    } else {
      ReferenceTagsDecode();
      OtherTagsDecode();
      PlaceholderTagsDecode("bitfield-ref");
      PlaceholderTagsDecode("constructor");
    }
  }

  /** The reference tags `xml_expr` writes decode as the matching lvalues. */
  lemma ReferenceTagsDecode()
    ensures ExprKindOf("member-ref") == Lvalue(MemberRefKind)
    ensures ExprKindOf("indirection") == Lvalue(IndirectKind)
    ensures ExprKindOf("item-ref") == Lvalue(ItemRefKind)
    ensures ExprKindOf("result") == Lvalue(ResultKind)
    ensures ExprKindOf("bound") == Lvalue(BoundKind)
    ensures ExprKindOf("bound-parameter") == Lvalue(BoundKind)
  {
  }

  /** `constant`, `addr-of` and `function` keep their meaning in the backend. */
  lemma OtherTagsDecode()
    ensures ExprKindOf("constant") == ConstantKind
    ensures ExprKindOf("addr-of") == AddrOfKind
    ensures ExprKindOf("function") == DescendKind
  {
    AddrOfTagDecodes("addr-of");
    FunctionTagDecodes("function");
  }

  lemma AddrOfTagDecodes(t: string)
    requires t == "addr-of"
    ensures ExprKindOf(t) == AddrOfKind
  {
  }

  lemma FunctionTagDecodes(t: string)
    requires t == "function"
    ensures ExprKindOf(t) == DescendKind
  {
  }

  /** Bit-field references and constructors have no meaning in the backend. */
  lemma PlaceholderTagsDecode(t: string)
    requires t == "bitfield-ref" || t == "constructor"
    ensures ExprKindOf(t) == Placeholder
  {
  }

  /** `xml_expr_code`: the operator tag of an assignment's right-hand side; a constructor is
      written `constructed`, any other non-simple code aborts. */
  function ExprCodeTag(code: ExprCode): (r: Emitted)
    ensures r.Written? <==> code.Simple? || code == Constructor
    ensures code.Simple? ==> r == ExprTag(code)
    ensures !r.Written? ==> r == Aborted
  {
    match code
    case Simple(c) => Written(SimpleTag(c))
    case Constructor => Written("constructed")
    case _ => Aborted
  }

  /** The type tree codes `xml_type` distinguishes; `OtherType` stands for all the rest. */
  datatype TypeCode =
    | PointerType | RealType | IntegerType | VoidType | BooleanType | ResultDeclType
    | EnumeralType | MethodType | FunctionType | ReferenceTypeCode
    | UnionType | RecordType | ArrayType | OtherType

  /** The tag `xml_type` writes (aggregates through `xml_type_ref`, as references). */
  function TypeTag(code: TypeCode): (r: Emitted)
    ensures r == Skipped <==> code == ReferenceTypeCode
    ensures r == Aborted <==> code == OtherType
  {
    match code
    case PointerType => Written("addr-of")
    case RealType => Written("float")
    case IntegerType => Written("integer")
    case VoidType => Written("void")
    case BooleanType => Written("boolean")
    case ResultDeclType => Written("result")
    case EnumeralType => Written("enum")
    case MethodType => Written("function")
    case FunctionType => Written("function")
    case ReferenceTypeCode => Skipped
    case UnionType => Written("union")
    case RecordType => Written("structure")
    case ArrayType => Written("array")
    case OtherType => Aborted
  }

  /** Every written type tag is one the backend decodes, except `result`, which its type
      decoder rejects; aggregates are read as references to be resolved later. */
  lemma TypeTagsDecode(code: TypeCode)
    requires TypeTag(code).Written?
    ensures TypeClassOf(TypeTag(code).tag).Ok? <==> code != ResultDeclType
    ensures code in {UnionType, RecordType, ArrayType} <==> TypeClassOf(TypeTag(code).tag) == Ok(AggregateRefClass)
  {
  }

  // ---------------------------------------------------------------- varargs

  /** A prototype whose argument list does not end in `void` takes variable arguments; an
      unprototyped function (no list) does not. */
  predicate IsVarargs(args: seq<TypeCode>) {
    |args| > 0 && args[|args| - 1] != VoidType
  }

  /** The varargs test of `xml_type`: walk the argument chain to its last entry, then look at
      that entry's code. */
  method VarargsMark(args: seq<TypeCode>) returns (varargs: bool)
    ensures varargs <==> IsVarargs(args)
  {
    if |args| == 0 {
      return false;
    }
    var a := 0;
    while a + 1 < |args|
      invariant 0 <= a < |args|
      decreases |args| - a
    {
      a := a + 1;
    }
    varargs := args[a] != VoidType;
  }

  // ---------------------------------------------------------------- string literals

  /** `ISPRINT`: printable ASCII. */
  predicate IsPrint(n: int) {
    0x20 <= n <= 0x7E
  }

  /** What one byte of a string literal is written as. */
  function EscapeByte(b: byte): (s: string)
    ensures |s| >= 1
    ensures forall i :: 0 <= i < |s| ==> IsPrint(s[i] as int) && s[i] != '<' && s[i] != '>'
  {
    if b == 0x5C then "\\\\"
    else if b == 0x26 then "&amp;"
    else if b == 0x3C then "&lt;"
    else if b == 0x3E then "&gt;"
    else if IsPrint(b) then [b as char]
    else "\\x" + Hex2(b)
  }

  /** `xml_short_constant` for a string: every byte escaped in turn. The result is printable
      ASCII with no raw `<` or `>`, and every `&` in it starts a reference. */
  function EscapeStringLiteral(bs: seq<byte>): (s: string)
    ensures |s| >= |bs|
    ensures forall i :: 0 <= i < |s| ==> IsPrint(s[i] as int) && s[i] != '<' && s[i] != '>'
    decreases |bs|
  {
    if |bs| == 0 then ""
    else EscapeByte(bs[0]) + EscapeStringLiteral(bs[1..])
  }

  /** One escaped byte parses to escaped text that decodes back to the byte. */
  lemma EscapeByteDecodes(b: byte)
    ensures XmlUnescape(EscapeByte(b)).Some?
    ensures Complete(XmlUnescape(EscapeByte(b)).value)
    ensures StringEscapeDecode(XmlUnescape(EscapeByte(b)).value) == Some([b])
  {
    var s := EscapeByte(b);
    if b == 0x5C {
      XmlUnescapePlain(s);
      assert s[0] == '\\' && s[1] == '\\' && |s| == 2;
      assert EscapeHead(s) == Some(([0x5C], 2));
      assert StringEscapeDecode(s[2..]) == Some([]);
      assert [0x5C] + [] == [b];
      assert StringEscapeDecode(s) == Some([b]);
      assert Complete(s[2..]);
      assert Complete(s);
    } else if b == 0x26 {
      EntityUnescapes(s, '&');
      PlainCharDecodes('&');
    } else if b == 0x3C {
      EntityUnescapes(s, '<');
      PlainCharDecodes('<');
    } else if b == 0x3E {
      EntityUnescapes(s, '>');
      PlainCharDecodes('>');
    } else if IsPrint(b) {
      XmlUnescapePlain(s);
      PlainCharDecodes(b as char);
    } else {
      HexTextHasNoAmpersand(b);
      XmlUnescapePlain(s);
      HexEscapeDecodes(b, "");
      assert s + "" == s;
      assert StringEscapeDecode("") == Some([]);
      assert [b] + [] == [b];
      assert s[1] == 'x' && |s| == 4;
      assert Complete(s[4..]);
    }
  }

  /** An ASCII character other than the backslash decodes to itself. */
  lemma PlainCharDecodes(c: char)
    requires c as int < 128 && c != '\\'
    ensures Complete([c])
    ensures StringEscapeDecode([c]) == Some([c as int])
  {
    var s := [c];
    assert EscapeHead(s) == Some(([c as int], 1));
    assert s[1..] == "";
    assert StringEscapeDecode(s[1..]) == Some([]);
    assert [c as int] + [] == [c as int];
    assert Complete(s[1..]);
  }

  lemma HexTextHasNoAmpersand(b: byte)
    ensures '&' !in "\\x" + Hex2(b)
  {
    var s := "\\x" + Hex2(b);
    assert s[2] == HexDigit(b / 16) && s[3] == HexDigit(b % 16);
  }

  /** The escaped literal, once the XML parser has replaced its references, decodes with
      `string-escape` to exactly the literal's bytes. */
  lemma {:induction false} StringLiteralReadBack(bs: seq<byte>)
    ensures XmlUnescape(EscapeStringLiteral(bs)).Some?
    ensures Complete(XmlUnescape(EscapeStringLiteral(bs)).value)
    ensures StringEscapeDecode(XmlUnescape(EscapeStringLiteral(bs)).value) == Some(bs)
    decreases |bs|
  {
    if |bs| == 0 {
    } else {
      var head := EscapeByte(bs[0]);
      var tail := EscapeStringLiteral(bs[1..]);
      EscapeByteDecodes(bs[0]);
      StringLiteralReadBack(bs[1..]);
      XmlUnescapeAppend(head, tail);
      var h := XmlUnescape(head).value;
      var t := XmlUnescape(tail).value;
      StringEscapeAppend(h, t);
      CompleteAppend(h, t);
      assert [bs[0]] + bs[1..] == bs;
    }
  }
}
