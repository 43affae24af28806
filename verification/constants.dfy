/** Literal constants: strings (the bytes of a C string literal, typed by its array type),
    integers and floats, with their types, values and C renderings, and `convert`, which
    picks the kind from a decoded `constant` element. */
module Constants {
  import opened Wrappers
  import opened Text
  import opened Misc
  import opened Types
  import opened Decoding
  import opened Tree
  import opened Decimals

  /** A float holds the `Decimal` its text reads as. */
  datatype Constant =
    | CString(ty: Type, bytes: seq<byte>)
    | CInteger(ty: Type, number: int)
    | CFloat(ty: Type, decimal: Decimal)

  /** What `get_value` hands back. */
  datatype ConstValue = VBytes(bytes: seq<byte>) | VInt(i: int) | VDecimal(decimal: Decimal)

  /** `get_type`. A string constant is used through a pointer to its array's elements, and
      only an array can be decomposed that way (a structure raises AttributeError). */
  function ConstantType(c: Constant): (r: Result<Type, Fault>)
    ensures !c.CString? ==> r == Ok(c.ty)
    ensures c.CString? ==> (r.Ok? <==> c.ty.Array?)
    ensures c.CString? && r.Ok? ==> r.value == Pointer(0, None, c.ty.elem)
  {
    if c.CString? then DecomposeToPointer(c.ty) else Ok(c.ty)
  }

  /** `get_value`: the stored value. */
  function ConstantValue(c: Constant): (v: ConstValue)
    ensures c.CString? <==> v.VBytes?
    ensures c.CString? ==> v.bytes == c.bytes
    ensures c.CInteger? ==> v == VInt(c.number)
  {
    match c
    case CString(_, bs) => VBytes(bs)
    case CInteger(_, i) => VInt(i)
    case CFloat(_, d) => VDecimal(d)
  }

  /** `to_c`: a string constant renders as Python's `repr` of its bytes; the others hand back
      their value itself, a number and not text. */
  function ConstantToC(c: Constant): (r: Rendered)
    ensures c.CString? <==> r.Text?
    ensures c.CString? ==> r.s == PyRepr(c.bytes)
    ensures c.CInteger? ==> r == Num(c.number) && ParseInt(Format(r)) == Some(c.number)
    ensures c.CFloat? ==> (Truthy(r) <==> !c.decimal.Finite? || c.decimal.coefficient != "0")
    ensures c.CFloat? && Canonical(c.decimal) ==> ParseDecimal(Format(r)) == Some(c.decimal)
  {
    match c
    case CString(_, bs) => Text(PyRepr(bs))
    case CInteger(_, i) => Num(i)
    case CFloat(_, d) => Dec(d)
  }

  // ---------------------------------------------------------------- repr reads back

  /** One escaped byte of `repr` is a whole escape that decodes to the byte. */
  lemma ReprByteDecodes(b: byte, q: byte)
    requires q == 0x27 || q == 0x22
    ensures Complete(EscapeReprByte(b, q))
    ensures StringEscapeDecode(EscapeReprByte(b, q)) == Some([b])
  {
    var s := EscapeReprByte(b, q);
    if b == q || b == 0x5c {
      assert s == ['\\', b as char];
      assert s[2..] == "";
      assert EscapeHead(s) == Some(([b], 2));
      DecodeStep(s);
      assert [b] + [] == [b];
    } else if b == 0x09 || b == 0x0a || b == 0x0d {
      assert s[2..] == "";
      assert EscapeHead(s) == Some(([b], 2));
      DecodeStep(s);
      assert [b] + [] == [b];
    } else if b < 0x20 || b >= 0x7f {
      HexEscapeDecodes(b, "");
      assert s == "\\x" + Hex2(b) + "";
      assert [b] + [] == [b];
      assert s[4..] == "";
    } else {
      assert s == [b as char];
      assert s[1..] == "";
      assert EscapeHead(s) == Some(([b], 1));
      DecodeStep(s);
      assert [b] + [] == [b];
    }
  }

  /** The text between the quotes of `repr(bs)`, decoded with `string-escape`, is `bs`:
      the C rendering of a string constant keeps every byte recoverable. */
  lemma {:induction false} ReprDecodes(bs: seq<byte>, q: byte)
    requires q == 0x27 || q == 0x22
    ensures Complete(EscapeRepr(bs, q))
    ensures StringEscapeDecode(EscapeRepr(bs, q)) == Some(bs)
    decreases |bs|
  {
    if |bs| > 0 {
      ReprByteDecodes(bs[0], q);
      ReprDecodes(bs[1..], q);
      CompleteAppend(EscapeReprByte(bs[0], q), EscapeRepr(bs[1..], q));
      StringEscapeAppend(EscapeReprByte(bs[0], q), EscapeRepr(bs[1..], q));
      assert [bs[0]] + bs[1..] == bs;
    }
  }

  /** The rendering of a string constant is a quoted literal whose contents decode back to
      the constant's bytes. */
  lemma StringConstantRendering(ty: Type, bs: seq<byte>)
    ensures var s := ConstantToC(CString(ty, bs)).s;
      |s| >= 2 && StringEscapeDecode(s[1..|s| - 1]) == Some(bs)
  {
    var s := ConstantToC(CString(ty, bs)).s;
    ReprDecodes(bs, ReprQuote(bs));
    assert s[1..|s| - 1] == EscapeRepr(bs, ReprQuote(bs));
  }

  // ---------------------------------------------------------------- convert

  /** The literal kinds `convert` knows, by value tag. */
  datatype LiteralKind = StringLiteral | IntegerLiteral | FloatLiteral

  function LiteralKindOf(tag: string): (r: Option<LiteralKind>)
    ensures r.Some? <==> tag in {"string-literal", "integer-literal", "float-literal"}
    ensures r == Some(StringLiteral) <==> tag == "string-literal"
    ensures r == Some(IntegerLiteral) <==> tag == "integer-literal"
  {
    match tag
    case "string-literal" => Some(StringLiteral)
    case "integer-literal" => Some(IntegerLiteral)
    case "float-literal" => Some(FloatLiteral)
    case _ => None
  }

  /** The text `convert` reads a float from: the `special` attribute when it is present and
      non-empty, else the `value` attribute (missing: TypeError). */
  function FloatText(value: Element): (r: Result<string, Fault>)
    ensures r.Err? ==> r.error == TypeError && Get(value, "value").None?
    ensures Get(value, "special").Some? && |Get(value, "special").value| > 0 ==> r == Ok(Get(value, "special").value)
  {
    var special := Get(value, "special");
    if special.Some? && |special.value| > 0 then Ok(special.value)
    else Get(value, "value").ToResult(TypeError)
  }

  /** `convert(t)`: `t` must be a `constant` element (AssertionError); it must have exactly two
      children, the type and the value, or the unpacking raises ValueError; the value's tag
      must be a literal kind (AssertionError). The type is decoded first — an aggregate
      (array) for strings, a scalar type otherwise — then the value: a string's text through
      `string-escape` (no text: AttributeError; bad escape: ValueError), an integer from its
      `value` attribute (missing: TypeError; not a number: ValueError), a float as `Decimal`
      of its `FloatText` (not a number: InvalidOperation).
      The two type decoders are parameters: their bodies are element-tree decoding. */
  function Convert(t: Element, decodeType: Element -> Result<Type, Fault>, decodeAggregate: Element -> Result<Type, Fault>): (r: Result<Constant, Fault>)
    ensures t.tag != "constant" ==> r == Err(AssertionError)
    ensures t.tag == "constant" && |t.children| != 2 ==> r == Err(ValueError)
    ensures t.tag == "constant" && |t.children| == 2 && LiteralKindOf(t.children[1].tag).None? ==> r == Err(AssertionError)
    ensures r.Ok? ==> t.tag == "constant" && |t.children| == 2 && LiteralKindOf(t.children[1].tag).Some?
    ensures r.Ok? ==> (r.value.CString? <==> t.children[1].tag == "string-literal")
    ensures r.Ok? ==> (r.value.CInteger? <==> t.children[1].tag == "integer-literal")
    ensures r.Ok? && r.value.CString? ==>
      (Ok(r.value.ty) == decodeAggregate(t.children[0]) && t.children[1].text.Some?
       && StringEscapeDecode(t.children[1].text.value) == Some(r.value.bytes))
    ensures r.Ok? && r.value.CInteger? ==>
      (Ok(r.value.ty) == decodeType(t.children[0]) && Get(t.children[1], "value").Some?
       && ParseInt(Get(t.children[1], "value").value) == Some(r.value.number))
    ensures r.Ok? && r.value.CFloat? ==>
      (Ok(r.value.ty) == decodeType(t.children[0]) && FloatText(t.children[1]).Ok?
       && ParseDecimal(FloatText(t.children[1]).value) == Some(r.value.decimal)
       && Canonical(r.value.decimal))
    ensures (t.tag == "constant" && |t.children| == 2 && t.children[1].tag == "float-literal"
             && decodeType(t.children[0]).Ok? && FloatText(t.children[1]).Ok?) ==>
      r == (if ParseDecimal(FloatText(t.children[1]).value).None? then Err(InvalidOperation)
            else Ok(CFloat(decodeType(t.children[0]).value, ParseDecimal(FloatText(t.children[1]).value).value)))
  {
    if t.tag != "constant" then Err(AssertionError)
    else if |t.children| != 2 then Err(ValueError)
    else
      var ty := t.children[0];
      var value := t.children[1];
      match LiteralKindOf(value.tag)
      case None => Err(AssertionError)
      case Some(StringLiteral) =>
        var a :- decodeAggregate(ty);
        if value.text.None? then Err(AttributeError)
        else
          var bs :- StringEscapeDecode(value.text.value).ToResult(ValueError);
          Ok(CString(a, bs))
      case Some(IntegerLiteral) =>
        var s :- decodeType(ty);
        var text :- Get(value, "value").ToResult(TypeError);
        var i :- ParseInt(text).ToResult(ValueError);
        Ok(CInteger(s, i))
      case Some(FloatLiteral) =>
        var s :- decodeType(ty);
        var text :- FloatText(value);
        var d :- ParseDecimal(text).ToResult(InvalidOperation);
        Ok(CFloat(s, d))
  }
}
