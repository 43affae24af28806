/** The two halves together: what the plugin writes, once parsed, is what the backend's
    decoders accept, and the values they recover are the ones the compiler held. Each lemma
    starts from the plugin's output for one construct and ends at the backend's model of it. */
module Pipeline {
  import opened Wrappers
  import opened Text
  import opened Misc
  import opened Tree
  import opened Constants
  import opened Statements
  import opened Blocks
  import opened PluginTree
  import opened PluginGimple
  import opened PluginOutput
  import opened Decoding
  import Decimals

  // ---------------------------------------------------------------- constants

  /** `xml_expr` on a string constant, as parsed: the array type, then a `string-literal`
      whose text is the escaped bytes (GCC's length counts the terminating NUL). */
  function StringConstantElement(ty: Element, bs: seq<byte>): Element {
    Element("constant", map[], [ty, Element("string-literal", map[], [], ParsedText(EscapeStringLiteral(bs)))], None)
  }

  /** A string constant converts to exactly its bytes under the array type. The parser hands
      back no text at all for an empty literal, which `convert` refuses; a C string literal
      always holds at least its NUL, so that case does not arise from a real compilation. */
  lemma StringConstantConverts(ty: Element, bs: seq<byte>, decodeType: Element -> Result<Types.Type, Fault>,
                               decodeAggregate: Element -> Result<Types.Type, Fault>)
    ensures decodeAggregate(ty).Err? ==>
      Convert(StringConstantElement(ty, bs), decodeType, decodeAggregate) == Err(decodeAggregate(ty).error)
    ensures decodeAggregate(ty).Ok? && |bs| > 0 ==>
      Convert(StringConstantElement(ty, bs), decodeType, decodeAggregate) == Ok(CString(decodeAggregate(ty).value, bs))
    ensures decodeAggregate(ty).Ok? && |bs| == 0 ==>
      Convert(StringConstantElement(ty, bs), decodeType, decodeAggregate) == Err(AttributeError)
  {
    var e := EscapeStringLiteral(bs);
    StringLiteralReadBack(bs);
    assert AllXmlChars(e) && '\r' !in e && '<' !in e;
    CharDataWithoutReturns(e);
    assert |bs| > 0 ==> EscapeStringLiteral(bs) != "";
    assert |bs| == 0 ==> EscapeStringLiteral(bs) == "";
  }

  const LongRange: int := 0x1_0000_0000_0000_0000

  /** `double_int_to_ll`: the constant's value taken modulo 2^64 into the range of a signed
      64-bit integer. */
  function LongLong(v: int): (w: int)
    ensures -LongRange / 2 <= w < LongRange / 2
    ensures (v - w) % LongRange == 0
    ensures -LongRange / 2 <= v < LongRange / 2 ==> w == v
  {
    var m := v % LongRange;
    if m >= LongRange / 2 then m - LongRange else m
  }

  /** `xml_expr` on an integer constant, as parsed: its type, then an `integer-literal` with
      the value in decimal. */
  function IntegerConstantElement(ty: Element, v: int): Element {
    Element("constant", map[], [ty, Element("integer-literal", map["value" := IntToString(LongLong(v))], [], None)], None)
  }

  /** An integer constant converts to its value as a signed 64-bit number: exact for every
      value of a type up to `long long`, wrapped for an unsigned 64-bit value above 2^63 - 1. */
  lemma IntegerConstantConverts(ty: Element, v: int, decodeType: Element -> Result<Types.Type, Fault>,
                                decodeAggregate: Element -> Result<Types.Type, Fault>)
    ensures decodeType(ty).Err? ==>
      Convert(IntegerConstantElement(ty, v), decodeType, decodeAggregate) == Err(decodeType(ty).error)
    ensures decodeType(ty).Ok? ==>
      Convert(IntegerConstantElement(ty, v), decodeType, decodeAggregate) == Ok(CInteger(decodeType(ty).value, LongLong(v)))
    ensures decodeType(ty).Ok? && -LongRange / 2 <= v < LongRange / 2 ==>
      ConstantValue(Convert(IntegerConstantElement(ty, v), decodeType, decodeAggregate).value) == VInt(v)
  {
    ParseIntOfIntToString(LongLong(v));
  }

  /** The largest `unsigned long long` reaches the backend as -1. */
  lemma UnsignedMaxReadsAsMinusOne(ty: Element, decodeType: Element -> Result<Types.Type, Fault>,
                                   decodeAggregate: Element -> Result<Types.Type, Fault>)
    requires decodeType(ty).Ok?
    ensures Convert(IntegerConstantElement(ty, LongRange - 1), decodeType, decodeAggregate)
         == Ok(CInteger(decodeType(ty).value, -1))
  {
    IntegerConstantConverts(ty, LongRange - 1, decodeType, decodeAggregate);
  }

  /** A `REAL_CST` as `xml_short_constant` sees it: an infinity, a NaN, or a finite value in
      the decimal form `real_to_decimal` gives (not modelled further). */
  datatype Real = Infinite(negative: bool) | NotANumber | Finite(decimal: string)

  function SpecialName(r: Real): string
    requires !r.Finite?
  {
    if r.NotANumber? then "NaN" else if r.negative then "-Infinity" else "+Infinity"
  }

  function FloatConstantElement(ty: Element, r: Real): Element {
    var attrs := if r.Finite? then map["value" := r.decimal] else map["special" := SpecialName(r)];
    Element("constant", map[], [ty, Element("float-literal", attrs, [], None)], None)
  }

  /** What `Decimal` makes of a special name: the infinity of that sign, or a quiet NaN. */
  function SpecialValue(r: Real): (d: Decimals.Decimal)
    requires !r.Finite?
    ensures Decimals.ParseDecimal(SpecialName(r)) == Some(d)
  {
    Decimals.SpecialNames("+Infinity", "-Infinity", "NaN");
    if r.NotANumber? then Decimals.NaN(false, false, "") else Decimals.Infinity(r.negative)
  }

  /** A float constant converts, with the decoded type, to the `Decimal` its text reads as: a
      special name to the value it names, a finite value's decimal text to what `Decimal`
      reads from it, or InvalidOperation when that text is not a number. */
  lemma FloatConstantConverts(ty: Element, r: Real, decodeType: Element -> Result<Types.Type, Fault>,
                              decodeAggregate: Element -> Result<Types.Type, Fault>)
    requires decodeType(ty).Ok?
    ensures var c := Convert(FloatConstantElement(ty, r), decodeType, decodeAggregate);
      if r.Finite? && Decimals.ParseDecimal(r.decimal).None? then c == Err(InvalidOperation)
      else
        c.Ok? && c.value.CFloat? && c.value.ty == decodeType(ty).value
        && c.value.decimal == (if r.Finite? then Decimals.ParseDecimal(r.decimal).value else SpecialValue(r))
  {
    var t := FloatConstantElement(ty, r);
    FloatLiteralText(r, t.children[1]);
    FloatElementConverts(t, r, decodeType, decodeAggregate);
  }

  lemma FloatElementConverts(t: Element, r: Real, decodeType: Element -> Result<Types.Type, Fault>,
                             decodeAggregate: Element -> Result<Types.Type, Fault>)
    requires t.tag == "constant" && |t.children| == 2 && t.children[1].tag == "float-literal"
    requires decodeType(t.children[0]).Ok?
    requires FloatText(t.children[1]) == Ok(if r.Finite? then r.decimal else SpecialName(r))
    ensures var c := Convert(t, decodeType, decodeAggregate);
      if r.Finite? && Decimals.ParseDecimal(r.decimal).None? then c == Err(InvalidOperation)
      else
        c.Ok? && c.value.CFloat? && c.value.ty == decodeType(t.children[0]).value
        && c.value.decimal == (if r.Finite? then Decimals.ParseDecimal(r.decimal).value else SpecialValue(r))
  {
    var text := if r.Finite? then r.decimal else SpecialName(r);
    var d := Decimals.ParseDecimal(text);
    if !r.Finite? {
      assert d == Some(SpecialValue(r));
    }
    FloatTextConverts(t, text, decodeType, decodeAggregate);
  }

  lemma FloatTextConverts(t: Element, text: string, decodeType: Element -> Result<Types.Type, Fault>,
                          decodeAggregate: Element -> Result<Types.Type, Fault>)
    requires t.tag == "constant" && |t.children| == 2 && t.children[1].tag == "float-literal"
    requires decodeType(t.children[0]).Ok? && FloatText(t.children[1]) == Ok(text)
    ensures Convert(t, decodeType, decodeAggregate)
         == (match Decimals.ParseDecimal(text)
             case None => Err(InvalidOperation)
             case Some(d) => Ok(CFloat(decodeType(t.children[0]).value, d)))
  {
  }

  /** The special values are true, and print as `str` writes them: `NaN`, `-Infinity`, and
      `Infinity` without the `+` the plugin wrote. */
  lemma SpecialConstantRenders(ty: Element, r: Real, decodeType: Element -> Result<Types.Type, Fault>,
                               decodeAggregate: Element -> Result<Types.Type, Fault>)
    requires decodeType(ty).Ok? && !r.Finite?
    ensures var c := Convert(FloatConstantElement(ty, r), decodeType, decodeAggregate);
      c.Ok? && Truthy(ConstantToC(c.value))
      && Format(ConstantToC(c.value)) == (if r == Infinite(false) then "Infinity" else SpecialName(r))
  {
    FloatConstantConverts(ty, r, decodeType, decodeAggregate);
    Decimals.SpecialNames("+Infinity", "-Infinity", "NaN");
  }

  /** The text `convert` takes from the literal element: the special name when there is one,
      else the decimal value. */
  lemma FloatLiteralText(r: Real, v: Element)
    requires v == Element("float-literal", if r.Finite? then map["value" := r.decimal] else map["special" := SpecialName(r)], [], None)
    ensures FloatText(v) == Ok(if r.Finite? then r.decimal else SpecialName(r))
  {
    if r.Finite? {
      assert "special" !in v.attrs;
    }
  }

  // ---------------------------------------------------------------- blocks

  /** Every `next` child of a written block has an id the backend reads as a number. */
  lemma BlockNextsParse(id: int, ss: seq<Located>, succs: seq<Edge>, decode: Element -> Result<Option<Statement>, Fault>)
    requires BlockElement(id, ss, succs).Some?
    ensures var e := BlockElement(id, ss, succs).value;
      forall i :: 0 <= i < |e.children| ==> ChildOf(e.children[i], decode).NextChild? || e.children[i].tag != "next"
  {
    var e := BlockElement(id, ss, succs).value;
    var kept := NextEdges(LastStatement(ss), succs);
    var stmts := WrittenStatements(ss).value;
    var nexts := NextElements(kept);
    assert e.children == stmts + nexts;
    NextElementsParse(kept, decode);
    ChildrenAfter(stmts, nexts, x => ChildOf(x, decode).NextChild?);
  }

  /** When no element of `a` is tagged `next` and every element of `b` has property `p`, every
      element of `a + b` tagged `next` has it. */
  lemma ChildrenAfter(a: seq<Element>, b: seq<Element>, p: Element -> bool)
    requires forall i :: 0 <= i < |a| ==> a[i].tag != "next"
    requires forall k :: 0 <= k < |b| ==> p(b[k])
    ensures forall i :: 0 <= i < |a + b| ==> p((a + b)[i]) || (a + b)[i].tag != "next"
  {
    forall i | 0 <= i < |a + b| ensures p((a + b)[i]) || (a + b)[i].tag != "next" {
      if i >= |a| {
        assert (a + b)[i] == b[i - |a|];
      } else {
        assert (a + b)[i] == a[i];
      }
    }
  }

  lemma NextElementsParse(es: seq<Edge>, decode: Element -> Result<Option<Statement>, Fault>)
    ensures forall k :: 0 <= k < |es| ==> ChildOf(NextElements(es)[k], decode).NextChild?
  {
    forall k | 0 <= k < |es| ensures ChildOf(NextElements(es)[k], decode).NextChild? {
      NextReadBack(es[k]);
    }
  }

  /** The successors read from a written block are the kept edges' destinations. */
  lemma BlockTargets(id: int, ss: seq<Located>, succs: seq<Edge>, decode: Element -> Result<Option<Statement>, Fault>)
    requires BlockElement(id, ss, succs).Some?
    ensures NextTargets(ChildrenOf(BlockElement(id, ss, succs).value.children, decode))
         == Dests(NextEdges(LastStatement(ss), succs))
  {
    var e := BlockElement(id, ss, succs).value;
    var kept := NextEdges(LastStatement(ss), succs);
    BlockNextsParse(id, ss, succs, decode);
    NextTargetsOf(e.children, decode);
    BlockNextReadBack(id, ss, succs);
    var ts := NextTargets(ChildrenOf(e.children, decode));
    forall i | 0 <= i < |kept| ensures ts[i] == kept[i].dest {
      assert Some(ts[i]) == Some(kept[i].dest);
    }
  }

  /** The backend reads a written block back with its own id and, as successors, exactly the
      destinations of the edges its last statement did not already account for, in order; the
      only way decoding fails is a statement the statement decoder rejects. */
  lemma BlockReadBack(id: int, ss: seq<Located>, succs: seq<Edge>, decode: Element -> Result<Option<Statement>, Fault>)
    requires BlockElement(id, ss, succs).Some?
    ensures var e := BlockElement(id, ss, succs).value;
      var r := BlockFromXml(e, decode);
      (r.Ok? ==> r.value.id == id && r.value.next == Dests(NextEdges(LastStatement(ss), succs)))
      && (r.Err? ==> exists i :: 0 <= i < |e.children| && e.children[i].tag != "next" && decode(e.children[i]).Err?)
  {
    var e := BlockElement(id, ss, succs).value;
    var cs := ChildrenOf(e.children, decode);
    BlockTargets(id, ss, succs, decode);
    BlockNextsParse(id, ss, succs, decode);
    var r := BlockFromXml(e, decode);
    if r.Err? {
      var idText := Get(e, "id").value;
      assert r == BlockFromChildren(ParseInt(idText).value, cs);
      var i :| 0 <= i < |cs| && Fails(cs[i]);
      assert cs[i] == ChildOf(e.children[i], decode);
    }
  }

  /** A condition that ends an otherwise straight-line statement list contributes its two
      destinations, and nothing else does. */
  lemma CondLastEdges(ss: seq<Statement>)
    requires EndsInCond(ss)
    ensures StatementsEdges(ss) == [ss[|ss| - 1].onTrue, ss[|ss| - 1].onFalse]
  {
    var n := |ss| - 1;
    assert ss == ss[..n] + [ss[n]];
    StatementsEdgesAppend(ss[..n], [ss[n]]);
    StraightLineStatements(ss[..n]);
    assert StatementsEdges([ss[n]]) == StatementEdges(ss[n]) + StatementsEdges([]);
  }

  /** The statements of a block that ends in a condition and branches nowhere else. */
  predicate EndsInCond(ss: seq<Statement>) {
    |ss| > 0 && ss[|ss| - 1].Cond? && forall i :: 0 <= i < |ss| - 1 ==> !ss[i].Cond? && !ss[i].Switch?
  }

  /** GCC's flagged edges of a condition lead to its two destinations. */
  predicate FlagsAgree(g: Gimple, succs: seq<Edge>)
    requires g.GCond?
  {
    forall i :: 0 <= i < |succs| ==>
      (succs[i].trueValue ==> succs[i].dest == g.trueDest) && (succs[i].falseValue ==> succs[i].dest == g.falseDest)
  }

  /** A block ending in a condition: its edges are the `next` successors, then the true and
      false destinations. */
  lemma CondBlockEdges(b: Block)
    requires EndsInCond(b.statements)
    ensures var last := b.statements[|b.statements| - 1];
      BlockEdges(b) == b.next + [last.onTrue, last.onFalse]
  {
    CondLastEdges(b.statements);
  }

  /** When GCC's true and false edges lead to the condition's destinations, every successor
      edge of a block ending in that condition is one of its edges in the backend. */
  lemma CondSuccessorsKept(b: Block, g: Gimple, succs: seq<Edge>)
    requires g.GCond? && FlagsAgree(g, succs)
    requires b.next == Dests(NextEdges(Some(g), succs))
    requires EndsInCond(b.statements)
    requires var last := b.statements[|b.statements| - 1];
      last.onTrue == g.trueDest && last.onFalse == g.falseDest
    ensures BlockEdges(b) == b.next + [g.trueDest, g.falseDest]
    ensures forall i :: 0 <= i < |succs| ==> succs[i].dest in BlockEdges(b)
  {
    CondBlockEdges(b);
    SuccessorsCovered(g, succs);
  }

  lemma SuccessorsCovered(g: Gimple, succs: seq<Edge>)
    requires g.GCond? && FlagsAgree(g, succs)
    ensures forall i :: 0 <= i < |succs| ==> succs[i].dest in Dests(NextEdges(Some(g), succs)) + [g.trueDest, g.falseDest]
  {
    KeptDests(Some(g), succs);
    var es := Dests(NextEdges(Some(g), succs)) + [g.trueDest, g.falseDest];
    forall i | 0 <= i < |succs| ensures succs[i].dest in es {
      if !succs[i].trueValue && !succs[i].falseValue {
        assert succs[i].dest in Dests(NextEdges(Some(g), succs));
      } else {
        assert succs[i].dest in [g.trueDest, g.falseDest];
      }
    }
  }

  /** Every edge a block's last statement did not account for has its destination among the
      `next` successors. */
  lemma KeptDests(last: Option<Gimple>, succs: seq<Edge>)
    ensures forall i :: 0 <= i < |succs| && !AlreadyHandled(last, succs[i]) ==> succs[i].dest in Dests(NextEdges(last, succs))
  {
    var kept := NextEdges(last, succs);
    forall i | 0 <= i < |succs| && !AlreadyHandled(last, succs[i]) ensures succs[i].dest in Dests(kept) {
      assert succs[i] in kept;
      var k :| 0 <= k < |kept| && kept[k] == succs[i];
      assert Dests(kept)[k] == succs[i].dest;
    }
  }

  /** A block that ends neither in a condition, a return nor a switch, and holds no branching
      statement, has every successor GCC gave it as an edge, in order. */
  lemma StraightBlockEdges(b: Block, ss: seq<Located>, succs: seq<Edge>)
    requires LastStatement(ss).None? || !(LastStatement(ss).value.GCond? || LastStatement(ss).value.GReturn? || LastStatement(ss).value.GSwitch?)
    requires b.next == Dests(NextEdges(LastStatement(ss), succs))
    requires forall i :: 0 <= i < |b.statements| ==> !b.statements[i].Cond? && !b.statements[i].Switch?
    ensures BlockEdges(b) == Dests(succs)
  {
    NextEdgeRule(LastStatement(ss), succs);
    StraightLineEdges(b);
  }
}
