/** The GCC plugin's serialisation of GIMPLE: the element written for each statement code,
    the statements left out, the shapes of assignments, conditions, switches and calls, and
    the rule deciding which successor edges of a basic block become `next` elements.

    Operands arrive as the elements `xml_expr` wrote for them (PluginTree describes those);
    attribute values are given as the parser reports them, which for the numbers and
    identifiers written here is the text itself. */
module PluginGimple {
  import opened Wrappers
  import opened Text
  import opened Misc
  import opened Tree
  import opened PluginTree
  import opened Statements
  import opened Expressions

  // ---------------------------------------------------------------- statements

  /** A switch label: its target block, and its low and high bounds (a missing low bound
      marks the default label). */
  datatype SwitchLabel = SwitchLabel(target: int, low: Option<Element>, high: Option<Element>)

  /** The callee of a call: a known function declaration (its name and uid), or an
      expression such as a function pointer. */
  datatype Callee = Direct(name: string, uid: int) | Indirect(fn: Element)

  /** A GIMPLE statement, by code, with the operands the plugin reads from it. A `NULL` switch
      label is a None entry. */
  datatype Gimple =
    | GAssign(lhs: Element, op: ExprCode, rhs1: Element, rhs2: Option<Element>)
    | GCall(callee: Callee, callLhs: Option<Element>, args: seq<Element>)
    | GCond(condLhs: Element, code: ExprCode, condRhs: Element, trueDest: int, falseDest: int)
    | GReturn(retval: Option<Element>)
    | GSwitch(index: Element, labels: seq<Option<SwitchLabel>>)
    | GGoto | GLabel | GPredict | GAsm | GEhDispatch | GOther

  datatype SourcePos = SourcePos(file: string, line: int, column: int)

  /** A statement and its location, when it has one. */
  datatype Located = Located(g: Gimple, loc: Option<SourcePos>)

  /** `xml_node_name`: the tag of each statement code; an unknown code aborts (None). */
  function NodeName(g: Gimple): (r: Option<string>)
    ensures r.None? <==> g.GOther?
    ensures r != Some("next") && r != Some("block")
  {
    match g
    case GAssign(_, _, _, _) => Some("assign")
    case GCall(_, _, _) => Some("call")
    case GCond(_, _, _, _, _) => Some("if")
    case GReturn(_) => Some("return")
    case GSwitch(_, _) => Some("switch")
    case GGoto => Some("goto")
    case GLabel => Some("label")
    case GPredict => Some("branch-prediction")
    case GAsm => Some("inline-assembler")
    case GEhDispatch => Some("exception-dispatch")
    case GOther => None
  }

  /** An empty element with no attributes. */
  function Empty(tag: string): Element {
    Element(tag, map[], [], None)
  }

  function Wrap(tag: string, children: seq<Element>): Element {
    Element(tag, map[], children, None)
  }

  function WithId(tag: string, id: int, children: seq<Element>): Element {
    Element(tag, map["id" := IntToString(id)], children, None)
  }

  /** The right-hand side codes written as a single operand: declarations, constants,
      references (the classes `tcc_declaration`, `tcc_constant`, `tcc_reference`) and the two
      conversion codes. */
  predicate IsStraight(op: ExprCode) {
    op in {RealCst, StringCst, IntegerCst, ResultDecl, VarDecl, ParmDecl, FunctionDecl,
           ComponentRef, BitFieldRef, IndirectRef, ArrayRef}
    || op == Simple(NopExpr) || op == Simple(ConvertExpr)
  }

  /** The children of an assignment's `rhs`: the operand alone for a straight assignment
      (which must have no second operand), `rhs1 op rhs2` for a binary one, and `op rhs1` for
      a unary one, where `&x` writes no operator because the operand is itself an `addr-of`.
      An operator `xml_expr_code` cannot name aborts (None). */
  function AssignRhs(op: ExprCode, rhs1: Element, rhs2: Option<Element>): (r: Option<seq<Element>>)
    ensures IsStraight(op) ==> r == if rhs2.Some? then None else Some([rhs1])
    ensures !IsStraight(op) && rhs2.Some? && r.Some? ==>
      |r.value| == 3 && r.value[0] == rhs1 && r.value[2] == rhs2.value
      && ExprCodeTag(op) == Written(r.value[1].tag) && r.value[1] == Empty(r.value[1].tag)
    ensures !IsStraight(op) && rhs2.None? && op != AddrExpr && r.Some? ==>
      |r.value| == 2 && r.value[1] == rhs1 && ExprCodeTag(op) == Written(r.value[0].tag)
    ensures !IsStraight(op) && rhs2.None? && op == AddrExpr ==> r == Some([rhs1])
    ensures !IsStraight(op) && op != AddrExpr ==> (r.Some? <==> ExprCodeTag(op).Written?)
  {
    if IsStraight(op) then
      if rhs2.Some? then None else Some([rhs1])
    else if rhs2.Some? then
      match ExprCodeTag(op)
      case Written(t) => Some([rhs1, Empty(t), rhs2.value])
      case _ => None
    else if op == AddrExpr then Some([rhs1])
    else
      match ExprCodeTag(op)
      case Written(t) => Some([Empty(t), rhs1])
      case _ => None
  }

  /** A switch label as written: `default` without bounds, or `case` holding either
      `low-bound` and `high-bound` or a single `exact`. */
  function LabelElement(l: SwitchLabel): (e: Element)
    ensures e.tag == (if l.low.None? then "default" else "case")
  {
    if l.low.None? then WithId("default", l.target, [])
    else if l.high.Some? then
      WithId("case", l.target, [Wrap("low-bound", [l.low.value]), Wrap("high-bound", [l.high.value])])
    else WithId("case", l.target, [Wrap("exact", [l.low.value])])
  }

  /** The label loop of a switch: `NULL` labels are skipped. */
  function LabelElements(labels: seq<Option<SwitchLabel>>): (es: seq<Element>)
    ensures |es| <= |labels|
    ensures forall i :: 0 <= i < |es| ==> es[i].tag in {"default", "case"}
    decreases |labels|
  {
    if |labels| == 0 then []
    else (if labels[0].Some? then [LabelElement(labels[0].value)] else []) + LabelElements(labels[1..])
  }

  /** The labels that are present, in order. */
  function Present(labels: seq<Option<SwitchLabel>>): (ls: seq<SwitchLabel>)
    ensures |ls| <= |labels|
    decreases |labels|
  {
    if |labels| == 0 then []
    else (if labels[0].Some? then [labels[0].value] else []) + Present(labels[1..])
  }

  /** The element a call's callee is written as. */
  function CalleeElement(c: Callee): Element {
    match c
    case Direct(name, uid) => Element("function", map["name" := name, "id" := IntToString(uid)], [], None)
    case Indirect(fn) => fn
  }

  /** `xml_statement_ops`: the children of a statement element; None when the plugin aborts.
      A `goto` or exception dispatch has no operands. */
  function StatementOps(g: Gimple): (r: Option<seq<Element>>)
    requires !g.GOther?
  {
    match g
    case GAssign(lhs, op, rhs1, rhs2) =>
      var rhs :- AssignRhs(op, rhs1, rhs2);
      Some([Wrap("lhs", [lhs]), Wrap("rhs", rhs)])
    case GCond(l, code, r, t, f) =>
      (match ExprCodeTag(code)
       case Written(tag) => Some([l, Empty(tag), r, WithId("then", t, []), WithId("else", f, [])])
       case _ => None)
    case GReturn(v) => Some(if v.Some? then [v.value] else [])
    case GSwitch(index, labels) => Some([Wrap("index", [index])] + LabelElements(labels))
    case GCall(callee, lhs, args) =>
      Some([CalleeElement(callee), Wrap("lhs", [if lhs.Some? then lhs.value else Empty("void")]), Wrap("args", args)])
    case _ => Some([])
  }

  /** What `xml_statement` does with a statement. */
  datatype StatementOut = WrittenStatement(e: Element) | NotWritten | AbortedStatement

  /** Labels, branch predictions and inline assembler are never written. */
  predicate IsHidden(g: Gimple) {
    g.GLabel? || g.GPredict? || g.GAsm?
  }

  /** The attribute value of a statement's location, written without filtering. */
  function LocAttrs(loc: Option<SourcePos>): map<string, string> {
    if loc.Some? then map["location" := loc.value.file + Position(loc.value.line, loc.value.column)] else map[]
  }

  /** `xml_statement`. */
  function StatementOf(s: Located): (r: StatementOut)
    ensures r == NotWritten <==> IsHidden(s.g)
    ensures s.g.GOther? ==> r == AbortedStatement
    ensures r.WrittenStatement? ==>
      Some(r.e.tag) == NodeName(s.g) && StatementOps(s.g).Some? && r.e.children == StatementOps(s.g).value
  {
    match NodeName(s.g)
    case None => AbortedStatement
    case Some(tag) =>
      if IsHidden(s.g) then NotWritten
      else
        match StatementOps(s.g)
        case None => AbortedStatement
        case Some(ops) => WrittenStatement(Element(tag, LocAttrs(s.loc), ops, None))
  }

  /** Every statement the plugin writes has a tag the backend decodes, except `goto`, which
      its statement decoder rejects; exception dispatch is read and dropped. */
  lemma StatementTagsDecode(s: Located)
    requires StatementOf(s).WrittenStatement?
    ensures StatementKindOf(StatementOf(s).e.tag).Err? <==> s.g.GGoto?
    ensures StatementKindOf(StatementOf(s).e.tag) == Ok(None) <==> s.g.GEhDispatch?
  {
  }

  /** The backend reads a statement's location back from the attribute when the file name
      has no `:` and no `&`. */
  lemma StatementLocationReadBack(s: Located)
    requires s.loc.Some? && ':' !in s.loc.value.file
    ensures StatementOf(s).WrittenStatement? ==>
      Get(StatementOf(s).e, "location").Some?
      && ParseLocation(Get(StatementOf(s).e, "location").value)
        == Some(Location(s.loc.value.file, s.loc.value.line, s.loc.value.column))
  {
    ThreeFieldLocation(s.loc.value.file, s.loc.value.line, s.loc.value.column);
  }

  // ---------------------------------------------------------------- reading statements back

  /** `Assignment.from_xml`: the lhs is the single child of `lhs`; every child of `rhs` is an
      operand or operator, in order. */
  lemma AssignReadBack(s: Located)
    requires s.g.GAssign? && StatementOf(s).WrittenStatement?
    ensures var e := StatementOf(s).e;
      Find(e, "lhs").Some? && DescendOne(Find(e, "lhs").value) == Ok(s.g.lhs)
      && Find(e, "rhs").Some? && Find(e, "rhs").value.children == AssignRhs(s.g.op, s.g.rhs1, s.g.rhs2).value
  {
    var e := StatementOf(s).e;
    assert e.children[0].tag == "lhs" && e.children[1].tag == "rhs";
    assert e.children[1..][0] == e.children[1];
  }

  /** `Cond.from_xml`'s walk over the children: `then` and `else` give the targets (a later
      one replacing an earlier), everything else is part of the condition. */
  function CondParts(es: seq<Element>): (r: (seq<Element>, Option<string>, Option<string>))
    decreases |es|
  {
    if |es| == 0 then ([], None, None)
    else
      var rest := CondParts(es[1..]);
      var x := es[0];
      if x.tag == "then" then (rest.0, if rest.1.Some? then rest.1 else Get(x, "id"), rest.2)
      else if x.tag == "else" then (rest.0, rest.1, if rest.2.Some? then rest.2 else Get(x, "id"))
      else ([x] + rest.0, rest.1, rest.2)
  }

  /** No operator element is tagged like a branch target. */
  lemma OperatorIsNoBranch(op: ExprCode)
    requires ExprCodeTag(op).Written?
    ensures ExprCodeTag(op).tag !in {"then", "else"}
  {
    if op.Simple? && !Unsupported(op.code) {
      SupportedTags(op.code);
      assert BinaryOperatorText("then").None? && UnaryOperatorText("then").None?;
      assert BinaryOperatorText("else").None? && UnaryOperatorText("else").None?;
    }
  }

  lemma CondPartsOfFive(l: Element, op: Element, r: Element, th: Element, el: Element)
    requires l.tag !in {"then", "else"} && op.tag !in {"then", "else"} && r.tag !in {"then", "else"}
    requires th.tag == "then" && el.tag == "else"
    ensures CondParts([l, op, r, th, el]) == ([l, op, r], Get(th, "id"), Get(el, "id"))
  {
    assert [el][1..] == [];
    assert CondParts([]) == ([], None, None);
    assert CondParts([el]) == ([], None, Get(el, "id"));
    assert [th, el][1..] == [el] && [th, el][0] == th;
    assert CondParts([th, el]) == ([], Get(th, "id"), Get(el, "id"));
    assert [r, th, el][1..] == [th, el];
    assert CondParts([r, th, el]) == ([r] + [], Get(th, "id"), Get(el, "id"));
    assert [r] + [] == [r] && [op] + [r] == [op, r] && [l] + [op, r] == [l, op, r];
    assert [op, r, th, el][1..] == [r, th, el];
    assert CondParts([op, r, th, el]) == ([op, r], Get(th, "id"), Get(el, "id"));
    assert [l, op, r, th, el][1..] == [op, r, th, el];
  }

  /** The condition reads back as `lhs op rhs` with the true and false targets, as long as
      the operands are not themselves `then` or `else` elements (no expression is). */
  lemma CondReadBack(s: Located)
    requires s.g.GCond? && StatementOf(s).WrittenStatement?
    requires s.g.condLhs.tag !in {"then", "else"} && s.g.condRhs.tag !in {"then", "else"}
    ensures var (cond, t, f) := CondParts(StatementOf(s).e.children);
      |cond| == 3 && cond[0] == s.g.condLhs && cond[2] == s.g.condRhs
      && ExprCodeTag(s.g.code) == Written(cond[1].tag)
      && t.Some? && ParseInt(t.value) == Some(s.g.trueDest)
      && f.Some? && ParseInt(f.value) == Some(s.g.falseDest)
  {
    var es := StatementOf(s).e.children;
    var op := Empty(ExprCodeTag(s.g.code).tag);
    var th := WithId("then", s.g.trueDest, []);
    var el := WithId("else", s.g.falseDest, []);
    assert es == [s.g.condLhs, op, s.g.condRhs, th, el];
    OperatorIsNoBranch(s.g.code);
    CondPartsOfFive(s.g.condLhs, op, s.g.condRhs, th, el);
    ParseIntOfIntToString(s.g.trueDest);
    ParseIntOfIntToString(s.g.falseDest);
  }

  /** What the backend accepts as a `case` element: one child, which must be `exact`, or two,
      `low-bound` then `high-bound`; the values are the single children of those. */
  datatype CaseShape = ExactShape(value: Element) | RangeShape(low: Element, high: Element)

  function CaseShapeOf(c: Element): (r: Result<CaseShape, Fault>)
  {
    if |c.children| == 1 then
      var k := c.children[0];
      if k.tag != "exact" then Err(AssertionError)
      else
        var v :- DescendOne(k);
        Ok(ExactShape(v))
    else if |c.children| != 2 then Err(AssertionError)
    else
      var low := c.children[0];
      var high := c.children[1];
      if low.tag != "low-bound" || high.tag != "high-bound" then Err(AssertionError)
      else
        var lo :- DescendOne(low);
        var hi :- DescendOne(high);
        Ok(RangeShape(lo, hi))
  }

  /** Every `case` the plugin writes has a shape the backend accepts: a label with a high
      bound is a range, one without is an exact value; the block id reads back. */
  lemma CaseLabelReadBack(l: SwitchLabel)
    requires l.low.Some?
    ensures CaseShapeOf(LabelElement(l)) ==
      if l.high.Some? then Ok(RangeShape(l.low.value, l.high.value)) else Ok(ExactShape(l.low.value))
    ensures ParseInt(Get(LabelElement(l), "id").value) == Some(l.target)
  {
    ParseIntOfIntToString(l.target);
  }

  /** The labels whose elements are `case`s, in order. */
  function Cases(ls: seq<SwitchLabel>): (cs: seq<SwitchLabel>)
    ensures forall i :: 0 <= i < |cs| ==> cs[i].low.Some?
    decreases |ls|
  {
    if |ls| == 0 then []
    else (if ls[0].low.Some? then [ls[0]] else []) + Cases(ls[1..])
  }

  function LabelElementsOf(ls: seq<SwitchLabel>): (es: seq<Element>)
    ensures |es| == |ls|
    ensures forall i :: 0 <= i < |ls| ==> es[i] == LabelElement(ls[i])
    decreases |ls|
  {
    if |ls| == 0 then [] else [LabelElement(ls[0])] + LabelElementsOf(ls[1..])
  }

  lemma LabelElementsOfCons(l: SwitchLabel, rest: seq<SwitchLabel>)
    ensures LabelElementsOf([l] + rest) == [LabelElement(l)] + LabelElementsOf(rest)
  {
    assert ([l] + rest)[1..] == rest;
  }

  lemma {:induction false} LabelElementsPresent(labels: seq<Option<SwitchLabel>>)
    ensures LabelElements(labels) == LabelElementsOf(Present(labels))
    decreases |labels|
  {
    if |labels| > 0 {
      LabelElementsPresent(labels[1..]);
      var rest := Present(labels[1..]);
      if labels[0].Some? {
        assert Present(labels) == [labels[0].value] + rest;
        LabelElementsOfCons(labels[0].value, rest);
      } else {
        assert Present(labels) == rest;
      }
    }
  }

  lemma {:induction false} CaseElements(ls: seq<SwitchLabel>)
    ensures FindAllIn(LabelElementsOf(ls), "case") == LabelElementsOf(Cases(ls))
    decreases |ls|
  {
    if |ls| > 0 {
      CaseElements(ls[1..]);
      var rest := Cases(ls[1..]);
      if ls[0].low.Some? {
        assert Cases(ls) == [ls[0]] + rest;
        LabelElementsOfCons(ls[0], rest);
      } else {
        assert Cases(ls) == rest;
      }
    }
  }

  /** The first default label, if any. */
  function FirstDefault(ls: seq<SwitchLabel>): (r: Option<SwitchLabel>)
    ensures r.Some? ==> r.value in ls && r.value.low.None?
    ensures r.None? <==> forall i :: 0 <= i < |ls| ==> ls[i].low.Some?
    decreases |ls|
  {
    if |ls| == 0 then None
    else if ls[0].low.None? then Some(ls[0])
    else FirstDefault(ls[1..])
  }

  lemma {:induction false} DefaultElement(ls: seq<SwitchLabel>)
    ensures FindIn(LabelElementsOf(ls), "default") ==
      if FirstDefault(ls).Some? then Some(LabelElement(FirstDefault(ls).value)) else None
    decreases |ls|
  {
    if |ls| > 0 {
      DefaultElement(ls[1..]);
      assert LabelElementsOf(ls)[1..] == LabelElementsOf(ls[1..]);
    }
  }

  /** A switch's children: the index, then the present labels in order. */
  lemma SwitchChildren(s: Located)
    requires s.g.GSwitch? && StatementOf(s).WrittenStatement?
    ensures StatementOf(s).e.children == [Wrap("index", [s.g.index])] + LabelElementsOf(Present(s.g.labels))
  {
    LabelElementsPresent(s.g.labels);
  }

  /** `Switch.from_xml` finds the index operand. */
  lemma SwitchIndexReadBack(s: Located)
    requires s.g.GSwitch? && StatementOf(s).WrittenStatement?
    ensures var e := StatementOf(s).e;
      Find(e, "index").Some? && DescendOne(Find(e, "index").value) == Ok(s.g.index)
  {
    SwitchChildren(s);
  }

  /** `Switch.from_xml` reads the default target from the first default label, and finds
      none exactly when no present label is a default (`NULL` labels leave no trace). */
  lemma SwitchDefaultReadBack(s: Located)
    requires s.g.GSwitch? && StatementOf(s).WrittenStatement?
    ensures var e := StatementOf(s).e;
      var ls := Present(s.g.labels);
      (Find(e, "default").Some? <==> FirstDefault(ls).Some?)
      && (Find(e, "default").Some? ==>
            Get(Find(e, "default").value, "id").Some?
            && ParseInt(Get(Find(e, "default").value, "id").value) == Some(FirstDefault(ls).value.target))
  {
    var ls := Present(s.g.labels);
    var head := [Wrap("index", [s.g.index])];
    SwitchChildren(s);
    FindInAppend(head, LabelElementsOf(ls), "default");
    DefaultElement(ls);
    if FirstDefault(ls).Some? {
      ParseIntOfIntToString(FirstDefault(ls).value.target);
    }
  }

  /** `Switch.from_xml` sees the present case labels, in order, each in a shape it accepts. */
  lemma SwitchCasesReadBack(s: Located)
    requires s.g.GSwitch? && StatementOf(s).WrittenStatement?
    ensures var e := StatementOf(s).e;
      var ls := Present(s.g.labels);
      FindAll(e, "case") == LabelElementsOf(Cases(ls))
      && forall i :: 0 <= i < |Cases(ls)| ==> CaseShapeOf(FindAll(e, "case")[i]).Ok?
  {
    var e := StatementOf(s).e;
    var ls := Present(s.g.labels);
    var head := [Wrap("index", [s.g.index])];
    SwitchChildren(s);
    FindAllInAppend(head, LabelElementsOf(ls), "case");
    assert FindAllIn(head, "case") == [];
    CaseElements(ls);
    CasesAccepted(Cases(ls));
  }

  lemma {:induction false} CasesAccepted(cs: seq<SwitchLabel>)
    requires forall i :: 0 <= i < |cs| ==> cs[i].low.Some?
    ensures forall i :: 0 <= i < |cs| ==> CaseShapeOf(LabelElementsOf(cs)[i]).Ok?
    decreases |cs|
  {
    if |cs| > 0 {
      var es := LabelElementsOf(cs);
      var rest := LabelElementsOf(cs[1..]);
      CaseLabelReadBack(cs[0]);
      CasesAccepted(cs[1..]);
      assert es == [LabelElement(cs[0])] + rest;
      forall i | 1 <= i < |cs| ensures CaseShapeOf(es[i]).Ok? {
        assert es[i] == rest[i - 1];
      }
    }
  }

  /** `Call.from_xml` (no expression element is tagged `function`, `lhs` or `args`): a `function` child marks a direct call whose id reads back; otherwise
      the first child is the callee expression. The lhs is the single child of `lhs` (`void`
      when the result is unused) and the arguments are the children of `args`, in order. */
  lemma CallReadBack(s: Located)
    requires s.g.GCall? && StatementOf(s).WrittenStatement?
    requires s.g.callee.Indirect? ==> s.g.callee.fn.tag !in {"function", "lhs", "args"}
    ensures var e := StatementOf(s).e;
      (Find(e, "function").Some? <==> s.g.callee.Direct?)
      && (s.g.callee.Direct? ==> ParseInt(Get(Find(e, "function").value, "id").value) == Some(s.g.callee.uid))
      && (s.g.callee.Indirect? ==> e.children[0] == s.g.callee.fn)
      && Find(e, "lhs").Some?
      && DescendOne(Find(e, "lhs").value) == Ok(if s.g.callLhs.Some? then s.g.callLhs.value else Empty("void"))
      && Find(e, "args").Some? && Find(e, "args").value.children == s.g.args
  {
    var e := StatementOf(s).e;
    assert e.children[1..][0].tag == "lhs";
    assert e.children[1..][1..][0].tag == "args";
    if s.g.callee.Direct? {
      ParseIntOfIntToString(s.g.callee.uid);
    }
  }

  // ---------------------------------------------------------------- successor edges

  /** A CFG edge: its destination block and the flags the plugin looks at. */
  datatype Edge = Edge(dest: int, trueValue: bool, falseValue: bool, abnormal: bool,
                       abnormalCall: bool, loopExit: bool, eh: bool)

  /** `edge_was_already_handled`: after a condition its true and false edges were written as
      `then`/`else`; after a return or a switch every edge is implied. An empty block has
      no last statement. */
  predicate AlreadyHandled(last: Option<Gimple>, e: Edge) {
    last.Some? &&
    ((last.value.GCond? && (e.trueValue || e.falseValue)) || last.value.GReturn? || last.value.GSwitch?)
  }

  /** The edges written as `next`, in successor order. */
  function NextEdges(last: Option<Gimple>, succs: seq<Edge>): (r: seq<Edge>)
    ensures |r| <= |succs|
    ensures forall i :: 0 <= i < |r| ==> r[i] in succs && !AlreadyHandled(last, r[i])
    ensures forall i :: 0 <= i < |succs| && !AlreadyHandled(last, succs[i]) ==> succs[i] in r
    decreases |succs|
  {
    if |succs| == 0 then []
    else (if AlreadyHandled(last, succs[0]) then [] else [succs[0]]) + NextEdges(last, succs[1..])
  }

  /** The edge rule by the kind of the block's last statement: a condition's true and false
      edges never become `next`; a return or switch leaves none; any other block keeps every
      successor, in order. */
  lemma {:induction false} NextEdgeRule(last: Option<Gimple>, succs: seq<Edge>)
    ensures last.Some? && last.value.GCond? ==>
      forall i :: 0 <= i < |NextEdges(last, succs)| ==>
        !NextEdges(last, succs)[i].trueValue && !NextEdges(last, succs)[i].falseValue
    ensures last.Some? && (last.value.GReturn? || last.value.GSwitch?) ==> NextEdges(last, succs) == []
    ensures last.None? || !(last.value.GCond? || last.value.GReturn? || last.value.GSwitch?) ==>
      NextEdges(last, succs) == succs
    decreases |succs|
  {
    if |succs| > 0 {
      NextEdgeRule(last, succs[1..]);
      if last.Some? && (last.value.GReturn? || last.value.GSwitch?) {
        assert NextEdges(last, succs) == [] + NextEdges(last, succs[1..]);
      } else if last.None? || !last.value.GCond? {
        assert NextEdges(last, succs) == [succs[0]] + succs[1..];
      }
    }
  }

  /** The `next` element for an edge: its destination and one `1`-valued attribute per flag. */
  function NextElement(e: Edge): (x: Element)
    ensures x.tag == "next" && x.children == []
    ensures "abnormal" in x.attrs <==> e.abnormal
    ensures "exceptional" in x.attrs <==> e.eh
  {
    var a := map["id" := IntToString(e.dest)];
    var a := if e.abnormal then a["abnormal" := "1"] else a;
    var a := if e.abnormalCall then a["abnormal-call" := "1"] else a;
    var a := if e.loopExit then a["loop-exit" := "1"] else a;
    var a := if e.eh then a["exceptional" := "1"] else a;
    Element("next", a, [], None)
  }

  /** The backend keeps the destination of every `next` element. */
  lemma NextReadBack(e: Edge)
    ensures ParseInt(Get(NextElement(e), "id").value) == Some(e.dest)
  {
    ParseIntOfIntToString(e.dest);
  }

  function Dests(es: seq<Edge>): (ds: seq<int>)
    ensures |ds| == |es|
    ensures forall i :: 0 <= i < |es| ==> ds[i] == es[i].dest
  {
    seq(|es|, i requires 0 <= i < |es| => es[i].dest)
  }

  // ---------------------------------------------------------------- blocks

  /** The statements written for a block, in order; None when one of them aborts. */
  function WrittenStatements(ss: seq<Located>): (r: Option<seq<Element>>)
    ensures r.Some? ==> |r.value| <= |ss|
    ensures r.Some? <==> forall i :: 0 <= i < |ss| ==> !StatementOf(ss[i]).AbortedStatement?
    ensures r.Some? ==> forall i :: 0 <= i < |r.value| ==> r.value[i].tag != "next"
    decreases |ss|
  {
    if |ss| == 0 then Some([])
    else
      var rest :- WrittenStatements(ss[1..]);
      match StatementOf(ss[0])
      case AbortedStatement => None
      case NotWritten => Some(rest)
      case WrittenStatement(e) => Some([e] + rest)
  }

  function LastStatement(ss: seq<Located>): Option<Gimple> {
    if |ss| == 0 then None else Some(ss[|ss| - 1].g)
  }

  function NextElements(es: seq<Edge>): (xs: seq<Element>)
    ensures |xs| == |es|
    ensures forall i :: 0 <= i < |es| ==> xs[i] == NextElement(es[i])
  {
    seq(|es|, i requires 0 <= i < |es| => NextElement(es[i]))
  }

  /** `xml_basic_block`: the block's statements, then one `next` per edge not already
      handled by its last statement. */
  function BlockElement(id: int, ss: seq<Located>, succs: seq<Edge>): (r: Option<Element>)
    ensures r.Some? ==> r.value.tag == "block" && Get(r.value, "id").Some? && ParseInt(Get(r.value, "id").value) == Some(id)
  {
    ParseIntOfIntToString(id);
    var stmts :- WrittenStatements(ss);
    Some(WithId("block", id, stmts + NextElements(NextEdges(LastStatement(ss), succs))))
  }

  /** `BasicBlock.from_xml` keeps one target per `next` child: exactly the edges the last
      statement did not already account for, in successor order, each destination read back. */
  lemma BlockNextReadBack(id: int, ss: seq<Located>, succs: seq<Edge>)
    requires BlockElement(id, ss, succs).Some?
    ensures var kept := NextEdges(LastStatement(ss), succs);
      FindAll(BlockElement(id, ss, succs).value, "next") == NextElements(kept)
      && forall i :: 0 <= i < |kept| ==> ParseInt(Get(FindAll(BlockElement(id, ss, succs).value, "next")[i], "id").value) == Some(kept[i].dest)
  {
    var kept := NextEdges(LastStatement(ss), succs);
    var stmts := WrittenStatements(ss).value;
    var nexts := NextElements(kept);
    assert BlockElement(id, ss, succs).value.children == stmts + nexts;
    assert FindAllIn(stmts, "next") == [];
    assert FindAllIn(nexts, "next") == nexts;
    FindAllInAppend(stmts, nexts, "next");
    NextElementsReadBack(kept);
  }

  lemma NextElementsReadBack(es: seq<Edge>)
    ensures forall i :: 0 <= i < |es| ==> ParseInt(Get(NextElements(es)[i], "id").value) == Some(es[i].dest)
  {
    forall i | 0 <= i < |es| ensures ParseInt(Get(NextElements(es)[i], "id").value) == Some(es[i].dest) {
      NextReadBack(es[i]);
    }
  }
}
