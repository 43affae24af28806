/** Expressions: references to declarations (`Bound`), member and item references,
    indirection, address-of, operators (kept as their C text), constants, `(void)` and
    `__result`; attaching declarations to references, `get_type`, `to_c`, the string literal
    behind `&"..."[n]`, and the tag dispatch that picks an expression kind.

    A `Bound` does not copy its declaration: it records which of the function's tables it was
    attached from (a `Slot`). Folding a temporary changes the declaration in that table, and
    every reference attached to it sees the change, as every Python reference to the one
    shared `Decl` object does. */
module Expressions {
  import opened Wrappers
  import opened Text
  import opened Misc
  import opened Types
  import opened Constants

  // ---------------------------------------------------------------- scopes

  /** Where an attached declaration lives: the aggregate members table, the argument list (at
      the index the `id -> decl` dictionary built from it keeps, the last with that id), the
      locals or the externals. */
  datatype Slot = InMembers | InArgs(index: nat) | InLocals | InExternals

  /** The declaration tables attachment draws from. */
  datatype Scope = Scope(members: map<int, Decl>, args: seq<Decl>, locals: map<int, Decl>, externals: map<int, Decl>)

  /** The four tables, as the names attachment is run with. */
  datatype Table = MembersTable | ArgsTable | LocalsTable | ExternalsTable

  /** The index the argument dictionary keeps for `id`: the last argument with that id. */
  function LastArgIndex(args: seq<Decl>, id: int): (r: Option<nat>)
    ensures r.Some? ==> r.value < |args| && args[r.value].binding.id == id
    ensures r.Some? ==> forall j :: r.value < j < |args| ==> args[j].binding.id != id
    ensures r.None? <==> forall j :: 0 <= j < |args| ==> args[j].binding.id != id
    decreases |args|
  {
    if |args| == 0 then None
    else if args[|args| - 1].binding.id == id then Some(|args| - 1)
    else LastArgIndex(args[..|args| - 1], id)
  }

  /** The slot `decls[id]` finds in table `t`, when `id` is a key of it. */
  function SlotIn(scope: Scope, t: Table, id: int): (r: Option<Slot>)
    ensures t == MembersTable ==> (r.Some? <==> id in scope.members)
    ensures t == LocalsTable ==> (r.Some? <==> id in scope.locals)
    ensures t == ExternalsTable ==> (r.Some? <==> id in scope.externals)
    ensures t == ArgsTable ==> (r.Some? <==> exists j :: 0 <= j < |scope.args| && scope.args[j].binding.id == id)
  {
    match t
    case MembersTable => if id in scope.members then Some(InMembers) else None
    case LocalsTable => if id in scope.locals then Some(InLocals) else None
    case ExternalsTable => if id in scope.externals then Some(InExternals) else None
    case ArgsTable =>
      var k := LastArgIndex(scope.args, id);
      if k.Some? then Some(InArgs(k.value)) else None
  }

  /** The declaration a slot designates. */
  function Lookup(scope: Scope, slot: Slot, id: int): (r: Option<Decl>)
    ensures slot.InLocals? ==> (r.Some? <==> id in scope.locals)
    ensures slot.InArgs? ==> (r.Some? <==> slot.index < |scope.args|)
  {
    match slot
    case InMembers => if id in scope.members then Some(scope.members[id]) else None
    case InArgs(i) => if i < |scope.args| then Some(scope.args[i]) else None
    case InLocals => if id in scope.locals then Some(scope.locals[id]) else None
    case InExternals => if id in scope.externals then Some(scope.externals[id]) else None
  }

  // ---------------------------------------------------------------- expressions

  datatype Expr =
    | Bound(id: int, slot: Option<Slot>)
    | MemberRef(aggregate: Expr, member: Expr)
    | ItemRef(base: Expr, index: Expr)
    | Indirect(thing: Expr)
    | AddrOf(of: Expr)
    | BinaryOp(op: string)
    | UnaryOp(op: string)
    | Const(c: Constant)
    | VoidExpr
    | ResultExpr

  /** `attach_decl(decls)` on an expression (those without the method are left alone): a
      reference whose id is a key of the table is attached to that entry; compound
      expressions pass the table on to their parts. */
  function Attach(e: Expr, scope: Scope, t: Table): (r: Expr)
    ensures Erase(r) == Erase(e)
    decreases e
  {
    match e
    case Bound(id, slot) =>
      var s := SlotIn(scope, t, id);
      if s.Some? then Bound(id, s) else e
    case MemberRef(a, m) => MemberRef(Attach(a, scope, t), Attach(m, scope, t))
    case ItemRef(a, i) => ItemRef(Attach(a, scope, t), Attach(i, scope, t))
    case Indirect(x) => Indirect(Attach(x, scope, t))
    case AddrOf(x) => AddrOf(Attach(x, scope, t))
    case _ => e
  }

  /** The expression with every attachment forgotten: its shape. */
  function Erase(e: Expr): (r: Expr)
    decreases e
  {
    match e
    case Bound(id, _) => Bound(id, None)
    case MemberRef(a, m) => MemberRef(Erase(a), Erase(m))
    case ItemRef(a, i) => ItemRef(Erase(a), Erase(i))
    case Indirect(x) => Indirect(Erase(x))
    case AddrOf(x) => AddrOf(Erase(x))
    case _ => e
  }

  /** The references inside an expression, left to right. */
  function Refs(e: Expr): (rs: seq<Expr>)
    ensures forall i :: 0 <= i < |rs| ==> rs[i].Bound?
    decreases e
  {
    match e
    case Bound(_, _) => [e]
    case MemberRef(a, m) => Refs(a) + Refs(m)
    case ItemRef(a, i) => Refs(a) + Refs(i)
    case Indirect(x) => Refs(x)
    case AddrOf(x) => Refs(x)
    case _ => []
  }

  /** Attachment of a single reference. */
  function AttachRef(b: Expr, scope: Scope, t: Table): Expr
    requires b.Bound?
  {
    var s := SlotIn(scope, t, b.id);
    if s.Some? then Bound(b.id, s) else b
  }

  /** Attachment reaches every reference of a compound expression and only changes those. */
  lemma {:induction false} AttachEveryRef(e: Expr, scope: Scope, t: Table)
    ensures |Refs(Attach(e, scope, t))| == |Refs(e)|
    ensures forall i :: 0 <= i < |Refs(e)| ==> Refs(Attach(e, scope, t))[i] == AttachRef(Refs(e)[i], scope, t)
    decreases e
  {
    match e
    case Bound(_, _) =>
    case MemberRef(a, m) =>
      AttachEveryRef(a, scope, t);
      AttachEveryRef(m, scope, t);
    case ItemRef(a, i) =>
      AttachEveryRef(a, scope, t);
      AttachEveryRef(i, scope, t);
    case Indirect(x) => AttachEveryRef(x, scope, t);
    case AddrOf(x) => AttachEveryRef(x, scope, t);
    case _ =>
  }

  /** Attaching from two tables in turn: a reference ends up with the later table's entry
      when the later table has its id, else with the earlier one's, else as it was. */
  lemma LaterTableWins(id: int, slot: Option<Slot>, scope: Scope, t1: Table, t2: Table)
    ensures var r := Attach(Attach(Bound(id, slot), scope, t1), scope, t2);
      r.slot == (if SlotIn(scope, t2, id).Some? then SlotIn(scope, t2, id)
                 else if SlotIn(scope, t1, id).Some? then SlotIn(scope, t1, id)
                 else slot)
  {
  }

  // ---------------------------------------------------------------- rendering

  /** `to_c`. A reference renders its declaration's binding, or `U.<id>` when unattached;
      `&` is prefixed by string concatenation, which raises TypeError when the operand
      renders as a number; the other forms are `'%s'` formatting. */
  function ExprToC(e: Expr, scope: Scope): (r: Result<Rendered, Fault>)
    ensures r.Ok? && !e.Bound? && !e.Const? ==> r.value.Text?
    decreases e
  {
    match e
    case Bound(id, None) => Ok(Text("U." + IntToString(id)))
    case Bound(id, Some(slot)) =>
      var d :- Lookup(scope, slot, id).ToResult(KeyError);
      Ok(BindingToC(d.binding))
    case MemberRef(a, m) =>
      var x :- ExprToC(a, scope);
      var y :- ExprToC(m, scope);
      Ok(Text(Format(x) + "." + Format(y)))
    case ItemRef(a, i) =>
      var x :- ExprToC(a, scope);
      var y :- ExprToC(i, scope);
      Ok(Text(Format(x) + "[" + Format(y) + "]"))
    case Indirect(x) =>
      var y :- ExprToC(x, scope);
      Ok(Text("*" + Format(y)))
    case AddrOf(x) =>
      var y :- ExprToC(x, scope);
      var s :- Concat("&", y).ToResult(TypeError);
      Ok(Text(s))
    case BinaryOp(op) => Ok(Text(op))
    case UnaryOp(op) => Ok(Text(op))
    case Const(c) => Ok(ConstantToC(c))
    case VoidExpr => Ok(Text("(void)"))
    case ResultExpr => Ok(Text("__result"))
  }

  /** An unattached reference names itself by id, which reads back from the text. */
  lemma UnattachedRendering(id: int, scope: Scope)
    ensures ExprToC(Bound(id, None), scope).Ok?
    ensures var s := ExprToC(Bound(id, None), scope).value;
      s.Text? && IsPrefix("U.", s.s) && ParseInt(s.s[2..]) == Some(id)
  {
    ParseIntOfIntToString(id);
    assert ("U." + IntToString(id))[2..] == IntToString(id);
  }

  /** Taking the address of something that renders as a number (an integer constant, or a
      temporary folded to one) raises TypeError. */
  lemma AddrOfNeedsText(x: Expr, scope: Scope)
    ensures ExprToC(AddrOf(x), scope).Ok? <==> ExprToC(x, scope).Ok? && ExprToC(x, scope).value.Text?
    ensures ExprToC(AddrOf(x), scope).Ok? ==> ExprToC(AddrOf(x), scope).value.s == "&" + ExprToC(x, scope).value.s
  {
  }

  /** The shapes `to_c` writes: `a.m`, `a[i]` and `*x` format their parts with `'%s'`, an
      attached reference renders its declaration's binding, and `(void)` and `__result` are
      fixed texts. A compound renders exactly when its parts do. */
  lemma RenderingShapes(a: Expr, b: Expr, id: int, slot: Slot, scope: Scope)
    ensures var x := ExprToC(a, scope); var y := ExprToC(b, scope);
      (ExprToC(MemberRef(a, b), scope).Ok? <==> x.Ok? && y.Ok?)
      && (x.Ok? && y.Ok? ==> ExprToC(MemberRef(a, b), scope) == Ok(Text(Format(x.value) + "." + Format(y.value))))
    ensures var x := ExprToC(a, scope); var y := ExprToC(b, scope);
      (ExprToC(ItemRef(a, b), scope).Ok? <==> x.Ok? && y.Ok?)
      && (x.Ok? && y.Ok? ==> ExprToC(ItemRef(a, b), scope) == Ok(Text(Format(x.value) + "[" + Format(y.value) + "]")))
    ensures var x := ExprToC(a, scope);
      (ExprToC(Indirect(a), scope).Ok? <==> x.Ok?)
      && (x.Ok? ==> ExprToC(Indirect(a), scope) == Ok(Text("*" + Format(x.value))))
    ensures ExprToC(VoidExpr, scope) == Ok(Text("(void)"))
    ensures ExprToC(ResultExpr, scope) == Ok(Text("__result"))
    ensures var d := Lookup(scope, slot, id);
      ExprToC(Bound(id, Some(slot)), scope) == (if d.Some? then Ok(BindingToC(d.value.binding)) else Err(KeyError))
  {
    MemberShape(a, b, scope);
    ItemShape(a, b, scope);
  }

  lemma MemberShape(a: Expr, b: Expr, scope: Scope)
    ensures var x := ExprToC(a, scope); var y := ExprToC(b, scope);
      (ExprToC(MemberRef(a, b), scope).Ok? <==> x.Ok? && y.Ok?)
      && (x.Ok? && y.Ok? ==> ExprToC(MemberRef(a, b), scope) == Ok(Text(Format(x.value) + "." + Format(y.value))))
  {
  }

  lemma ItemShape(a: Expr, b: Expr, scope: Scope)
    ensures var x := ExprToC(a, scope); var y := ExprToC(b, scope);
      (ExprToC(ItemRef(a, b), scope).Ok? <==> x.Ok? && y.Ok?)
      && (x.Ok? && y.Ok? ==> ExprToC(ItemRef(a, b), scope) == Ok(Text(Format(x.value) + "[" + Format(y.value) + "]")))
  {
  }

  /** A reference resolves when it is unattached or its slot still designates a declaration. */
  predicate Resolves(b: Expr, scope: Scope) {
    b.Bound? && (b.slot.None? || Lookup(scope, b.slot.value, b.id).Some?)
  }

  predicate AllResolve(rs: seq<Expr>, scope: Scope) {
    forall i :: 0 <= i < |rs| ==> Resolves(rs[i], scope)
  }

  lemma AllResolveAppend(a: seq<Expr>, b: seq<Expr>, scope: Scope)
    ensures AllResolve(a + b, scope) <==> AllResolve(a, scope) && AllResolve(b, scope)
  {
    if AllResolve(a + b, scope) {
      forall i | 0 <= i < |a| ensures Resolves(a[i], scope) {
        assert (a + b)[i] == a[i];
      }
      forall i | 0 <= i < |b| ensures Resolves(b[i], scope) {
        assert (a + b)[|a| + i] == b[i];
      }
    }
  }

  /** Whether an address-of appears anywhere in the expression. */
  predicate HasAddrOf(e: Expr)
    decreases e
  {
    match e
    case MemberRef(a, m) => HasAddrOf(a) || HasAddrOf(m)
    case ItemRef(a, i) => HasAddrOf(a) || HasAddrOf(i)
    case Indirect(x) => HasAddrOf(x)
    case AddrOf(_) => true
    case _ => false
  }

  /** How rendering fails: only with KeyError, for a reference whose declaration is gone, or
      with TypeError, for an address taken of a number. An expression whose references all
      resolve renders unless some `&` meets a number, and one without `&` always renders. */
  lemma {:induction false} RenderingFaults(e: Expr, scope: Scope)
    ensures ExprToC(e, scope).Err? ==> ExprToC(e, scope).error == KeyError || ExprToC(e, scope).error == TypeError
    ensures ExprToC(e, scope).Ok? ==> AllResolve(Refs(e), scope)
    ensures AllResolve(Refs(e), scope) && ExprToC(e, scope).Err? ==> ExprToC(e, scope).error == TypeError
    ensures AllResolve(Refs(e), scope) && !HasAddrOf(e) ==> ExprToC(e, scope).Ok?
    decreases e
  {
    match e
    case Bound(_, _) =>
      assert Refs(e) == [e];
      assert Refs(e)[0] == e;
      if Resolves(e, scope) {
        forall i | 0 <= i < |Refs(e)| ensures Resolves(Refs(e)[i], scope) {
          assert i == 0;
        }
      }
    case MemberRef(a, m) =>
      RenderingFaults(a, scope);
      RenderingFaults(m, scope);
      AllResolveAppend(Refs(a), Refs(m), scope);
    case ItemRef(a, i) =>
      RenderingFaults(a, scope);
      RenderingFaults(i, scope);
      AllResolveAppend(Refs(a), Refs(i), scope);
    case Indirect(x) =>
      RenderingFaults(x, scope);
    case AddrOf(x) =>
      RenderingFaults(x, scope);
    case _ =>
  }

  // ---------------------------------------------------------------- string literals

  /** Python's `s[n:]`: a negative `n` counts from the end, and both ends are clipped. */
  function SliceFrom(bs: seq<byte>, n: int): (r: seq<byte>)
    ensures |r| <= |bs|
    ensures r == bs[|bs| - |r|..]
    ensures 0 <= n <= |bs| ==> r == bs[n..]
    ensures n < 0 ==> |r| == (if -n <= |bs| then -n else |bs|)
    ensures n > |bs| ==> r == []
  {
    if n < 0 then (if |bs| + n < 0 then bs else bs[|bs| + n..])
    else if n > |bs| then []
    else bs[n..]
  }

  /** `s.rstrip('\0')`. */
  function StripNuls(bs: seq<byte>): (r: seq<byte>)
    ensures |r| <= |bs| && r == bs[..|r|]
    ensures |r| > 0 ==> r[|r| - 1] != 0
    ensures forall i :: |r| <= i < |bs| ==> bs[i] == 0
    decreases |bs|
  {
    if |bs| == 0 || bs[|bs| - 1] != 0 then bs else StripNuls(bs[..|bs| - 1])
  }

  /** `string_literal` of `&x`: for `&"..."[n]` with a string constant and an integer constant
      index, the bytes from `n` on without trailing NULs; for anything else, None. */
  function LiteralOf(x: Expr): (r: Option<seq<byte>>)
    ensures r.Some? <==> x.ItemRef? && x.base.Const? && x.base.c.CString? && x.index.Const? && x.index.c.CInteger?
    ensures r.Some? ==> r.value == StripNuls(SliceFrom(x.base.c.bytes, x.index.c.number))
  {
    match x
    case ItemRef(Const(CString(_, bs)), Const(CInteger(_, n))) => Some(StripNuls(SliceFrom(bs, n)))
    case _ => None
  }

  /** `e.string_literal()`: only an address-of expression has the method. */
  function StringLiteralOf(e: Expr): (r: Result<Option<seq<byte>>, Fault>)
    ensures r.Ok? <==> e.AddrOf?
    ensures r.Ok? ==> r.value == LiteralOf(e.of)
  {
    if e.AddrOf? then Ok(LiteralOf(e.of)) else Err(AttributeError)
  }

  /** `&"abc\0\0"[1]` is `bc`: the suffix from the index, with the NUL padding removed. */
  lemma LiteralExample(ty: Type, ity: Type, bs: seq<byte>)
    requires bs == [0x61, 0x62, 0x63, 0, 0]
    ensures LiteralOf(ItemRef(Const(CString(ty, bs)), Const(CInteger(ity, 1)))) == Some([0x62, 0x63])
  {
    var tail := bs[1..];
    assert SliceFrom(bs, 1) == tail;
    assert tail[..|tail| - 1] == [0x62, 0x63, 0];
    assert tail[..|tail| - 1][..2] == [0x62, 0x63];
    assert StripNuls(tail) == StripNuls([0x62, 0x63, 0]) == StripNuls([0x62, 0x63]);
  }

  /** A negative index counts from the end: `&"abc"[-1]` is `c`. */
  lemma NegativeIndexExample(ty: Type, ity: Type, bs: seq<byte>)
    requires bs == [0x61, 0x62, 0x63]
    ensures LiteralOf(ItemRef(Const(CString(ty, bs)), Const(CInteger(ity, -1)))) == Some([0x63])
  {
    assert SliceFrom(bs, -1) == bs[2..] == [0x63];
  }

  // ---------------------------------------------------------------- types of expressions

  /** The element type of an array type, following a table link to the array object; any
      other type has no element type (AttributeError). */
  function ElementType(t: Type, table: map<int, Type>): (r: Result<Type, Fault>)
    ensures t.Array? ==> r == Ok(t.elem)
    ensures r.Ok? ==> t.Array? || (t.Link? && t.id in table && table[t.id].Array?)
  {
    match t
    case Array(_, _, elem, _) => Ok(elem)
    case Link(id) =>
      if id !in table then Err(KeyError)
      else if table[id].Array? then Ok(table[id].elem) else Err(AttributeError)
    case _ => Err(AttributeError)
  }

  /** The type of the declaration a reference is attached to; an unattached reference has
      none (`None.type` raises AttributeError). */
  function RefType(b: Expr, scope: Scope): (r: Result<Type, Fault>)
    ensures !b.Bound? || b.slot.None? ==> r == Err(AttributeError)
    ensures r.Ok? ==> (b.Bound? && b.slot.Some? && Lookup(scope, b.slot.value, b.id).Some?
      && r.value == Lookup(scope, b.slot.value, b.id).value.ty)
  {
    if !b.Bound? || b.slot.None? then Err(AttributeError)
    else
      var d :- Lookup(scope, b.slot.value, b.id).ToResult(KeyError);
      Ok(d.ty)
  }

  /** `get_type`. Operators, `__result` and unattached references have no type. */
  function TypeOf(e: Expr, scope: Scope, table: map<int, Type>): (r: Result<Type, Fault>)
    decreases e
  {
    match e
    case Bound(_, _) => RefType(e, scope)
    case MemberRef(_, m) => RefType(m, scope)
    case ItemRef(a, _) =>
      var at :- TypeOf(a, scope, table);
      ElementType(at, table)
    case Indirect(x) => TypeOf(x, scope, table)
    case AddrOf(x) =>
      var lit := LiteralOf(x);
      if lit.Some? && |lit.value| > 0 then ConstantType(x.base.c)
      else
        var t :- TypeOf(x, scope, table);
        Ok(Pointer(0, None, t))
    case Const(c) => ConstantType(c)
    case VoidExpr => Ok(Void)
    case _ => Err(AttributeError)
  }

  /** `a[i]` has the element type of `a`'s type; `*x` has `x`'s own type, unchanged. */
  lemma ItemAndIndirectTypes(a: Expr, i: Expr, x: Expr, scope: Scope, table: map<int, Type>)
    ensures TypeOf(a, scope, table).Ok? && TypeOf(a, scope, table).value.Array? ==>
      TypeOf(ItemRef(a, i), scope, table) == Ok(TypeOf(a, scope, table).value.elem)
    ensures TypeOf(ItemRef(a, i), scope, table).Ok? ==> TypeOf(a, scope, table).Ok?
    ensures TypeOf(Indirect(x), scope, table) == TypeOf(x, scope, table)
  {
  }

  /** `&x` is a pointer to `x`'s type, except for a non-empty string literal `&"..."[n]`,
      whose type is the string constant's own (a pointer to the array's element type). */
  lemma AddrOfType(x: Expr, scope: Scope, table: map<int, Type>)
    ensures var lit := LiteralOf(x);
      lit.Some? && |lit.value| > 0 ==>
        TypeOf(AddrOf(x), scope, table) == ConstantType(x.base.c)
        && (x.base.c.ty.Array? ==> TypeOf(AddrOf(x), scope, table) == Ok(Pointer(0, None, x.base.c.ty.elem)))
    ensures var lit := LiteralOf(x);
      !(lit.Some? && |lit.value| > 0) && TypeOf(x, scope, table).Ok? ==>
        TypeOf(AddrOf(x), scope, table) == Ok(Pointer(0, None, TypeOf(x, scope, table).value))
  {
  }

  /** An empty literal (`&"ab"[2]`) is false, so `get_type` takes the pointer branch and asks
      the item reference for its type; a string constant's type is a pointer, which has no
      element type, so the call fails. */
  lemma EmptyLiteralHasNoType(ty: Type, ity: Type, scope: Scope, table: map<int, Type>)
    requires ty.Array?
    ensures TypeOf(AddrOf(ItemRef(Const(CString(ty, [0x61, 0x62])), Const(CInteger(ity, 2)))), scope, table) == Err(AttributeError)
  {
    var bs: seq<byte> := [0x61, 0x62];
    var x := ItemRef(Const(CString(ty, bs)), Const(CInteger(ity, 2)));
    assert SliceFrom(bs, 2) == [];
    assert LiteralOf(x) == Some([]);
    assert TypeOf(x.base, scope, table) == Ok(Pointer(0, None, ty.elem));
    assert TypeOf(x, scope, table) == Err(AttributeError);
  }

  // ---------------------------------------------------------------- tag dispatch

  /** The C text of a binary operator tag. */
  function BinaryOperatorText(tag: string): Option<string> {
    match tag
    case "plus" => Some("+")
    case "minus" => Some("-")
    case "multiply" => Some("*")
    case "pointer-offset" => Some("+")
    case "division-truncate" => Some("/")
    case "division-ceil" => Some("/")
    case "division-floor" => Some("//")
    case "division-round" => Some("/")
    case "division-exact" => Some("/")
    case "modulo-truncate" => Some("%")
    case "modulo-ceil" => Some("%")
    case "modulo-floor" => Some("%")
    case "modulo-round" => Some("%")
    case "shift-left" => Some("<<")
    case "shift-right" => Some(">>")
    case "rotate-left" => Some("<<")
    case "rotate-right" => Some(">>")
    case "bitwise-or" => Some("|")
    case "bitwise-xor" => Some("^")
    case "bitwise-and" => Some("&")
    case "logical-short-and" => Some("&&")
    case "logical-short-or" => Some("||")
    case "logical-and" => Some("&&")
    case "logical-or" => Some("||")
    case "logical-xor" => Some("^^")
    case "less-than" => Some("<")
    case "less-than-or-equal" => Some("<=")
    case "greater-than" => Some(">")
    case "greater-than-or-equal" => Some(">=")
    case "equal" => Some("==")
    case "not-equal" => Some("!=")
    case "min" => Some("min")
    case "max" => Some("max")
    case _ => None
  }

  /** The C text of a unary operator tag. */
  function UnaryOperatorText(tag: string): Option<string> {
    match tag
    case "float" => Some("(float)")
    case "fixed-point-truncate" => Some("(int)")
    case "negate" => Some("-")
    case "absolute" => Some("abs")
    case "bitwise-not" => Some("not")
    case "logical-not" => Some("not")
    case "nop-convert" => Some("(reinterpret)")
    case "exception-pointer" => Some("???")
    case "convert" => Some("(convert)")
    case "address-of" => Some("&")
    case _ => None
  }

  /** The tags `result_from_xml` accepts. */
  predicate IsLvalueTag(tag: string) {
    tag in {"bound", "bound-parameter", "member-ref", "item-ref", "indirection", "result"}
  }

  datatype LvalueKind = BoundKind | MemberRefKind | ItemRefKind | IndirectKind | ResultKind

  /** `result_from_xml`'s choice; a tag outside the lvalue set fails its assertion. */
  function LvalueKindOf(tag: string): (r: Result<LvalueKind, Fault>)
    ensures r.Ok? <==> IsLvalueTag(tag)
    ensures r == Ok(BoundKind) <==> tag == "bound" || tag == "bound-parameter"
  {
    match tag
    case "bound" => Ok(BoundKind)
    case "bound-parameter" => Ok(BoundKind)
    case "member-ref" => Ok(MemberRefKind)
    case "item-ref" => Ok(ItemRefKind)
    case "indirection" => Ok(IndirectKind)
    case "result" => Ok(ResultKind)
    case _ => Err(AssertionError)
  }

  /** What `expression_from_xml` does with a tag: decode an lvalue, convert a constant, build
      an operator, an address-of or `(void)`, descend through a `function` wrapper, or give
      up and return a placeholder reference with id 0. */
  datatype ExprKind = Lvalue(kind: LvalueKind) | ConstantKind | Binary(text: string) | Unary(text: string)
    | AddrOfKind | VoidKind | DescendKind | Placeholder

  function ExprKindOf(tag: string): (r: ExprKind)
    ensures IsLvalueTag(tag) <==> r.Lvalue?
    ensures r.Binary? <==> BinaryOperatorText(tag).Some?
    ensures r.Unary? <==> UnaryOperatorText(tag).Some?
  {
    LvalueTagsAreNotOperators(tag);
    OperatorTablesDisjoint(tag);
    if IsLvalueTag(tag) then Lvalue(LvalueKindOf(tag).value)
    else if tag == "constant" then ConstantKind
    else if BinaryOperatorText(tag).Some? then Binary(BinaryOperatorText(tag).value)
    else if UnaryOperatorText(tag).Some? then Unary(UnaryOperatorText(tag).value)
    else if tag == "addr-of" then AddrOfKind
    else if tag == "void" then VoidKind
    else if tag == "function" then DescendKind
    else Placeholder
  }

  /** No lvalue tag, and not `constant`, is a key of either operator table. */
  lemma LvalueTagsAreNotOperators(tag: string)
    ensures IsLvalueTag(tag) || tag == "constant" ==>
      BinaryOperatorText(tag).None? && UnaryOperatorText(tag).None?
  {
  }

  /** The binary and the unary operator tables share no key. */
  lemma OperatorTablesDisjoint(tag: string)
    ensures BinaryOperatorText(tag).None? || UnaryOperatorText(tag).None?
  {
  }

  /** The expression an unrecognised tag decodes to. */
  const PlaceholderExpr: Expr := Bound(0, None)

  /** An unknown tag does not fail: it becomes a reference to id 0 that renders as `U.0`
      and has no type. */
  lemma UnknownTagIsPlaceholder(tag: string, scope: Scope, table: map<int, Type>)
    requires !IsLvalueTag(tag) && BinaryOperatorText(tag).None? && UnaryOperatorText(tag).None?
    requires tag !in {"constant", "addr-of", "void", "function"}
    ensures ExprKindOf(tag) == Placeholder
    ensures ExprToC(PlaceholderExpr, scope) == Ok(Text("U.0"))
    ensures TypeOf(PlaceholderExpr, scope, table) == Err(AttributeError)
  {
    assert IntToString(0) == [DigitChar(0)] == "0";
    assert ExprToC(Bound(0, None), scope) == Ok(Text("U." + IntToString(0)));
    assert "U." + "0" == "U.0";
  }
}
