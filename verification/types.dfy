/** The backend's C type model: the type kinds, `compare` and its six results, aggregate
    resolution against the unit's id-to-aggregate table, and the C rendering of types,
    bindings and declarations.

    Aggregates may refer to themselves (a structure holding a pointer to its own kind), so a
    resolved reference is not copied in: `Link(id)` stands for "the object the table holds
    under `id`", exactly the object Python's resolution puts in its place. */
module Types {
  import opened Wrappers
  import opened Text
  import opened Misc

  // ---------------------------------------------------------------- declarations

  /** A name binding; `folded` is the constant a temporary was folded to (its rendered value),
      absent until folding happens. */
  datatype Binding = Binding(id: int, name: Option<string>, folded: Option<Rendered>)

  /** A declaration: where it is, what it binds, its type, and (after `attach_bound_names`)
      the declaration it was matched with. */
  datatype Decl = Decl(location: Option<Location>, binding: Binding, ty: Type, attached: Option<Decl>)

  // ---------------------------------------------------------------- types

  /** The type kinds. Only integers record constness; every other kind keeps the default
      `False`. `Union` exists as a kind, but decoding a `union` element builds a `Structure`. */
  datatype Type =
    | Integer(id: int, name: Option<string>, constant: bool, precision: int, unsigned: bool, min: Option<int>, max: Option<int>)
    | Enum(id: int, name: Option<string>)
    | Float(id: int, name: Option<string>, precision: int)
    | Boolean(id: int)
    | Function(id: int, name: Option<string>, result: Type, arguments: seq<Type>)
    | Void
    | Pointer(id: int, name: Option<string>, of: Type)
    | AggregateRef(id: int)
    | Structure(id: int, name: Option<string>, members: seq<Decl>)
    | Union(id: int, name: Option<string>, members: seq<Decl>)
    | Array(id: int, name: Option<string>, elem: Type, domain: Option<Type>)
    | Link(id: int)

  /** The `id` attribute every type object carries (`Void` is built with 0). */
  function TypeId(t: Type): int {
    match t
    case Void => 0
    case Integer(id, _, _, _, _, _, _) => id
    case Enum(id, _) => id
    case Float(id, _, _) => id
    case Boolean(id) => id
    case Function(id, _, _, _) => id
    case Pointer(id, _, _) => id
    case AggregateRef(id) => id
    case Structure(id, _, _) => id
    case Union(id, _, _) => id
    case Array(id, _, _, _) => id
    case Link(id) => id
  }

  function Constness(t: Type): bool {
    t.Integer? && t.constant
  }

  predicate NameTruthy(n: Option<string>) {
    n.Some? && |n.value| > 0
  }

  // ---------------------------------------------------------------- comparison

  /** The six results of `compare`. */
  datatype TypeCompare = Equal | ZeroExtend | SignExtend | Truncate | FloatResize | Incompatible

  /** Only `Equal` promises the same memory layout. */
  predicate HasSameMemoryLayout(c: TypeCompare) {
    match c
    case Equal => true
    case _ => false
  }

  /** `TypeBase.__eq__`: a non-zero id, the same id, and the same constness. */
  predicate IdentityEq(a: Type, b: Type) {
    TypeId(a) != 0 && TypeId(a) == TypeId(b) && Constness(a) == Constness(b)
  }

  /** `Integer.construct(precision, unsigned)`: an anonymous integer with id 0. */
  function IntegerConstruct(precision: int, unsigned: bool): (t: Type)
    ensures t.Integer? && t.precision == precision && t.unsigned == unsigned
    ensures TypeId(t) == 0 && !NameTruthy(t.name) && !t.constant
  {
    Integer(0, None, false, precision, unsigned, None, None)
  }

  /** The comparison every kind without its own `compare` inherits: by id alone. */
  function DefaultCompare(a: Type, b: Type): TypeCompare {
    if TypeId(a) == TypeId(b) then Equal else Incompatible
  }

  function CompareInteger(a: Type, b: Type): (c: TypeCompare)
    requires a.Integer?
  {
    if b.Boolean? then ZeroExtend
    else if b.Float? then FloatResize
    else if !b.Integer? then Incompatible
    else if a.precision == b.precision && a.unsigned == b.unsigned then Equal
    else if a.unsigned then (if a.precision > b.precision then Truncate else ZeroExtend)
    else (if a.precision > b.precision then Truncate else SignExtend)
  }

  /** `a.compare(b)`, dispatched on the kind of `a`. `Function.compare` calls the default but
      drops its result, so it answers `None`; a pointer comparison hands the question to the
      pointees and so answers `None` when the left pointee is a function. */
  function Compare(a: Type, b: Type): (r: Option<TypeCompare>)
    ensures a.Function? ==> r == None
    ensures (a.Enum? || a.Structure? || a.Union? || a.Array? || a.AggregateRef? || a.Link?) ==>
      r == Some(if TypeId(a) == TypeId(b) then Equal else Incompatible)
    ensures a.Void? ==> r == Some(if b.Void? then Equal else Incompatible)
    ensures a.Pointer? && !b.Pointer? ==> r == Some(Incompatible)
    ensures a.Pointer? && b.Pointer? ==> r == Compare(a.of, b.of)
    decreases a
  {
    match a
    case Integer(_, _, _, _, _, _, _) => Some(CompareInteger(a, b))
    case Float(_, _, precision) =>
      if b.Integer? then Some(FloatResize)
      else if !b.Float? then Some(Incompatible)
      else if precision == b.precision then Some(Equal)
      else Some(FloatResize)
    case Boolean(_) =>
      if b.Boolean? then Some(Equal)
      else if b.Integer? || b.Float? then Some(CompareInteger(IntegerConstruct(8, true), b))
      else Some(Incompatible)
    case Function(_, _, _, _) => None
    case Void => Some(if b.Void? then Equal else Incompatible)
    case Pointer(_, _, of) => if b.Pointer? then Compare(of, b.of) else Some(Incompatible)
    case _ => Some(DefaultCompare(a, b))
  }

  /** Integer against integer is `Equal` exactly when precision and signedness both match. */
  lemma IntegerEqualIff(a: Type, b: Type)
    requires a.Integer? && b.Integer?
    ensures Compare(a, b) == Some(Equal) <==> (a.precision == b.precision && a.unsigned == b.unsigned)
  {
  }

  /** Otherwise the wider side truncates, and the narrower side extends by its own signedness;
      so between two integers of different precision exactly one direction truncates. */
  lemma IntegerWidening(a: Type, b: Type)
    requires a.Integer? && b.Integer?
    requires !(a.precision == b.precision && a.unsigned == b.unsigned)
    ensures Compare(a, b) == Some(Truncate) <==> a.precision > b.precision
    ensures a.precision <= b.precision ==> Compare(a, b) == Some(if a.unsigned then ZeroExtend else SignExtend)
    ensures a.precision != b.precision ==> (Compare(a, b) == Some(Truncate) <==> Compare(b, a) != Some(Truncate))
  {
  }

  /** Integer to boolean zero-extends, integer and float resize into each other, float against
      float is `Equal` exactly at the same precision, and an integer or a float against any other
      kind is incompatible. */
  lemma ScalarCompare(a: Type, b: Type)
    ensures a.Integer? && b.Boolean? ==> Compare(a, b) == Some(ZeroExtend)
    ensures (a.Integer? && b.Float?) || (a.Float? && b.Integer?) ==> Compare(a, b) == Some(FloatResize)
    ensures a.Float? && b.Float? ==> Compare(a, b) == Some(if a.precision == b.precision then Equal else FloatResize)
    ensures a.Integer? && !(b.Integer? || b.Float? || b.Boolean?) ==> Compare(a, b) == Some(Incompatible)
    ensures a.Float? && !(b.Integer? || b.Float?) ==> Compare(a, b) == Some(Incompatible)
  {
  }

  /** A boolean is `Equal` to a boolean, compares to integers and floats exactly as an unsigned
      8-bit integer would (so it is `Equal` to `uint8`), and is incompatible with anything else. */
  lemma BooleanCompare(a: Type, b: Type)
    requires a.Boolean?
    ensures b.Boolean? ==> Compare(a, b) == Some(Equal)
    ensures b.Integer? || b.Float? ==> Compare(a, b) == Compare(IntegerConstruct(8, true), b)
    ensures !(b.Boolean? || b.Integer? || b.Float?) ==> Compare(a, b) == Some(Incompatible)
    ensures b.Integer? && b.precision == 8 && b.unsigned ==> Compare(a, b) == Some(Equal)
  {
  }

  /** The kinds without a `compare` of their own answer `Equal` for equal ids whatever the
      constness, whereas `__eq__` also wants a non-zero id and equal constness. */
  lemma DefaultCompareIgnoresConstness(a: Type, b: Type)
    requires a.Enum? || a.Structure? || a.Union? || a.Array? || a.AggregateRef? || a.Link?
    ensures Compare(a, b) == Some(Equal) <==> TypeId(a) == TypeId(b)
    ensures IdentityEq(a, b) ==> Compare(a, b) == Some(Equal)
    ensures TypeId(a) == 0 && TypeId(b) == 0 ==> Compare(a, b) == Some(Equal) && !IdentityEq(a, b)
  {
  }

  /** `has_same_memory_layout` holds exactly for `Equal`. */
  lemma SameLayoutIffEqual(c: TypeCompare)
    ensures HasSameMemoryLayout(c) <==> c == Equal
  {
  }

  /** The pointer depth of a type, to state what pointer comparison reduces to. */
  function PointerDepth(t: Type): nat {
    if t.Pointer? then 1 + PointerDepth(t.of) else 0
  }

  function Pointee(t: Type, n: nat): (p: Type)
    requires n <= PointerDepth(t)
  {
    if n == 0 then t else Pointee(t.of, n - 1)
  }

  /** Comparing two pointers strips the same number of pointer levels from both sides and then
      compares what is left: the first level where either side stops being a pointer decides. */
  lemma {:induction false} PointerCompareStrips(a: Type, b: Type)
    ensures var n := if PointerDepth(a) <= PointerDepth(b) then PointerDepth(a) else PointerDepth(b);
      Compare(a, b) == Compare(Pointee(a, n), Pointee(b, n))
    decreases a
  {
    if a.Pointer? && b.Pointer? {
      PointerCompareStrips(a.of, b.of);
    }
  }

  /** `compare` gives no answer only when the left side is, under equally many pointers on both
      sides, a function type. */
  lemma {:induction false} CompareNoneOnlyForFunctions(a: Type, b: Type)
    ensures Compare(a, b) == None <==>
      var n := if PointerDepth(a) <= PointerDepth(b) then PointerDepth(a) else PointerDepth(b);
      Pointee(a, n).Function?
    decreases a
  {
    PointerCompareStrips(a, b);
    if a.Pointer? && b.Pointer? {
      CompareNoneOnlyForFunctions(a.of, b.of);
    }
  }

  // ---------------------------------------------------------------- aggregates

  /** `Array.decompose_to_pointer`: an anonymous pointer (id 0) to the element type; only
      arrays have it, so any other receiver raises AttributeError. */
  function DecomposeToPointer(t: Type): (r: Result<Type, Fault>)
    ensures r.Ok? <==> t.Array?
    ensures r.Ok? ==> r.value.Pointer? && r.value.of == t.elem && TypeId(r.value) == 0
  {
    if t.Array? then Ok(Pointer(0, None, t.elem)) else Err(AttributeError)
  }

  /** Positions that resolution visits: function result and arguments, pointees, the members
      of structures and unions, and array elements (not array domains). */
  predicate RefsIn(t: Type, ids: set<int>) {
    match t
    case AggregateRef(id) => id in ids
    case Function(_, _, result, arguments) =>
      RefsIn(result, ids) && (forall i :: 0 <= i < |arguments| ==> RefsIn(arguments[i], ids))
    case Pointer(_, _, of) => RefsIn(of, ids)
    case Structure(_, _, members) => forall i :: 0 <= i < |members| ==> RefsIn(members[i].ty, ids)
    case Union(_, _, members) => forall i :: 0 <= i < |members| ==> RefsIn(members[i].ty, ids)
    case Array(_, _, elem, _) => RefsIn(elem, ids)
    case _ => true
  }

  /** No unresolved reference in any position resolution visits. */
  predicate Resolved(t: Type) {
    RefsIn(t, {})
  }

  /** `resolve_aggregates(type, aggregates)`: an `AggregateRef` becomes the table's object
      (asserting its id is present); other kinds have their interior resolved in place. */
  function ResolveAggregates(t: Type, table: map<int, Type>): (r: Result<Type, Fault>)
    ensures r.Ok? <==> RefsIn(t, table.Keys)
    ensures r.Ok? ==> Resolved(r.value)
    ensures r.Ok? ==> TypeId(r.value) == TypeId(t)
    ensures t.AggregateRef? && r.Ok? ==> r.value == Link(t.id)
    ensures r.Err? ==> r.error == AssertionError
    decreases t
  {
    match t
    case AggregateRef(id) => if id in table then Ok(Link(id)) else Err(AssertionError)
    case Function(id, name, result, arguments) =>
      var rs :- ResolveAggregates(result, table);
      var args :- ResolveAll(arguments, table);
      Ok(Function(id, name, rs, args))
    case Pointer(id, name, of) =>
      var o :- ResolveAggregates(of, table);
      Ok(Pointer(id, name, o))
    case Structure(id, name, members) =>
      var ms :- ResolveDecls(members, table);
      Ok(Structure(id, name, ms))
    case Union(id, name, members) =>
      var ms :- ResolveDecls(members, table);
      Ok(Union(id, name, ms))
    case Array(id, name, elem, domain) =>
      var e :- ResolveAggregates(elem, table);
      Ok(Array(id, name, e, domain))
    case _ => Ok(t)
  }

  function ResolveAll(ts: seq<Type>, table: map<int, Type>): (r: Result<seq<Type>, Fault>)
    ensures r.Ok? <==> forall i :: 0 <= i < |ts| ==> RefsIn(ts[i], table.Keys)
    ensures r.Ok? ==> |r.value| == |ts| && forall i :: 0 <= i < |ts| ==> Resolved(r.value[i])
    ensures r.Err? ==> r.error == AssertionError
    decreases ts
  {
    if |ts| == 0 then Ok([])
    else
      var h :- ResolveAggregates(ts[0], table);
      var rest :- ResolveAll(ts[1..], table);
      assert forall i :: 1 <= i < |ts| ==> ts[1..][i - 1] == ts[i];
      Ok([h] + rest)
  }

  /** `Decl.resolve_aggregates` over a list of declarations. */
  function ResolveDecls(ds: seq<Decl>, table: map<int, Type>): (r: Result<seq<Decl>, Fault>)
    ensures r.Ok? <==> forall i :: 0 <= i < |ds| ==> RefsIn(ds[i].ty, table.Keys)
    ensures r.Ok? ==> |r.value| == |ds| && forall i :: 0 <= i < |ds| ==> Resolved(r.value[i].ty)
    ensures r.Ok? ==> forall i :: 0 <= i < |ds| ==> r.value[i].binding == ds[i].binding
    ensures r.Err? ==> r.error == AssertionError
    decreases ds
  {
    if |ds| == 0 then Ok([])
    else
      var d :- ResolveDecl(ds[0], table);
      var rest :- ResolveDecls(ds[1..], table);
      assert forall i :: 1 <= i < |ds| ==> ds[1..][i - 1] == ds[i];
      Ok([d] + rest)
  }

  /** `Decl.resolve_aggregates`: the declaration's type is resolved; nothing else changes. */
  function ResolveDecl(d: Decl, table: map<int, Type>): (r: Result<Decl, Fault>)
    ensures r.Ok? <==> RefsIn(d.ty, table.Keys)
    ensures r.Ok? ==> Resolved(r.value.ty) && r.value == d.(ty := r.value.ty)
    ensures r.Err? ==> r.error == AssertionError
  {
    var t :- ResolveAggregates(d.ty, table);
    Ok(d.(ty := t))
  }

  lemma {:induction false} RefsInEmpty(t: Type, ids: set<int>)
    requires Resolved(t)
    ensures RefsIn(t, ids)
    decreases t
  {
    match t
    case Function(_, _, result, arguments) =>
      RefsInEmpty(result, ids);
      forall i | 0 <= i < |arguments| ensures RefsIn(arguments[i], ids) {
        RefsInEmpty(arguments[i], ids);
      }
    case Pointer(_, _, of) => RefsInEmpty(of, ids);
    case Structure(_, _, members) =>
      forall i | 0 <= i < |members| ensures RefsIn(members[i].ty, ids) {
        RefsInEmpty(members[i].ty, ids);
      }
    case Union(_, _, members) =>
      forall i | 0 <= i < |members| ensures RefsIn(members[i].ty, ids) {
        RefsInEmpty(members[i].ty, ids);
      }
    case Array(_, _, elem, _) => RefsInEmpty(elem, ids);
    case _ =>
  }

  /** A type with no unresolved reference comes back unchanged, whatever the table. */
  lemma {:induction false} ResolveResolvedIsIdentity(t: Type, table: map<int, Type>)
    requires Resolved(t)
    ensures ResolveAggregates(t, table) == Ok(t)
    decreases t
  {
    RefsInEmpty(t, table.Keys);
    match t
    case Function(id, name, result, arguments) =>
      ResolveResolvedIsIdentity(result, table);
      ResolveAllResolvedIsIdentity(arguments, table);
    case Pointer(_, _, of) => ResolveResolvedIsIdentity(of, table);
    case Structure(_, _, members) => ResolveDeclsResolvedIsIdentity(members, table);
    case Union(_, _, members) => ResolveDeclsResolvedIsIdentity(members, table);
    case Array(_, _, elem, _) => ResolveResolvedIsIdentity(elem, table);
    case _ =>
  }

  lemma {:induction false} ResolveAllResolvedIsIdentity(ts: seq<Type>, table: map<int, Type>)
    requires forall i :: 0 <= i < |ts| ==> Resolved(ts[i])
    ensures ResolveAll(ts, table) == Ok(ts)
    decreases ts
  {
    if |ts| > 0 {
      ResolveResolvedIsIdentity(ts[0], table);
      ResolveAllResolvedIsIdentity(ts[1..], table);
      assert ts == [ts[0]] + ts[1..];
    }
  }

  lemma {:induction false} ResolveDeclsResolvedIsIdentity(ds: seq<Decl>, table: map<int, Type>)
    requires forall i :: 0 <= i < |ds| ==> Resolved(ds[i].ty)
    ensures ResolveDecls(ds, table) == Ok(ds)
    decreases ds
  {
    if |ds| > 0 {
      ResolveDeclResolvedIsIdentity(ds[0], table);
      ResolveDeclsResolvedIsIdentity(ds[1..], table);
      assert ds == [ds[0]] + ds[1..];
    }
  }

  lemma {:induction false} ResolveDeclResolvedIsIdentity(d: Decl, table: map<int, Type>)
    requires Resolved(d.ty)
    ensures ResolveDecl(d, table) == Ok(d)
    decreases d
  {
    ResolveResolvedIsIdentity(d.ty, table);
  }

  /** Resolution is idempotent: resolving a resolved type again changes nothing. */
  lemma ResolveIdempotent(t: Type, table: map<int, Type>)
    requires ResolveAggregates(t, table).Ok?
    ensures ResolveAggregates(ResolveAggregates(t, table).value, table) == ResolveAggregates(t, table)
  {
    ResolveResolvedIsIdentity(ResolveAggregates(t, table).value, table);
  }

  /** The unit's type table holds aggregates only, each under its own id. */
  predicate AggregateTable(table: map<int, Type>) {
    forall id :: id in table ==>
      (table[id].Structure? || table[id].Union? || table[id].Array?) && TypeId(table[id]) == id
  }

  // ---------------------------------------------------------------- rendering

  /** `Binding.to_c`: the name if it is non-empty, else the folded value if it is truthy, else
      `__tmp_<id>`. */
  function BindingToC(b: Binding): (r: Rendered)
    ensures NameTruthy(b.name) ==> r == Text(b.name.value)
    ensures !NameTruthy(b.name) && b.folded.Some? && Truthy(b.folded.value) ==> r == b.folded.value
    ensures Truthy(r)
  {
    if NameTruthy(b.name) then Text(b.name.value)
    else if b.folded.Some? && Truthy(b.folded.value) then b.folded.value
    else Text("__tmp_" + IntToString(b.id))
  }

  /** The fallback spelling of an unnamed, unfolded binding. */
  lemma TemporarySpelling(b: Binding)
    requires !NameTruthy(b.name) && !(b.folded.Some? && Truthy(b.folded.value))
    ensures BindingToC(b).Text? && IsPrefix("__tmp_", BindingToC(b).s)
    ensures ParseInt(BindingToC(b).s[6..]) == Some(b.id)
  {
    ParseIntOfIntToString(b.id);
    assert BindingToC(b).s[6..] == IntToString(b.id);
  }

  /** `Decl.is_temporary`: the binding has no name at all (an empty name is not temporary). */
  predicate IsTemporary(d: Decl) {
    d.binding.name.None?
  }

  /** `Decl.attach_bound_names`: records the table's declaration for this binding id when
      there is one; otherwise nothing changes. */
  function AttachBoundNames(d: Decl, decls: map<int, Decl>): (r: Decl)
    ensures d.binding.id in decls ==> r == d.(attached := Some(decls[d.binding.id]))
    ensures d.binding.id !in decls ==> r == d
  {
    if d.binding.id in decls then d.(attached := Some(decls[d.binding.id])) else d
  }

  /** `Integer.to_c`: `const ` when constant, then the name or `[u]int<precision>`. */
  function IntegerToC(t: Type): (s: string)
    requires t.Integer?
    ensures t.constant ==> IsPrefix("const ", s)
    ensures !NameTruthy(t.name) ==> IsPrefix((if t.constant then "const " else "") + (if t.unsigned then "u" else "") + "int", s)
  {
    var cc := if t.constant then "const " else "";
    if NameTruthy(t.name) then cc + t.name.value
    else cc + (if t.unsigned then "u" else "") + "int" + IntToString(t.precision)
  }

  /** `Array.to_c`: the element type then `[max]`, or `[]` unless the domain knows both bounds.
      An array without a domain, or whose domain is not an integer type, raises AttributeError. */
  function ArraySuffix(domain: Option<Type>): (r: Result<string, Fault>)
    ensures r.Ok? <==> domain.Some? && domain.value.Integer?
  {
    if domain.None? || !domain.value.Integer? then Err(AttributeError)
    else if domain.value.min.Some? && domain.value.max.Some? then Ok(IntToString(domain.value.max.value))
    else Ok("")
  }

  /** `to_c` of a type. `fuel` bounds how many table links are followed; it runs out only on a
      table whose unnamed aggregates contain themselves, where Python would recurse forever. */
  function TypeToC(t: Type, table: map<int, Type>, fuel: nat): (r: Result<Rendered, Fault>)
    ensures r.Ok? && !(t.Float? || t.Link?) ==> r.value.Text?
    ensures t.Pointer? && r.Ok? ==> |r.value.s| > 0 && r.value.s[|r.value.s| - 1] == '*'
    ensures t.Structure? && NameTruthy(t.name) ==> r == Ok(Text("struct " + t.name.value))
    ensures t.Union? && NameTruthy(t.name) ==> r == Ok(Text("union " + t.name.value))
    decreases fuel, t
  {
    match t
    case Integer(_, _, _, _, _, _, _) => Ok(Text(IntegerToC(t)))
    case Enum(_, name) => Ok(Text(if NameTruthy(name) then "enum " + name.value else "<anonymous enum>"))
    case Float(_, name, _) => Ok(if name.Some? then Text(name.value) else NoneValue)
    case Boolean(_) => Ok(Text("bool"))
    case Void => Ok(Text("void"))
    case Function(_, name, result, arguments) =>
      var rs :- TypeToC(result, table, fuel);
      var args :- TypesToC(arguments, table, fuel);
      var joined :- JoinRendered(args, ", ").ToResult(TypeError);
      Ok(Text(Format(rs) + " " + (if name.Some? then name.value else "None") + "(" + joined + ")"))
    case Pointer(_, _, of) =>
      var o :- TypeToC(of, table, fuel);
      var s :- Concat("", o).ToResult(TypeError);
      Ok(Text(s + "*"))
    case AggregateRef(id) => Ok(Text("{type " + IntToString(id) + "}"))
    case Structure(_, name, members) =>
      if NameTruthy(name) then Ok(Text("struct " + name.value))
      else
        var ms :- DeclsToC(members, table, fuel);
        Ok(Text("struct  { " + Join(ms, " ") + " }"))
    case Union(_, name, members) =>
      if NameTruthy(name) then Ok(Text("union " + name.value))
      else
        var ms :- DeclsToC(members, table, fuel);
        Ok(Text("union  { " + Join(ms, " ") + " }"))
    case Array(_, _, elem, domain) =>
      var d :- ArraySuffix(domain);
      var e :- TypeToC(elem, table, fuel);
      Ok(Text(Format(e) + "[" + d + "]"))
    case Link(id) =>
      if id !in table then Err(KeyError)
      else if fuel == 0 then Err(RecursionError)
      else TypeToC(table[id], table, fuel - 1)
  }

  function TypesToC(ts: seq<Type>, table: map<int, Type>, fuel: nat): (r: Result<seq<Rendered>, Fault>)
    ensures r.Ok? ==> |r.value| == |ts|
    decreases fuel, ts
  {
    if |ts| == 0 then Ok([])
    else
      var h :- TypeToC(ts[0], table, fuel);
      var rest :- TypesToC(ts[1..], table, fuel);
      Ok([h] + rest)
  }

  /** Each member rendered as `Decl.to_c() + ';'`. */
  function DeclsToC(ds: seq<Decl>, table: map<int, Type>, fuel: nat): (r: Result<seq<string>, Fault>)
    ensures r.Ok? ==> |r.value| == |ds|
    ensures r.Ok? ==> forall i :: 0 <= i < |ds| ==> |r.value[i]| > 0 && r.value[i][|r.value[i]| - 1] == ';'
    decreases fuel, ds
  {
    if |ds| == 0 then Ok([])
    else
      var h :- DeclToCFuel(ds[0], table, fuel);
      var rest :- DeclsToC(ds[1..], table, fuel);
      Ok([h + ";"] + rest)
  }

  /** `Decl.to_c`: the type's rendering, a space, the binding's rendering; both must be strings
      for the concatenation to succeed. */
  function DeclToCFuel(d: Decl, table: map<int, Type>, fuel: nat): (r: Result<string, Fault>)
    decreases fuel, d
  {
    var t :- TypeToC(d.ty, table, fuel);
    var b := BindingToC(d.binding);
    if t.Text? && b.Text? then Ok(t.s + " " + b.s) else Err(TypeError)
  }

  /** The link budget: one more than the number of aggregates. */
  function Budget(table: map<int, Type>): nat {
    |table| + 1
  }

  function DeclToC(d: Decl, table: map<int, Type>): (r: Result<string, Fault>)
    ensures r.Ok? <==> (TypeToC(d.ty, table, Budget(table)).Ok? && TypeToC(d.ty, table, Budget(table)).value.Text?
      && BindingToC(d.binding).Text?)
    ensures r.Ok? ==> r.value == TypeToC(d.ty, table, Budget(table)).value.s + " " + BindingToC(d.binding).s
  {
    DeclToCFuel(d, table, Budget(table))
  }

  // ---------------------------------------------------------------- decoding dispatch

  /** The class `type_from_xml` picks for an element tag. */
  datatype TypeClass = IntegerClass | EnumClass | FloatClass | BooleanClass | FunctionClass
    | VoidClass | PointerClass | AggregateRefClass

  /** `type_from_xml`'s tag table; any other tag fails its assertion. Every aggregate tag
      (`structure`, `union`, `array`) decodes to an unresolved reference. */
  function TypeClassOf(tag: string): (r: Result<TypeClass, Fault>)
    ensures r.Err? <==> tag !in {"addr-of", "float", "integer", "void", "function", "structure", "array", "enum", "boolean", "union"}
    ensures tag in {"structure", "array", "union"} ==> r == Ok(AggregateRefClass)
  {
    match tag
    case "addr-of" => Ok(PointerClass)
    case "float" => Ok(FloatClass)
    case "integer" => Ok(IntegerClass)
    case "void" => Ok(VoidClass)
    case "function" => Ok(FunctionClass)
    case "structure" => Ok(AggregateRefClass)
    case "array" => Ok(AggregateRefClass)
    case "enum" => Ok(EnumClass)
    case "boolean" => Ok(BooleanClass)
    case "union" => Ok(AggregateRefClass)
    case _ => Err(AssertionError)
  }

  /** The kind of object `aggregate_from_xml` builds: `Union.from_xml` builds a `Structure`,
      so a `union` element becomes a structure, never a union. */
  datatype AggregateClass = ArrayAggregate | StructureAggregate

  function AggregateClassOf(tag: string): (r: Result<AggregateClass, Fault>)
    ensures r.Err? <==> tag !in {"array", "structure", "union"}
    ensures r.Ok? ==> (r.value == ArrayAggregate <==> tag == "array")
  {
    match tag
    case "array" => Ok(ArrayAggregate)
    case "structure" => Ok(StructureAggregate)
    case "union" => Ok(StructureAggregate)
    case _ => Err(AssertionError)
  }

  /** The object built for a decoded aggregate of the given class. */
  function BuildAggregate(cls: AggregateClass, id: int, name: Option<string>, members: seq<Decl>, elem: Type, domain: Option<Type>): (t: Type)
    ensures cls == StructureAggregate ==> t.Structure? && t.members == members
    ensures cls == ArrayAggregate ==> t.Array? && t.elem == elem && t.domain == domain
    ensures TypeId(t) == id
  {
    match cls
    case ArrayAggregate => Array(id, name, elem, domain)
    case StructureAggregate => Structure(id, name, members)
  }

  /** A decoded union renders as a `struct`, never as a `union`. */
  lemma UnionDecodesAsStructure(id: int, name: string, members: seq<Decl>, table: map<int, Type>, fuel: nat)
    requires |name| > 0
    ensures var t := BuildAggregate(AggregateClassOf("union").value, id, Some(name), members, Void, None);
      !t.Union? && TypeToC(t, table, fuel) == Ok(Text("struct " + name))
  {
  }
}
