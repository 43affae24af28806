/** Translation units: the raw source, file name and language (each read through a getter
    that asserts it was set), the aggregate type table, the functions, and `finalise`, which
    resolves the type table before it touches any function. */
module Units {
  import opened Wrappers
  import opened Misc
  import opened Types
  import opened Expressions
  import opened Statements
  import opened Functions

  /** A unit. The type table is a dictionary; `typeOrder` is the order in which its keys
      are visited. */
  datatype Unit = Unit(rawSource: Option<string>, filename: Option<string>, language: Option<string>,
                       types: map<int, Type>, typeOrder: seq<int>, functions: seq<Function>)

  /** A freshly made unit: nothing set, no types, no functions. */
  function NewUnit(): (u: Unit)
    ensures Source(u).Err? && Lang(u).Err? && Filename(u).Err?
    ensures u.types == map[] && u.functions == []
  {
    Unit(None, None, None, map[], [], [])
  }

  // ---------------------------------------------------------------- guarded properties

  /** The `source` getter asserts the source was set. */
  function Source(u: Unit): (r: Result<string, Fault>)
    ensures r.Ok? <==> u.rawSource.Some?
    ensures r.Ok? ==> r.value == u.rawSource.value
    ensures r.Err? ==> r.error == AssertionError
  {
    if u.rawSource.Some? then Ok(u.rawSource.value) else Err(AssertionError)
  }

  function SetSource(u: Unit, src: string): (r: Unit)
    ensures Source(r) == Ok(src)
    ensures r.(rawSource := u.rawSource) == u
  {
    u.(rawSource := Some(src))
  }

  /** The `lang` getter asserts the language was set. */
  function Lang(u: Unit): (r: Result<string, Fault>)
    ensures r.Ok? <==> u.language.Some?
    ensures r.Ok? ==> r.value == u.language.value
    ensures r.Err? ==> r.error == AssertionError
  {
    if u.language.Some? then Ok(u.language.value) else Err(AssertionError)
  }

  /** The languages a unit may be in. */
  predicate KnownLanguage(lang: string) {
    lang == "C" || lang == "C++"
  }

  /** The `lang` setter accepts only `C` and `C++`; anything else is an AssertionError and
      leaves the unit as it was. */
  function SetLang(u: Unit, lang: string): (r: Result<Unit, Fault>)
    ensures r.Ok? <==> KnownLanguage(lang)
    ensures r.Ok? ==> Lang(r.value) == Ok(lang) && r.value.(language := u.language) == u
    ensures r.Err? ==> r.error == AssertionError
  {
    if KnownLanguage(lang) then Ok(u.(language := Some(lang))) else Err(AssertionError)
  }

  /** Whatever was set, a language read back is one of the two the setter accepts. */
  lemma LangIsKnown(u: Unit, lang: string)
    requires SetLang(u, lang).Ok?
    ensures var l := Lang(SetLang(u, lang).value); l.Ok? && KnownLanguage(l.value)
  {
  }

  /** The `filename` getter asserts the file name was set. */
  function Filename(u: Unit): (r: Result<string, Fault>)
    ensures r.Ok? <==> u.filename.Some?
    ensures r.Ok? ==> r.value == u.filename.value
    ensures r.Err? ==> r.error == AssertionError
  {
    if u.filename.Some? then Ok(u.filename.value) else Err(AssertionError)
  }

  function SetFilename(u: Unit, name: string): (r: Unit)
    ensures Filename(r) == Ok(name)
    ensures r.(filename := u.filename) == u
  {
    u.(filename := Some(name))
  }

  // ---------------------------------------------------------------- resolution depends on keys only

  lemma {:induction false} ResolveKeysOnly(t: Type, a: map<int, Type>, b: map<int, Type>)
    requires a.Keys == b.Keys
    ensures ResolveAggregates(t, a) == ResolveAggregates(t, b)
    decreases t
  {
    match t
    case Function(_, _, result, arguments) =>
      ResolveKeysOnly(result, a, b);
      ResolveAllKeysOnly(arguments, a, b);
    case Pointer(_, _, of) => ResolveKeysOnly(of, a, b);
    case Structure(_, _, members) => ResolveDeclsKeysOnly(members, a, b);
    case Union(_, _, members) => ResolveDeclsKeysOnly(members, a, b);
    case Array(_, _, elem, _) => ResolveKeysOnly(elem, a, b);
    case _ =>
  }

  lemma {:induction false} ResolveAllKeysOnly(ts: seq<Type>, a: map<int, Type>, b: map<int, Type>)
    requires a.Keys == b.Keys
    ensures ResolveAll(ts, a) == ResolveAll(ts, b)
    decreases ts
  {
    if |ts| > 0 {
      ResolveKeysOnly(ts[0], a, b);
      ResolveAllKeysOnly(ts[1..], a, b);
    }
  }

  lemma {:induction false} ResolveDeclsKeysOnly(ds: seq<Decl>, a: map<int, Type>, b: map<int, Type>)
    requires a.Keys == b.Keys
    ensures ResolveDecls(ds, a) == ResolveDecls(ds, b)
    decreases ds
  {
    if |ds| > 0 {
      ResolveDeclKeysOnly(ds[0], a, b);
      ResolveDeclsKeysOnly(ds[1..], a, b);
    }
  }

  lemma {:induction false} ResolveDeclKeysOnly(d: Decl, a: map<int, Type>, b: map<int, Type>)
    requires a.Keys == b.Keys
    ensures ResolveDecl(d, a) == ResolveDecl(d, b)
    decreases d
  {
    ResolveKeysOnly(d.ty, a, b);
  }

  // ---------------------------------------------------------------- finalise

  /** The first loop of `finalise`: each entry, in key order, is replaced by its resolution
      against the table as it stands (with the entries before it already replaced). */
  function ResolveTypes(table: map<int, Type>, order: seq<int>): (r: Result<map<int, Type>, Fault>)
    ensures r.Ok? ==> r.value.Keys == table.Keys
    ensures r.Err? ==> r.error == AssertionError
    decreases |order|
  {
    if |order| == 0 then Ok(table)
    else if order[0] in table then
      var t :- ResolveAggregates(table[order[0]], table);
      ResolveTypes(table[order[0] := t], order[1..])
    else ResolveTypes(table, order[1..])
  }

  /** Resolving entry by entry gives the same table as resolving every visited entry against
      the original table at once: the table fails exactly when some visited entry refers to
      an id that is not a key, and otherwise each visited entry becomes its own resolution
      and every other entry is untouched. */
  lemma {:induction false} ResolveTypesAtOnce(table: map<int, Type>, order: seq<int>)
    ensures ResolveTypes(table, order).Ok? <==> forall k :: k in order && k in table ==> RefsIn(table[k], table.Keys)
    ensures ResolveTypes(table, order).Ok? ==> forall k :: k in table ==>
      ResolveTypes(table, order).value[k] == (if k in order then ResolveAggregates(table[k], table).value else table[k])
    decreases |order|
  {
    if |order| > 0 {
      var k0 := order[0];
      assert forall k :: k in order <==> k == k0 || k in order[1..];
      if k0 in table {
        var r0 := ResolveAggregates(table[k0], table);
        if r0.Ok? {
          var t2 := table[k0 := r0.value];
          ResolveTypesAtOnce(t2, order[1..]);
          assert t2.Keys == table.Keys;
          forall k | k in table
            ensures RefsIn(t2[k], t2.Keys) <==> RefsIn(table[k], table.Keys)
            ensures ResolveAggregates(t2[k], t2).Ok? ==> ResolveAggregates(t2[k], t2).value == ResolveAggregates(table[k], table).value
          {
            ResolveKeysOnly(t2[k], t2, table);
            if k == k0 {
              RefsInEmpty(r0.value, table.Keys);
              ResolveResolvedIsIdentity(r0.value, table);
            }
          }
        }
      } else {
        ResolveTypesAtOnce(table, order[1..]);
      }
    }
  }

  /** After the first loop every visited entry is free of unresolved references. */
  lemma ResolveTypesResolves(table: map<int, Type>, order: seq<int>)
    requires ResolveTypes(table, order).Ok?
    ensures forall k :: k in table && k in order ==> Resolved(ResolveTypes(table, order).value[k])
  {
    ResolveTypesAtOnce(table, order);
  }

  /** A table whose visited entries are already resolved comes back unchanged. */
  lemma ResolveTypesIdle(table: map<int, Type>, order: seq<int>)
    requires forall k :: k in table && k in order ==> Resolved(table[k])
    ensures ResolveTypes(table, order) == Ok(table)
  {
    ResolveTypesAtOnce(table, order);
    forall k | k in table && k in order ensures RefsIn(table[k], table.Keys) {
      RefsInEmpty(table[k], table.Keys);
    }
    forall k | k in table && k in order ensures ResolveAggregates(table[k], table) == Ok(table[k]) {
      ResolveResolvedIsIdentity(table[k], table);
    }
    var r := ResolveTypes(table, order).value;
    assert r.Keys == table.Keys;
    assert forall k :: k in table ==> r[k] == table[k];
    assert r == table;
  }

  /** Every declaration in a scope has a resolved type. */
  predicate ScopeResolved(s: Scope) {
    (forall k :: k in s.members ==> Resolved(s.members[k].ty))
    && (forall k :: k in s.locals ==> Resolved(s.locals[k].ty))
    && (forall k :: k in s.externals ==> Resolved(s.externals[k].ty))
    && (forall i :: 0 <= i < |s.args| ==> Resolved(s.args[i].ty))
  }

  lemma SameShapeResolved(a: Scope, b: Scope)
    requires SameShape(a, b) && ScopeResolved(a)
    ensures ScopeResolved(b)
  {
  }

  /** Every visited aggregate of the table is resolved. */
  predicate TableResolved(table: map<int, Type>, order: seq<int>) {
    forall k :: k in table && k in order ==> Resolved(table[k])
  }

  lemma {:induction false} AddMembersResolved(m: map<int, Decl>, ds: seq<Decl>)
    requires forall k :: k in m ==> Resolved(m[k].ty)
    requires forall i :: 0 <= i < |ds| ==> Resolved(ds[i].ty)
    ensures forall k :: k in AddMembers(m, ds) ==> Resolved(AddMembers(m, ds)[k].ty)
    decreases |ds|
  {
    if |ds| > 0 {
      AddMembersResolved(m[ds[0].binding.id := ds[0]], ds[1..]);
    }
  }

  /** The member declarations gathered from a resolved table are resolved: the aggregates
      of a resolved table hold only resolved members. */
  lemma {:induction false} MemberDeclsResolved(table: map<int, Type>, order: seq<int>)
    requires TableResolved(table, order)
    ensures forall k :: k in MemberDecls(table, order) ==> Resolved(MemberDecls(table, order)[k].ty)
    decreases |order|
  {
    if |order| > 0 {
      var init := order[..|order| - 1];
      assert forall k :: k in init ==> k in order;
      MemberDeclsResolved(table, init);
      var last := order[|order| - 1];
      if last in table && (table[last].Structure? || table[last].Union?) {
        AddMembersResolved(MemberDecls(table, init), table[last].members);
      }
    }
  }

  /** One function's part of `finalise`: aggregate resolution, then temporary names. */
  function FinaliseFunction(f: Function, table: map<int, Type>, order: seq<int>): (r: Result<Function, Fault>)
    ensures r.Ok? ==> r.value.entry == f.entry && |r.value.blocks| == |f.blocks| && r.value.name == f.name
    ensures r.Ok? && TableResolved(table, order) ==> ScopeResolved(r.value.scope)
  {
    var g :- ResolveFunctionAggregates(f, table, order);
    var h :- ResolveTemporaryNames(g);
    if TableResolved(table, order) then
      MemberDeclsResolved(table, order);
      assert ScopeResolved(g.scope);
      SameShapeResolved(g.scope, h.scope);
      Ok(h)
    else Ok(h)
  }

  /** The second loop of `finalise`, over the functions in order; the first failure ends it. */
  function FinaliseFunctions(fs: seq<Function>, table: map<int, Type>, order: seq<int>): (r: Result<seq<Function>, Fault>)
    ensures r.Ok? ==> |r.value| == |fs|
    ensures r.Ok? ==> forall i :: 0 <= i < |fs| ==> FinaliseFunction(fs[i], table, order) == Ok(r.value[i])
    ensures r.Err? ==> exists i :: 0 <= i < |fs| && FinaliseFunction(fs[i], table, order).Err?
    decreases |fs|
  {
    if |fs| == 0 then Ok([])
    else
      var g :- FinaliseFunction(fs[0], table, order);
      var rest := FinaliseFunctions(fs[1..], table, order);
      if rest.Err? then
        LaterFailure(x => FinaliseFunction(x, table, order), fs);
        Err(rest.error)
      else
        LaterResults(x => FinaliseFunction(x, table, order), fs, g, rest.value);
        Ok([g] + rest.value)
  }

  /** A failure in the tail of a list is a failure in the list. */
  lemma LaterFailure<A, B, E>(f: A -> Result<B, E>, xs: seq<A>)
    requires |xs| > 0
    requires exists i :: 0 <= i < |xs| - 1 && f(xs[1..][i]).Err?
    ensures exists i :: 0 <= i < |xs| && f(xs[i]).Err?
  {
    var i :| 0 <= i < |xs| - 1 && f(xs[1..][i]).Err?;
    assert xs[1..][i] == xs[i + 1];
  }

  /** The results for a list are the result for its head followed by those for its tail. */
  lemma LaterResults<A, B, E>(f: A -> Result<B, E>, xs: seq<A>, y: B, ys: seq<B>)
    requires |xs| > 0 && f(xs[0]) == Ok(y) && |ys| == |xs| - 1
    requires forall i :: 0 <= i < |xs| - 1 ==> f(xs[1..][i]) == Ok(ys[i])
    ensures forall i :: 0 <= i < |xs| ==> f(xs[i]) == Ok(([y] + ys)[i])
  {
    forall i | 0 <= i < |xs| ensures f(xs[i]) == Ok(([y] + ys)[i]) {
      if i > 0 {
        assert xs[i] == xs[1..][i - 1];
      }
    }
  }

  /** `finalise`: every entry of the type table is resolved before any function is looked
      at, so a bad table entry fails the unit whatever its functions are, and every function
      is resolved against the already resolved table — its declarations, including the
      members of aggregates, end with no unresolved reference. */
  function Finalise(u: Unit): (r: Result<Unit, Fault>)
    ensures ResolveTypes(u.types, u.typeOrder).Err? ==> r == Err(AssertionError)
    ensures r.Ok? ==> r.value.types.Keys == u.types.Keys && TableResolved(r.value.types, u.typeOrder)
    ensures r.Ok? ==> |r.value.functions| == |u.functions|
    ensures r.Ok? ==> forall i :: 0 <= i < |u.functions| ==>
      r.value.functions[i].entry == u.functions[i].entry && ScopeResolved(r.value.functions[i].scope)
    ensures r.Ok? ==> r.value.(types := u.types, functions := u.functions) == u
  {
    var types :- ResolveTypes(u.types, u.typeOrder);
    ResolveTypesResolves(u.types, u.typeOrder);
    var fs :- FinaliseFunctions(u.functions, types, u.typeOrder);
    Ok(u.(types := types, functions := fs))
  }

  /** Finalising again leaves the type table as it is. */
  lemma FinaliseTypesSettled(u: Unit)
    requires Finalise(u).Ok?
    ensures ResolveTypes(Finalise(u).value.types, u.typeOrder) == Ok(Finalise(u).value.types)
  {
    ResolveTypesIdle(Finalise(u).value.types, u.typeOrder);
  }
}
