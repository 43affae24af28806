/** Statements of a basic block: assignments, conditional branches, calls, returns and
    switches; their C renderings, the edges they add to the control-flow graph, attaching
    declarations to the expressions inside them, folding constant assignments to temporaries,
    the case table of a switch, and the tag dispatch. */
module Statements {
  import opened Wrappers
  import opened Text
  import opened Misc
  import opened Types
  import opened Constants
  import opened Expressions

  // ---------------------------------------------------------------- switch case tables

  /** A key of a switch's case table. An exact label is keyed by its constant object, which
      compares by identity, so no two exact labels share a key (`ordinal` is the label's
      position); `shown` is the text `str()` gives for that object, which the runtime decides.
      A range label is expanded into one integer key per value. */
  datatype CaseKey = ExactKey(ordinal: nat, c: Constant, shown: string) | ValueKey(v: int)

  /** A decoded `case` element: an `exact` value, a `low-bound`/`high-bound` pair, or any
      other shape (which fails an assertion). */
  datatype CaseLabel =
    | ExactLabel(target: int, c: Constant, shown: string)
    | RangeLabel(target: int, low: Constant, high: Constant)
    | StrangeLabel

  type CaseTable = seq<(CaseKey, int)>

  /** The first position holding key `k`. */
  function FindKey(m: CaseTable, k: CaseKey): (r: Option<nat>)
    ensures r.Some? ==> r.value < |m| && m[r.value].0 == k
    ensures r.Some? ==> forall j :: 0 <= j < r.value ==> m[j].0 != k
    ensures r.None? ==> forall j :: 0 <= j < |m| ==> m[j].0 != k
    decreases |m|
  {
    if |m| == 0 then None
    else if m[0].0 == k then Some(0)
    else
      var r := FindKey(m[1..], k);
      if r.Some? then Some(r.value + 1) else None
  }

  /** `m[k]` on the case table. */
  function KeyLookup(m: CaseTable, k: CaseKey): Option<int> {
    var i := FindKey(m, k);
    if i.Some? then Some(m[i.value].1) else None
  }

  /** `m[k] = t`: an existing key keeps its place and takes the new target; a new key is added
      at the end. */
  function Put(m: CaseTable, k: CaseKey, t: int): (r: CaseTable)
    ensures |r| == |m| || |r| == |m| + 1
    ensures forall j :: 0 <= j < |m| ==> r[j].0 == m[j].0
  {
    var i := FindKey(m, k);
    if i.Some? then m[i.value := (k, t)] else m + [(k, t)]
  }

  /** After `m[k] = t`, `k` leads to `t` and every other key to what it led to before. */
  lemma PutLookup(m: CaseTable, k: CaseKey, t: int, k2: CaseKey)
    ensures KeyLookup(Put(m, k, t), k2) == if k2 == k then Some(t) else KeyLookup(m, k2)
  {
    var i := FindKey(m, k);
    var r := Put(m, k, t);
    var j := FindKey(r, k2);
    var j0 := FindKey(m, k2);
    if i.Some? {
      assert forall p :: 0 <= p < |m| ==> r[p].0 == m[p].0;
      if j0.Some? {
        assert r[j0.value].0 == k2;
        assert j.value == j0.value;
      } else {
        assert r[i.value].0 == k;
      }
    } else {
      if j0.Some? {
        assert r[j0.value].0 == k2;
        assert j.value == j0.value;
      } else if k2 == k {
        assert r[|m|].0 == k;
        assert j.value == |m|;
      }
    }
  }

  /** `for x in range(lo, hi + 1): m[x] = t`. */
  function PutRange(m: CaseTable, lo: int, hi: int, t: int): (r: CaseTable)
    decreases hi - lo + 1
  {
    if hi < lo then m else PutRange(Put(m, ValueKey(lo), t), lo + 1, hi, t)
  }

  /** A range label sends each of its values to its target and leaves other keys alone. */
  lemma {:induction false} PutRangeLookup(m: CaseTable, lo: int, hi: int, t: int, k: CaseKey)
    ensures KeyLookup(PutRange(m, lo, hi, t), k) == if k.ValueKey? && lo <= k.v <= hi then Some(t) else KeyLookup(m, k)
    decreases hi - lo + 1
  {
    if hi >= lo {
      PutRangeLookup(Put(m, ValueKey(lo), t), lo + 1, hi, t, k);
      PutLookup(m, ValueKey(lo), t, k);
    }
  }

  /** One label's effect on the table being built. Range bounds must be integer constants:
      `range` raises TypeError for a string or a decimal value. */
  function AddLabel(m: CaseTable, ordinal: nat, lab: CaseLabel): (r: Result<CaseTable, Fault>)
  {
    match lab
    case StrangeLabel => Err(AssertionError)
    case ExactLabel(t, c, shown) => Ok(Put(m, ExactKey(ordinal, c, shown), t))
    case RangeLabel(t, low, high) =>
      if low.CInteger? && high.CInteger? then Ok(PutRange(m, low.number, high.number, t))
      else Err(TypeError)
  }

  /** The case table after the first `n` labels, in document order. */
  function CaseTableOf(labels: seq<CaseLabel>, n: nat): (r: Result<CaseTable, Fault>)
    requires n <= |labels|
    ensures r.Ok? ==> forall i :: 0 <= i < n ==> !labels[i].StrangeLabel?
    decreases n
  {
    if n == 0 then Ok([])
    else
      var m :- CaseTableOf(labels, n - 1);
      AddLabel(m, n - 1, labels[n - 1])
  }

  /** The target of the last range label among the first `n` that covers `v`. */
  function LastCover(labels: seq<CaseLabel>, n: nat, v: int): Option<int>
    requires n <= |labels|
    decreases n
  {
    if n == 0 then None
    else
      var l := labels[n - 1];
      if l.RangeLabel? && l.low.CInteger? && l.high.CInteger? && l.low.number <= v <= l.high.number then Some(l.target)
      else LastCover(labels, n - 1, v)
  }

  /** One label's effect on a lookup: its own keys lead to its target, other keys are
      unchanged. */
  lemma AddLabelLookup(m: CaseTable, ordinal: nat, lab: CaseLabel, k: CaseKey)
    requires AddLabel(m, ordinal, lab).Ok?
    ensures KeyLookup(AddLabel(m, ordinal, lab).value, k) ==
      if lab.ExactLabel? && k == ExactKey(ordinal, lab.c, lab.shown) then Some(lab.target)
      else if lab.RangeLabel? && k.ValueKey? && lab.low.number <= k.v <= lab.high.number then Some(lab.target)
      else KeyLookup(m, k)
  {
    match lab
    case ExactLabel(t, c, shown) => PutLookup(m, ExactKey(ordinal, c, shown), t, k);
    case RangeLabel(t, low, high) => PutRangeLookup(m, low.number, high.number, t, k);
  }

  /** An integer value covered by several ranges goes to the last range covering it. */
  lemma {:induction false} CaseTableValue(labels: seq<CaseLabel>, n: nat, v: int)
    requires n <= |labels|
    requires CaseTableOf(labels, n).Ok?
    ensures KeyLookup(CaseTableOf(labels, n).value, ValueKey(v)) == LastCover(labels, n, v)
    decreases n
  {
    if n > 0 {
      CaseTableValue(labels, n - 1, v);
      AddLabelLookup(CaseTableOf(labels, n - 1).value, n - 1, labels[n - 1], ValueKey(v));
    }
  }

  /** Every exact label keeps its own entry with its own target. */
  lemma {:induction false} CaseTableExact(labels: seq<CaseLabel>, n: nat, i: nat)
    requires i < n <= |labels|
    requires CaseTableOf(labels, n).Ok? && labels[i].ExactLabel?
    ensures KeyLookup(CaseTableOf(labels, n).value, ExactKey(i, labels[i].c, labels[i].shown)) == Some(labels[i].target)
    decreases n
  {
    if i < n - 1 {
      CaseTableExact(labels, n - 1, i);
    }
    AddLabelLookup(CaseTableOf(labels, n - 1).value, n - 1, labels[n - 1], ExactKey(i, labels[i].c, labels[i].shown));
  }

  /** The case table of a switch: integer values overlapping several ranges go to the last
      range covering them, and every exact label keeps its own entry with its own target. */
  lemma CaseTableLookup(labels: seq<CaseLabel>)
    requires CaseTableOf(labels, |labels|).Ok?
    ensures forall v :: KeyLookup(CaseTableOf(labels, |labels|).value, ValueKey(v)) == LastCover(labels, |labels|, v)
    ensures forall i :: 0 <= i < |labels| && labels[i].ExactLabel? ==>
      KeyLookup(CaseTableOf(labels, |labels|).value, ExactKey(i, labels[i].c, labels[i].shown)) == Some(labels[i].target)
  {
    forall v ensures KeyLookup(CaseTableOf(labels, |labels|).value, ValueKey(v)) == LastCover(labels, |labels|, v) {
      CaseTableValue(labels, |labels|, v);
    }
    forall i | 0 <= i < |labels| && labels[i].ExactLabel?
      ensures KeyLookup(CaseTableOf(labels, |labels|).value, ExactKey(i, labels[i].c, labels[i].shown)) == Some(labels[i].target)
    {
      CaseTableExact(labels, |labels|, i);
    }
  }

  // ---------------------------------------------------------------- statements

  datatype Statement =
    | Assign(location: Option<Location>, lhs: Expr, rhs: seq<Expr>)
    | Cond(location: Option<Location>, cond: seq<Expr>, onTrue: int, onFalse: int)
    | Call(location: Option<Location>, fn: Expr, lhs: Expr, args: seq<Expr>)
    | Ret(location: Option<Location>, value: Option<Expr>)
    | Switch(location: Option<Location>, index: Expr, default: Option<int>, mapping: CaseTable)

  /** A switch's default is taken only when it is truthy: block 0 counts as no default. */
  predicate HasDefault(s: Statement)
    requires s.Switch?
  {
    s.default.Some? && s.default.value != 0
  }

  function Targets(m: CaseTable): (ts: seq<int>)
    ensures |ts| == |m|
    ensures forall i :: 0 <= i < |m| ==> ts[i] == m[i].1
  {
    seq(|m|, i requires 0 <= i < |m| => m[i].1)
  }

  /** `get_edges`: a conditional branch's two targets, a switch's case targets followed by
      its default, and nothing for the other statements. */
  function StatementEdges(s: Statement): (es: seq<int>)
    ensures s.Cond? ==> es == [s.onTrue, s.onFalse]
    ensures s.Switch? ==> |es| == |s.mapping| + (if HasDefault(s) then 1 else 0)
    ensures s.Switch? ==> forall i :: 0 <= i < |s.mapping| ==> es[i] == s.mapping[i].1
    ensures s.Switch? && HasDefault(s) ==> es[|es| - 1] == s.default.value
    ensures !s.Cond? && !s.Switch? ==> es == []
  {
    match s
    case Cond(_, _, t, e) => [t, e]
    case Switch(_, _, _, m) => Targets(m) + (if HasDefault(s) then [s.default.value] else [])
    case _ => []
  }

  /** The block every value of a switch's index reaches: its case's target, or the default. */
  lemma SwitchEdgesCoverCases(s: Statement, k: CaseKey)
    requires s.Switch?
    ensures KeyLookup(s.mapping, k).Some? ==> KeyLookup(s.mapping, k).value in StatementEdges(s)
    ensures HasDefault(s) ==> s.default.value in StatementEdges(s)
  {
    if KeyLookup(s.mapping, k).Some? {
      var i := FindKey(s.mapping, k).value;
      assert StatementEdges(s)[i] == s.mapping[i].1;
    }
  }

  function AttachAll(es: seq<Expr>, scope: Scope, t: Table): (r: seq<Expr>)
    ensures |r| == |es|
    ensures forall i :: 0 <= i < |es| ==> r[i] == Attach(es[i], scope, t)
  {
    seq(|es|, i requires 0 <= i < |es| => Attach(es[i], scope, t))
  }

  /** `attach_decls`: every expression of the statement is attached from the table. */
  function AttachStatement(s: Statement, scope: Scope, t: Table): (r: Statement)
    ensures StatementEdges(r) == StatementEdges(s)
    ensures r.location == s.location
  {
    match s
    case Assign(loc, lhs, rhs) => Assign(loc, Attach(lhs, scope, t), AttachAll(rhs, scope, t))
    case Cond(loc, c, th, el) => Cond(loc, AttachAll(c, scope, t), th, el)
    case Call(loc, fn, lhs, args) => Call(loc, Attach(fn, scope, t), Attach(lhs, scope, t), AttachAll(args, scope, t))
    case Ret(loc, e) => if e.Some? then Ret(loc, Some(Attach(e.value, scope, t))) else s
    case Switch(loc, e, d, m) => Switch(loc, Attach(e, scope, t), d, m)
  }

  // ---------------------------------------------------------------- rendering

  function ExprsToC(es: seq<Expr>, scope: Scope): (r: Result<seq<Rendered>, Fault>)
    ensures r.Ok? ==> |r.value| == |es|
    ensures r.Ok? ==> forall i :: 0 <= i < |es| ==> ExprToC(es[i], scope) == Ok(r.value[i])
    ensures r.Err? ==> exists i :: 0 <= i < |es| && ExprToC(es[i], scope).Err?
    decreases |es|
  {
    if |es| == 0 then Ok([])
    else
      var x :- ExprToC(es[0], scope);
      var rest :- ExprsToC(es[1..], scope);
      assert forall i :: 1 <= i < |es| ==> es[i] == es[1..][i - 1];
      Ok([x] + rest)
  }

  /** One line of a switch's case list. */
  function CaseLine(entry: (CaseKey, int)): string {
    var key := if entry.0.ExactKey? then entry.0.shown else IntToString(entry.0.v);
    "  case " + key + ": goto bb" + IntToString(entry.1) + ";"
  }

  function CaseLines(s: Statement): (ls: seq<string>)
    requires s.Switch?
  {
    seq(|s.mapping|, i requires 0 <= i < |s.mapping| => CaseLine(s.mapping[i]))
      + (if HasDefault(s) then ["  default: goto bb" + IntToString(s.default.value) + ";"] else [])
  }

  /** `to_c` of a statement. Assignment operands and condition parts are joined with spaces
      and call arguments with `, `, which raises TypeError when one of them renders as a
      number; the rest is `'%s'` formatting. */
  function StatementToC(s: Statement, scope: Scope): (r: Result<string, Fault>)
  {
    match s
    case Assign(_, lhs, rhs) =>
      var l :- ExprToC(lhs, scope);
      var rs :- ExprsToC(rhs, scope);
      var r :- JoinRendered(rs, " ").ToResult(TypeError);
      Ok(Format(l) + " = " + r)
    case Cond(_, c, th, el) =>
      var cs :- ExprsToC(c, scope);
      var cond :- JoinRendered(cs, " ").ToResult(TypeError);
      Ok("if (" + cond + ")\n  goto bb" + IntToString(th) + ";\nelse\n  goto bb" + IntToString(el))
    case Call(_, fn, lhs, args) =>
      var f :- ExprToC(fn, scope);
      var l :- ExprToC(lhs, scope);
      var as_ :- ExprsToC(args, scope);
      var a :- JoinRendered(as_, ", ").ToResult(TypeError);
      Ok(Format(l) + " = " + Format(f) + "(" + a + ")")
    case Ret(_, e) =>
      if e.None? then Ok("return")
      else
        var x :- ExprToC(e.value, scope);
        Ok("return " + Format(x))
    case Switch(_, e, _, _) =>
      var x :- ExprToC(e, scope);
      Ok("switch (" + Format(x) + ")\n{\n" + Join(CaseLines(s), "\n") + "}\n")
  }

  /** A return renders as the bare keyword exactly when it has no value; otherwise the
      keyword and a space are followed by the value's own rendering. */
  lemma ReturnRendering(loc: Option<Location>, value: Option<Expr>, scope: Scope)
    requires StatementToC(Ret(loc, value), scope).Ok?
    ensures var text := StatementToC(Ret(loc, value), scope).value;
      (value.None? <==> text == "return")
      && (value.Some? ==> ExprToC(value.value, scope).Ok? && |text| >= 7 && text[..7] == "return "
                          && text[7..] == Format(ExprToC(value.value, scope).value))
  {
  }

  /** A conditional branch renders with its two targets, which read back from the text as
      the statement's edges. */
  lemma CondRenderingNamesEdges(s: Statement, scope: Scope)
    requires s.Cond? && StatementToC(s, scope).Ok?
    ensures var text := StatementToC(s, scope).value;
      exists k :: 0 <= k <= |text| && ParseInt(text[k..]) == Some(StatementEdges(s)[1])
  {
    var text := StatementToC(s, scope).value;
    var tail := IntToString(s.onFalse);
    assert text == (text[..|text| - |tail|]) + tail;
    assert text[|text| - |tail|..] == tail;
    ParseIntOfIntToString(s.onFalse);
  }

  /** Assignments and conditions whose operands include an integer constant cannot be
      rendered: joining the operand texts meets a number. */
  lemma IntegerOperandBreaksJoin(loc: Option<Location>, lhs: Expr, ty: Type, n: int, scope: Scope)
    requires ExprToC(lhs, scope).Ok?
    ensures StatementToC(Assign(loc, lhs, [Const(CInteger(ty, n))]), scope) == Err(TypeError)
  {
    var rs := ExprsToC([Const(CInteger(ty, n))], scope);
    assert rs.Ok? && rs.value[0] == Num(n);
  }

  // ---------------------------------------------------------------- folding temporaries

  /** The scope after the declaration at `slot` has its binding's folded value set. */
  function Fold(scope: Scope, slot: Slot, id: int, v: Rendered): (r: Scope)
  {
    match slot
    case InMembers =>
      if id in scope.members then
        var d := scope.members[id];
        scope.(members := scope.members[id := d.(binding := d.binding.(folded := Some(v)))])
      else scope
    case InArgs(i) =>
      if i < |scope.args| then
        var d := scope.args[i];
        scope.(args := scope.args[i := d.(binding := d.binding.(folded := Some(v)))])
      else scope
    case InLocals =>
      if id in scope.locals then
        var d := scope.locals[id];
        scope.(locals := scope.locals[id := d.(binding := d.binding.(folded := Some(v)))])
      else scope
    case InExternals =>
      if id in scope.externals then
        var d := scope.externals[id];
        scope.(externals := scope.externals[id := d.(binding := d.binding.(folded := Some(v)))])
      else scope
  }

  /** Whether two (slot, id) pairs designate the same declaration. */
  predicate SamePlace(s1: Slot, id1: int, s2: Slot, id2: int) {
    s1 == s2 && (s1.InArgs? || id1 == id2)
  }

  /** Folding changes the folded value of one declaration and nothing else. */
  lemma FoldChangesOneDecl(scope: Scope, slot: Slot, id: int, v: Rendered, slot2: Slot, id2: int)
    ensures var before := Lookup(scope, slot2, id2);
      var after := Lookup(Fold(scope, slot, id, v), slot2, id2);
      if SamePlace(slot, id, slot2, id2) then
        before.Some? == after.Some? && (before.Some? ==> after.value == before.value.(binding := before.value.binding.(folded := Some(v))))
      else after == before
  {
  }

  /** Whether a statement is the assignment of one operand to an attached temporary. */
  predicate FoldsTemporary(s: Statement, scope: Scope) {
    s.Assign? && |s.rhs| == 1 && s.lhs.Bound? && s.lhs.slot.Some?
    && Lookup(scope, s.lhs.slot.value, s.lhs.id).Some?
    && Lookup(scope, s.lhs.slot.value, s.lhs.id).value.binding.name.None?
  }

  /** `resolve_temporary_names` of a statement: an assignment of a single operand to an
      attached, unnamed declaration records the operand's rendering as that binding's value
      and reports the statement pointless (true); everything else is kept (false). */
  function Convolve(s: Statement, scope: Scope): (r: Result<(bool, Scope), Fault>)
    ensures r.Ok? ==> (r.value.0 <==> FoldsTemporary(s, scope))
    ensures r.Ok? && !r.value.0 ==> r.value.1 == scope
    ensures r.Err? ==> FoldsTemporary(s, scope)
  {
    if FoldsTemporary(s, scope) then
      var v :- ExprToC(s.rhs[0], scope);
      Ok((true, Fold(scope, s.lhs.slot.value, s.lhs.id, v)))
    else Ok((false, scope))
  }

  /** Once folded, a temporary renders as the value assigned to it — when that value is
      truthy; a value such as `0` leaves the `__tmp_<id>` spelling in place. */
  lemma FoldedTemporaryRendersAsValue(s: Statement, scope: Scope)
    requires Convolve(s, scope).Ok? && Convolve(s, scope).value.0
    ensures var after := Convolve(s, scope).value.1;
      var v := ExprToC(s.rhs[0], scope).value;
      Truthy(v) ==> ExprToC(s.lhs, after) == Ok(v)
    ensures var after := Convolve(s, scope).value.1;
      var v := ExprToC(s.rhs[0], scope).value;
      !Truthy(v) && Lookup(scope, s.lhs.slot.value, s.lhs.id).value.binding.id == s.lhs.id ==>
        ExprToC(s.lhs, after) == Ok(Text("__tmp_" + IntToString(s.lhs.id)))
  {
    var after := Convolve(s, scope).value.1;
    var v := ExprToC(s.rhs[0], scope).value;
    var slot := s.lhs.slot.value;
    FoldChangesOneDecl(scope, slot, s.lhs.id, v, slot, s.lhs.id);
    var d := Lookup(after, slot, s.lhs.id).value;
    assert d.binding.name.None? && d.binding.folded == Some(v);
  }

  // ---------------------------------------------------------------- tag dispatch

  datatype StatementKind = AssignKind | CondKind | CallKind | SwitchKind | ReturnKind

  /** `statement_from_xml`'s choice: exception dispatch is skipped (None), the five kinds are
      decoded, and any other tag fails the assertion. */
  function StatementKindOf(tag: string): (r: Result<Option<StatementKind>, Fault>)
    ensures r == Ok(None) <==> tag == "exception-dispatch"
    ensures r.Err? <==> tag !in {"exception-dispatch", "assign", "if", "call", "switch", "return"}
  {
    match tag
    case "exception-dispatch" => Ok(None)
    case "assign" => Ok(Some(AssignKind))
    case "if" => Ok(Some(CondKind))
    case "call" => Ok(Some(CallKind))
    case "switch" => Ok(Some(SwitchKind))
    case "return" => Ok(Some(ReturnKind))
    case _ => Err(AssertionError)
  }
}
