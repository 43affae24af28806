/** Basic blocks: the successor edges of a block, its C rendering, the grouping of its
    statements by source line, and the split of a decoded `block` element's children into
    successors and statements. */
module Blocks {
  import opened Wrappers
  import opened Text
  import opened Misc
  import opened Expressions
  import opened Statements
  import opened Tree

  datatype Block = Block(id: int, statements: seq<Statement>, next: seq<int>)

  /** The concatenation of the statements' edges, in statement order. */
  function StatementsEdges(ss: seq<Statement>): (es: seq<int>)
    decreases |ss|
  {
    if |ss| == 0 then [] else StatementEdges(ss[0]) + StatementsEdges(ss[1..])
  }

  /** `get_edges`: the explicit successors, then each statement's edges. */
  function BlockEdges(b: Block): (es: seq<int>)
    ensures |es| >= |b.next| && es[..|b.next|] == b.next
  {
    b.next + StatementsEdges(b.statements)
  }

  /** Edges of a statement list split at any point are the edges of the two parts. */
  lemma {:induction false} StatementsEdgesAppend(a: seq<Statement>, b: seq<Statement>)
    ensures StatementsEdges(a + b) == StatementsEdges(a) + StatementsEdges(b)
    decreases |a|
  {
    if |a| == 0 {
      assert a + b == b;
    } else {
      var ab := a + b;
      assert ab[0] == a[0];
      assert ab[1..] == a[1..] + b;
      StatementsEdgesAppend(a[1..], b);
    }
  }

  /** Only branching statements contribute edges: a block made of assignments, calls and
      returns has exactly its explicit successors. */
  lemma {:induction false} StraightLineEdges(b: Block)
    requires forall i :: 0 <= i < |b.statements| ==> !b.statements[i].Cond? && !b.statements[i].Switch?
    ensures BlockEdges(b) == b.next
  {
    StraightLineStatements(b.statements);
  }

  lemma {:induction false} StraightLineStatements(ss: seq<Statement>)
    requires forall i :: 0 <= i < |ss| ==> !ss[i].Cond? && !ss[i].Switch?
    ensures StatementsEdges(ss) == []
    decreases |ss|
  {
    if |ss| > 0 {
      StraightLineStatements(ss[1..]);
    }
  }

  /** `Block.to_c`: the label, each statement indented by two, then a `goto` per successor,
      one per line. */
  function BlockToC(b: Block, scope: Scope): (r: Result<string, Fault>)
  {
    var ss :- StatementsToC(b.statements, scope);
    var gotos := seq(|b.next|, i requires 0 <= i < |b.next| => "  goto bb" + IntToString(b.next[i]));
    Ok(Join(["bb" + IntToString(b.id) + ":"] + ss + gotos, "\n"))
  }

  /** `line` is statement `st` rendered and indented by two. */
  predicate IndentedLine(st: Statement, scope: Scope, line: string) {
    StatementToC(st, scope).Ok? && line == "  " + StatementToC(st, scope).value
  }

  function StatementsToC(ss: seq<Statement>, scope: Scope): (r: Result<seq<string>, Fault>)
    ensures r.Ok? ==> |r.value| == |ss|
    ensures r.Ok? ==> forall i :: 0 <= i < |ss| ==> IndentedLine(ss[i], scope, r.value[i])
    decreases |ss|
  {
    if |ss| == 0 then Ok([])
    else
      var x :- StatementToC(ss[0], scope);
      var rest :- StatementsToC(ss[1..], scope);
      var r := ["  " + x] + rest;
      assert forall i :: 1 <= i < |ss| ==> ss[i] == ss[1..][i - 1] && r[i] == rest[i - 1];
      Ok(r)
  }

  // ---------------------------------------------------------------- statements by line

  type Group = (Option<Location>, seq<Statement>)

  /** Whether a group's located statements all sit on the group's line, and a group without a
      location holds only statements without one. */
  predicate GroupAgrees(loc: Option<Location>, out: seq<Statement>) {
    (loc.None? ==> forall i :: 0 <= i < |out| ==> out[i].location.None?)
    && (loc.Some? ==> forall i :: 0 <= i < |out| ==> out[i].location.Some? ==> out[i].location.value.line == loc.value.line)
  }

  function Flatten(gs: seq<Group>): (ss: seq<Statement>)
    decreases |gs|
  {
    if |gs| == 0 then [] else gs[0].1 + Flatten(gs[1..])
  }

  /** Two groups one after the other: both located, on different lines. */
  predicate LinesDiffer(g: Group, h: Group) {
    g.0.Some? && h.0.Some? && g.0.value.line != h.0.value.line
  }

  /** Every group is non-empty and agrees with its location, and neighbours differ in line. */
  predicate WellGrouped(gs: seq<Group>) {
    (forall k :: 0 <= k < |gs| ==> |gs[k].1| > 0 && GroupAgrees(gs[k].0, gs[k].1))
    && (forall k :: 0 <= k < |gs| - 1 ==> LinesDiffer(gs[k], gs[k + 1]))
  }

  /** The generator's remaining output, from the state it has reached: `ourloc` is the
      current group's location, `out` the statements collected for it. A statement joins the
      group when it has no location, when the group has none yet, or when it is on the same
      line; otherwise the group is yielded and the statement starts the next one. */
  function ByLine(stmts: seq<Statement>, ourloc: Option<Location>, out: seq<Statement>): (gs: seq<Group>)
    decreases |stmts|
  {
    if |stmts| == 0 then
      if |out| > 0 then [(ourloc, out)] else []
    else
      var st := stmts[0];
      var loc := if ourloc.None? then st.location else ourloc;
      if st.location.None? || loc.None? || st.location.value.line == loc.value.line then
        ByLine(stmts[1..], loc, out + [st])
      else
        [(loc, out)] + ByLine(stmts[1..], st.location, [st])
  }

  /** The groups, put back together, are the statements in order. */
  lemma {:induction false} ByLineFlatten(stmts: seq<Statement>, ourloc: Option<Location>, out: seq<Statement>)
    ensures Flatten(ByLine(stmts, ourloc, out)) == out + stmts
    decreases |stmts|
  {
    if |stmts| == 0 {
      if |out| > 0 {
        assert Flatten([(ourloc, out)]) == out + Flatten([]);
      }
    } else {
      var st := stmts[0];
      var loc := if ourloc.None? then st.location else ourloc;
      assert stmts == [st] + stmts[1..];
      if st.location.None? || loc.None? || st.location.value.line == loc.value.line {
        ByLineFlatten(stmts[1..], loc, out + [st]);
      } else {
        ByLineFlatten(stmts[1..], st.location, [st]);
        var gs := [(loc, out)] + ByLine(stmts[1..], st.location, [st]);
        assert gs[1..] == ByLine(stmts[1..], st.location, [st]);
      }
    }
  }

  /** From a consistent state, every yielded group is non-empty and consistent, neighbouring
      groups are on different lines, and the current group's location leads. */
  lemma {:induction false} ByLineGroups(stmts: seq<Statement>, ourloc: Option<Location>, out: seq<Statement>)
    requires GroupAgrees(ourloc, out)
    requires |out| == 0 ==> ourloc.None?
    ensures WellGrouped(ByLine(stmts, ourloc, out))
    ensures var gs := ByLine(stmts, ourloc, out);
      (|gs| > 0 && ourloc.Some? ==> gs[0].0 == ourloc) && (|out| > 0 ==> |gs| > 0)
    decreases |stmts|
  {
    if |stmts| > 0 {
      var st := stmts[0];
      var loc := if ourloc.None? then st.location else ourloc;
      if st.location.None? || loc.None? || st.location.value.line == loc.value.line {
        GroupAppend(ourloc, loc, out, st);
        ByLineGroups(stmts[1..], loc, out + [st]);
      } else {
        ByLineGroups(stmts[1..], st.location, [st]);
        var rest := ByLine(stmts[1..], st.location, [st]);
        var gs := [(loc, out)] + rest;
        assert |out| > 0;
        assert forall k :: 1 <= k < |gs| ==> gs[k] == rest[k - 1];
        assert LinesDiffer(gs[0], gs[1]);
      }
    }
  }

  lemma GroupAppend(ourloc: Option<Location>, loc: Option<Location>, out: seq<Statement>, st: Statement)
    requires GroupAgrees(ourloc, out)
    requires |out| == 0 ==> ourloc.None?
    requires loc == if ourloc.None? then st.location else ourloc
    requires st.location.None? || loc.None? || st.location.value.line == loc.value.line
    ensures GroupAgrees(loc, out + [st])
  {
  }

  /** `statements_by_line`. */
  function StatementsByLine(b: Block): (gs: seq<Group>)
  {
    ByLine(b.statements, None, [])
  }

  /** The groups of `statements_by_line` concatenate to the block's statements; each is
      non-empty, its located statements are on its line, and a new group starts only where a
      located statement moves to another line. */
  lemma StatementsByLineSound(b: Block)
    ensures Flatten(StatementsByLine(b)) == b.statements
    ensures WellGrouped(StatementsByLine(b))
  {
    ByLineFlatten(b.statements, None, []);
    ByLineGroups(b.statements, None, []);
    assert [] + b.statements == b.statements;
  }

  /** Consecutive statements on one line stay together, and a line change splits: the two
      statements `a` (line 3) and `b` (line 4) give two groups. */
  lemma ByLineExample(f: string, a: Statement, b: Statement)
    requires a.location == Some(Location(f, 3, 1)) && b.location == Some(Location(f, 4, 1))
    ensures StatementsByLine(Block(0, [a, a, b], [])) == [(a.location, [a, a]), (b.location, [b])]
  {
    assert [a, a, b][1..] == [a, b];
    assert [a, b][1..] == [b];
    assert [b][1..] == [];
    assert ByLine([], b.location, [b]) == [(b.location, [b])];
    assert [a] + [a] == [a, a] && [] + [a] == [a];
    assert ByLine([b], a.location, [a, a]) == [(a.location, [a, a])] + ByLine([], b.location, [b]);
    assert ByLine([a, b], a.location, [a]) == ByLine([b], a.location, [a] + [a]);
    assert ByLine([a, a, b], None, []) == ByLine([a, b], a.location, [] + [a]);
  }

  // ---------------------------------------------------------------- decoding a block

  /** A child of a `block` element, as decoded: a `next` successor, a `next` whose `id` does
      not read as a number, or the outcome of decoding a statement (None for a skipped one). */
  datatype BlockChild =
    | NextChild(target: int)
    | BadNext(fault: Fault)
    | StatementChild(decoded: Result<Option<Statement>, Fault>)

  predicate Fails(c: BlockChild) {
    c.BadNext? || (c.StatementChild? && c.decoded.Err?)
  }

  /** `Block.from_xml` after the tag check and id: successors and statements each keep
      document order; skipped statements leave no trace; the first failure is the block's. */
  function BlockFromChildren(id: int, children: seq<BlockChild>): (r: Result<Block, Fault>)
    ensures r.Ok? ==> r.value.id == id
    ensures r.Ok? <==> forall i :: 0 <= i < |children| ==> !Fails(children[i])
    ensures r.Err? ==> exists i :: 0 <= i < |children| && Fails(children[i]) && r.error == FaultOf(children[i])
                                   && forall j :: 0 <= j < i ==> !Fails(children[j])
    ensures r.Ok? ==> r.value.next == NextTargets(children)
    ensures r.Ok? ==> r.value.statements == KeptStatements(children)
    decreases |children|
  {
    if |children| == 0 then Ok(Block(id, [], []))
    else
      var c := children[0];
      if c.BadNext? then Err(c.fault)
      else if c.StatementChild? && c.decoded.Err? then Err(c.decoded.error)
      else
        var rest :- BlockFromChildren(id, children[1..]);
        if c.NextChild? then Ok(rest.(next := [c.target] + rest.next))
        else if c.decoded.value.Some? then Ok(rest.(statements := [c.decoded.value.value] + rest.statements))
        else Ok(rest)
  }

  function FaultOf(c: BlockChild): Fault
    requires Fails(c)
  {
    if c.BadNext? then c.fault else c.decoded.error
  }

  function NextTargets(children: seq<BlockChild>): (ts: seq<int>)
    decreases |children|
  {
    if |children| == 0 then []
    else (if children[0].NextChild? then [children[0].target] else []) + NextTargets(children[1..])
  }

  function KeptStatements(children: seq<BlockChild>): (ss: seq<Statement>)
    decreases |children|
  {
    if |children| == 0 then []
    else
      var c := children[0];
      (if c.StatementChild? && c.decoded.Ok? && c.decoded.value.Some? then [c.decoded.value.value] else [])
        + KeptStatements(children[1..])
  }

  /** Each `next` child is one successor and each kept statement one statement: the counts
      add up to the children that were neither. */
  lemma {:induction false} ChildrenAccounted(children: seq<BlockChild>)
    ensures |NextTargets(children)| + |KeptStatements(children)| + |Skipped(children)| == |children|
    decreases |children|
  {
    if |children| > 0 {
      ChildrenAccounted(children[1..]);
    }
  }

  function Skipped(children: seq<BlockChild>): (ss: seq<BlockChild>)
    decreases |children|
  {
    if |children| == 0 then []
    else
      var c := children[0];
      (if !c.NextChild? && !(c.StatementChild? && c.decoded.Ok? && c.decoded.value.Some?) then [c] else [])
        + Skipped(children[1..])
  }

  /** One child element of a `block`: a `next` reads its `id` (absent: TypeError; not a
      number: ValueError); anything else goes through the statement decoder, a parameter here
      because its body is the statement module's element-tree decoding. */
  function ChildOf(x: Element, decode: Element -> Result<Option<Statement>, Fault>): (c: BlockChild)
    ensures x.tag == "next" <==> !c.StatementChild?
    ensures c.NextChild? ==> Get(x, "id").Some? && ParseInt(Get(x, "id").value) == Some(c.target)
  {
    if x.tag == "next" then
      match Get(x, "id")
      case None => BadNext(TypeError)
      case Some(t) => if ParseInt(t).Some? then NextChild(ParseInt(t).value) else BadNext(ValueError)
    else StatementChild(decode(x))
  }

  function ChildrenOf(xs: seq<Element>, decode: Element -> Result<Option<Statement>, Fault>): (cs: seq<BlockChild>)
    ensures |cs| == |xs|
    ensures forall i :: 0 <= i < |xs| ==> cs[i] == ChildOf(xs[i], decode)
  {
    seq(|xs|, i requires 0 <= i < |xs| => ChildOf(xs[i], decode))
  }

  /** `Block.from_xml`: the element must be a `block` (AssertionError), its `id` a number,
      then the children are decoded in document order. */
  function BlockFromXml(e: Element, decode: Element -> Result<Option<Statement>, Fault>): (r: Result<Block, Fault>)
    ensures e.tag != "block" ==> r == Err(AssertionError)
    ensures r.Ok? ==> e.tag == "block" && Get(e, "id").Some? && ParseInt(Get(e, "id").value) == Some(r.value.id)
    ensures r.Ok? ==> r.value.next == NextTargets(ChildrenOf(e.children, decode))
    ensures r.Ok? ==> r.value.statements == KeptStatements(ChildrenOf(e.children, decode))
  {
    if e.tag != "block" then Err(AssertionError)
    else
      var text :- Get(e, "id").ToResult(TypeError);
      var id :- ParseInt(text).ToResult(ValueError);
      BlockFromChildren(id, ChildrenOf(e.children, decode))
  }

  /** The successors of a block are the `next` children's ids, in document order. */
  lemma {:induction false} NextTargetsOf(xs: seq<Element>, decode: Element -> Result<Option<Statement>, Fault>)
    requires forall i :: 0 <= i < |xs| ==> ChildOf(xs[i], decode).NextChild? || xs[i].tag != "next"
    ensures |NextTargets(ChildrenOf(xs, decode))| == |FindAllIn(xs, "next")|
    ensures forall i :: 0 <= i < |FindAllIn(xs, "next")| ==>
      ParseInt(Get(FindAllIn(xs, "next")[i], "id").value) == Some(NextTargets(ChildrenOf(xs, decode))[i])
    decreases |xs|
  {
    if |xs| > 0 {
      var cs := ChildrenOf(xs, decode);
      assert ChildrenOf(xs[1..], decode) == cs[1..];
      NextTargetsOf(xs[1..], decode);
      if xs[0].tag == "next" {
        var all := FindAllIn(xs, "next");
        var rest := FindAllIn(xs[1..], "next");
        assert all == [xs[0]] + rest;
        assert NextTargets(cs) == [cs[0].target] + NextTargets(cs[1..]);
        forall i | 0 <= i < |all| ensures ParseInt(Get(all[i], "id").value) == Some(NextTargets(cs)[i]) {
          if i > 0 {
            assert all[i] == rest[i - 1];
          }
        }
      }
    }
  }
}
