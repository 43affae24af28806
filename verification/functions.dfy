/** Functions: the body's blocks, the declaration tables, the body line bounds, edge counting
    and cyclomatic complexity, the breadth-first "natural" block order, and the two resolution
    passes (aggregates, then temporary names) that run over every statement. */
module Functions {
  import opened Wrappers
  import opened Text
  import opened Misc
  import opened Types
  import opened Expressions
  import opened Statements
  import opened Blocks

  // ---------------------------------------------------------------- body bounds

  /** `Bounds(decl, lo, hi)`: the declaration line and the body's first and last lines. A
      function not decoded from a document has no declaration line (None). */
  datatype Bounds = Bounds(decl: Option<int>, lo: int, hi: int)

  /** `Bounds.diff`: lines from the earlier of the declaration and the body start through the
      body end. Without a declaration line, Python 2's `min(None, lo)` is None and the
      subtraction raises TypeError. */
  function BoundsDiff(b: Bounds): (r: Result<int, Fault>)
    ensures r.Ok? <==> b.decl.Some?
    ensures r.Ok? ==> r.value >= b.hi - b.lo + 1 && r.value >= b.hi - b.decl.value + 1
    ensures r.Ok? ==> r.value == b.hi - b.lo + 1 || r.value == b.hi - b.decl.value + 1
  {
    if b.decl.None? then Err(TypeError)
    else
      var m := if b.decl.value < b.lo then b.decl.value else b.lo;
      Ok(b.hi - m + 1)
  }

  // ---------------------------------------------------------------- functions

  /** A function: its name, location, body bounds, return type, entry block, blocks (in the
      order the block dictionary yields them) and declaration tables. The members table is
      empty until aggregate resolution fills it. */
  datatype Function = Function(name: Option<string>, location: Option<Location>, bounds: Bounds,
                               result: Type, entry: int, blocks: seq<Block>, scope: Scope)

  predicate DistinctIds(blocks: seq<Block>) {
    forall i, j :: 0 <= i < j < |blocks| ==> blocks[i].id != blocks[j].id
  }

  function Ids(blocks: seq<Block>): set<int> {
    set i | 0 <= i < |blocks| :: blocks[i].id
  }

  /** The edges of the block with id `id` (none when there is no such block). */
  function EdgesOf(blocks: seq<Block>, id: int): (es: seq<int>)
    ensures id !in Ids(blocks) ==> es == []
    decreases |blocks|
  {
    if |blocks| == 0 then []
    else if blocks[0].id == id then BlockEdges(blocks[0])
    else
      assert Ids(blocks) == {blocks[0].id} + Ids(blocks[1..]);
      EdgesOf(blocks[1..], id)
  }

  // ---------------------------------------------------------------- complexity

  /** `count_edges`: every block's `get_edges`, duplicates included. */
  function CountEdges(blocks: seq<Block>): (n: nat)
    decreases |blocks|
  {
    if |blocks| == 0 then 0 else |BlockEdges(blocks[0])| + CountEdges(blocks[1..])
  }

  /** `cyclomatic_complexity`: edges - blocks + 2. */
  function Cyclomatic(f: Function): int {
    CountEdges(f.blocks) - |f.blocks| + 2
  }

  /** Changing one block's edges changes the count by the difference. */
  lemma {:induction false} CountEdgesUpdate(blocks: seq<Block>, i: nat, b: Block)
    requires i < |blocks|
    ensures CountEdges(blocks[i := b]) == CountEdges(blocks) - |BlockEdges(blocks[i])| + |BlockEdges(b)|
    decreases |blocks|
  {
    if i > 0 {
      CountEdgesUpdate(blocks[1..], i - 1, b);
      assert blocks[i := b][1..] == blocks[1..][i - 1 := b];
    }
  }

  /** A function whose blocks form a chain (one edge each, none from the last) has
      complexity 1; giving a block one more edge raises the complexity by one. */
  lemma ChainComplexity(f: Function)
    requires |f.blocks| > 0
    requires forall i :: 0 <= i < |f.blocks| - 1 ==> |BlockEdges(f.blocks[i])| == 1
    requires |BlockEdges(f.blocks[|f.blocks| - 1])| == 0
    ensures Cyclomatic(f) == 1
  {
    ChainEdges(f.blocks);
  }

  lemma {:induction false} ChainEdges(blocks: seq<Block>)
    requires |blocks| > 0
    requires forall i :: 0 <= i < |blocks| - 1 ==> |BlockEdges(blocks[i])| == 1
    requires |BlockEdges(blocks[|blocks| - 1])| == 0
    ensures CountEdges(blocks) == |blocks| - 1
    decreases |blocks|
  {
    if |blocks| > 1 {
      ChainEdges(blocks[1..]);
    }
  }

  lemma ExtraEdgeComplexity(f: Function, i: nat, target: int)
    requires i < |f.blocks|
    ensures var b := f.blocks[i];
      Cyclomatic(f.(blocks := f.blocks[i := b.(next := b.next + [target])])) == Cyclomatic(f) + 1
  {
    var b := f.blocks[i];
    CountEdgesUpdate(f.blocks, i, b.(next := b.next + [target]));
  }

  // ---------------------------------------------------------------- natural order

  predicate NoDuplicates(s: seq<int>) {
    forall i, j :: 0 <= i < j < |s| ==> s[i] != s[j]
  }

  /** A walk along edges. */
  predicate IsPath(blocks: seq<Block>, p: seq<int>) {
    |p| > 0 && forall k :: 0 <= k < |p| - 1 ==> p[k + 1] in EdgesOf(blocks, p[k])
  }

  /** `x` can be reached from `a` along edges. */
  ghost predicate Reaches(blocks: seq<Block>, a: int, x: int) {
    exists p :: IsPath(blocks, p) && p[0] == a && p[|p| - 1] == x
  }

  /** Block `x` has an edge to something that is not a block. */
  predicate Dangling(blocks: seq<Block>, x: int) {
    exists e :: e in EdgesOf(blocks, x) && e !in Ids(blocks)
  }

  /** Every listed block after the first was found as an edge of an earlier one. */
  predicate Discovered(blocks: seq<Block>, s: seq<int>) {
    forall i :: 0 < i < |s| ==> exists j :: 0 <= j < i && s[i] in EdgesOf(blocks, s[j])
  }

  /** Everything in `a` is in `b`. */
  predicate Within(a: seq<int>, b: seq<int>) {
    forall e :: e in a ==> e in b
  }

  /** Every edge of a listed block leads to a listed block. */
  predicate Closed(blocks: seq<Block>, s: seq<int>) {
    forall j :: 0 <= j < |s| ==> Within(EdgesOf(blocks, s[j]), s)
  }

  lemma {:induction false} DiscoveredReaches(blocks: seq<Block>, s: seq<int>, i: nat)
    requires i < |s| && Discovered(blocks, s)
    ensures Reaches(blocks, s[0], s[i])
    decreases i
  {
    if i == 0 {
      assert IsPath(blocks, [s[0]]);
    } else {
      var j :| 0 <= j < i && s[i] in EdgesOf(blocks, s[j]);
      DiscoveredReaches(blocks, s, j);
      var p :| IsPath(blocks, p) && p[0] == s[0] && p[|p| - 1] == s[j];
      var q := p + [s[i]];
      assert forall k :: 0 <= k < |p| ==> q[k] == p[k];
      assert IsPath(blocks, q);
    }
  }

  lemma {:induction false} ClosedHoldsPath(blocks: seq<Block>, s: seq<int>, p: seq<int>)
    requires Closed(blocks, s) && IsPath(blocks, p) && p[0] in s
    ensures p[|p| - 1] in s
    decreases |p|
  {
    if |p| > 1 {
      var q := p[..|p| - 1];
      assert IsPath(blocks, q);
      ClosedHoldsPath(blocks, s, q);
      var y := p[|p| - 2];
      assert p[|p| - 1] in EdgesOf(blocks, y);
      assert q[|q| - 1] == y;
      assert y in s;
      var j :| 0 <= j < |s| && s[j] == y;
      WithinHas(EdgesOf(blocks, s[j]), s, p[|p| - 1]);
    }
  }

  /** A closed list holding `a` holds everything reachable from `a`. */
  lemma ClosedHoldsReachable(blocks: seq<Block>, s: seq<int>, a: int, x: int)
    requires Closed(blocks, s) && a in s && Reaches(blocks, a, x)
    ensures x in s
  {
    var p :| IsPath(blocks, p) && p[0] == a && p[|p| - 1] == x;
    ClosedHoldsPath(blocks, s, p);
  }

  lemma {:induction false} DistinctLength(s: seq<int>, ids: set<int>)
    requires NoDuplicates(s) && forall i :: 0 <= i < |s| ==> s[i] in ids
    ensures |s| <= |ids|
    decreases |s|
  {
    if |s| > 0 {
      DistinctLength(s[1..], ids - {s[0]});
    }
  }

  /** Every edge of the first `n` listed blocks leads to a listed block. */
  predicate ClosedUpTo(blocks: seq<Block>, s: seq<int>, n: nat) {
    forall j :: 0 <= j < n && j < |s| ==> Within(EdgesOf(blocks, s[j]), s)
  }

  /** What the walk keeps true of its order: no repeats, only blocks, each found from an
      earlier one. */
  predicate WalkInvariant(blocks: seq<Block>, s: seq<int>) {
    NoDuplicates(s) && (forall i :: 0 <= i < |s| ==> s[i] in Ids(blocks)) && Discovered(blocks, s)
  }

  lemma WithinHas(a: seq<int>, b: seq<int>, x: int)
    requires Within(a, b) && x in a
    ensures x in b
  {
  }

  lemma WithinGrow(a: seq<int>, s: seq<int>, e: int)
    requires Within(a, s)
    ensures Within(a, s + [e])
  {
    forall x | x in a ensures x in s + [e] {
      assert x in s;
    }
  }

  lemma AppendFound(blocks: seq<Block>, s: seq<int>, head: nat, n: nat, e: int)
    requires WalkInvariant(blocks, s) && head < |s| && e in EdgesOf(blocks, s[head])
    requires e in Ids(blocks) && e !in s && ClosedUpTo(blocks, s, n)
    ensures WalkInvariant(blocks, s + [e]) && ClosedUpTo(blocks, s + [e], n)
    ensures (s + [e])[..|s|] == s
  {
    var t := s + [e];
    assert forall i :: 0 <= i < |s| ==> t[i] == s[i];
    assert t[|s|] in EdgesOf(blocks, t[head]);
    forall j | 0 <= j < n && j < |t| ensures Within(EdgesOf(blocks, t[j]), t) {
      if j < |s| {
        WithinGrow(EdgesOf(blocks, s[j]), s, e);
      } else {
        assert false;
      }
    }
  }

  lemma MissingEdge(blocks: seq<Block>, es: seq<int>)
    requires |es| > 0 && es[0] !in Ids(blocks)
    ensures !(forall e :: e in es ==> e in Ids(blocks))
  {
    var e0 := es[0];
    assert e0 in es;
  }

  /** `add(edge)` for each edge in turn: the block must exist (the dictionary lookup raises
      KeyError), and a block not yet listed is appended. */
  function AddEdges(blocks: seq<Block>, es: seq<int>, cur: seq<int>): (r: Result<seq<int>, Fault>)
    ensures r.Ok? ==> |cur| <= |r.value| && r.value[..|cur|] == cur && Within(es, r.value)
    ensures r.Ok? ==> forall i :: |cur| <= i < |r.value| ==> r.value[i] in es && r.value[i] !in cur
    ensures r.Ok? <==> forall e :: e in es ==> e in Ids(blocks)
    ensures r.Err? ==> r.error == KeyError
    decreases |es|
  {
    if |es| == 0 then Ok(cur)
    else if es[0] !in Ids(blocks) then
      MissingEdge(blocks, es);
      Err(KeyError)
    else
      var next := if es[0] in cur then cur else cur + [es[0]];
      var r := AddEdges(blocks, es[1..], next);
      assert forall e :: e in es <==> e == es[0] || e in es[1..];
      if r.Ok? then
        assert r.value[..|next|] == next;
        assert r.value[..|cur|] == next[..|cur|];
        assert es[0] in r.value by {
          assert es[0] in next;
        }
        r
      else r
  }

  /** Adding the edges of the block at `head` keeps the walk's invariant and closes `head`. */
  lemma {:induction false} AddEdgesKeeps(blocks: seq<Block>, es: seq<int>, cur: seq<int>, head: nat)
    requires head < |cur| && WalkInvariant(blocks, cur) && ClosedUpTo(blocks, cur, head)
    requires Within(es, EdgesOf(blocks, cur[head]))
    requires AddEdges(blocks, es, cur).Ok?
    ensures var r := AddEdges(blocks, es, cur).value;
      WalkInvariant(blocks, r) && ClosedUpTo(blocks, r, head)
    decreases |es|
  {
    if |es| > 0 {
      var next := if es[0] in cur then cur else cur + [es[0]];
      assert es[0] in EdgesOf(blocks, cur[head]);
      if es[0] !in cur {
        AppendFound(blocks, cur, head, head, es[0]);
        assert next[head] == cur[head];
      }
      assert Within(es[1..], EdgesOf(blocks, next[head]));
      AddEdgesKeeps(blocks, es[1..], next, head);
    }
  }

  /** The worklist walk of `blocks_in_natural_order`, before the last block is moved: the
      worklist is always the part of the order not yet visited, so visiting the block at
      `head` adds its not yet listed edge targets to the end of the order. */
  function Walk(blocks: seq<Block>, out: seq<int>, head: nat): (r: Result<seq<int>, Fault>)
    requires head <= |out| && WalkInvariant(blocks, out) && ClosedUpTo(blocks, out, head)
    ensures r.Ok? ==> |out| <= |r.value| && r.value[..|out|] == out
    ensures r.Ok? ==> WalkInvariant(blocks, r.value) && Closed(blocks, r.value)
    ensures r.Err? ==> r.error == KeyError
    ensures r.Err? && |out| > 0 ==> exists x :: Reaches(blocks, out[0], x) && Dangling(blocks, x)
    decreases |Ids(blocks)| - |out|, |out| - head
  {
    if head == |out| then Ok(out)
    else
      var added := AddEdges(blocks, EdgesOf(blocks, out[head]), out);
      if added.Err? then
        WalkStepFails(blocks, out, head);
        Err(KeyError)
      else
        WalkStep(blocks, out, head);
        var r := Walk(blocks, added.value, head + 1);
        if r.Ok? then
          PrefixOfPrefix(r.value, added.value, out);
          r
        else r
  }

  /** Visiting the block at `head` when one of its edges names no block: that block is
      reachable from the first and dangles. */
  lemma WalkStepFails(blocks: seq<Block>, out: seq<int>, head: nat)
    requires head < |out| && WalkInvariant(blocks, out)
    requires AddEdges(blocks, EdgesOf(blocks, out[head]), out).Err?
    ensures exists x :: Reaches(blocks, out[0], x) && Dangling(blocks, x)
  {
    DiscoveredReaches(blocks, out, head);
    assert Dangling(blocks, out[head]);
  }

  /** Visiting the block at `head` extends the order, keeps the invariant, closes `head`,
      and the order still lists only distinct blocks. */
  lemma WalkStep(blocks: seq<Block>, out: seq<int>, head: nat)
    requires head < |out| && WalkInvariant(blocks, out) && ClosedUpTo(blocks, out, head)
    requires AddEdges(blocks, EdgesOf(blocks, out[head]), out).Ok?
    ensures var next := AddEdges(blocks, EdgesOf(blocks, out[head]), out).value;
      |out| <= |next| <= |Ids(blocks)| && next[..|out|] == out && next[0] == out[0]
      && WalkInvariant(blocks, next) && ClosedUpTo(blocks, next, head + 1)
  {
    var es := EdgesOf(blocks, out[head]);
    var next := AddEdges(blocks, es, out).value;
    AddEdgesKeeps(blocks, es, out, head);
    assert next[head] == out[head];
    assert next[0] == out[0];
    DistinctLength(next, Ids(blocks));
  }

  lemma PrefixOfPrefix(a: seq<int>, b: seq<int>, c: seq<int>)
    requires |c| <= |b| <= |a| && a[..|b|] == b && b[..|c|] == c
    ensures a[..|c|] == c
  {
    assert a[..|c|] == a[..|b|][..|c|];
  }

  /** The walk from the entry block; a missing entry raises KeyError. */
  function BreadthFirst(blocks: seq<Block>, entry: int): (r: Result<seq<int>, Fault>)
    ensures r.Ok? ==> |r.value| > 0 && r.value[0] == entry
    ensures r.Ok? ==> WalkInvariant(blocks, r.value) && Closed(blocks, r.value)
    ensures r.Err? ==> r.error == KeyError
    ensures r.Err? ==> entry !in Ids(blocks) || exists x :: Reaches(blocks, entry, x) && Dangling(blocks, x)
  {
    if entry !in Ids(blocks) then Err(KeyError)
    else Walk(blocks, [entry], 0)
  }

  /** The largest block id. */
  function MaxId(blocks: seq<Block>): (m: int)
    requires |blocks| > 0
    ensures m in Ids(blocks)
    ensures forall i :: 0 <= i < |blocks| ==> blocks[i].id <= m
    decreases |blocks|
  {
    if |blocks| == 1 then blocks[0].id
    else
      var rest := MaxId(blocks[1..]);
      assert Ids(blocks) == {blocks[0].id} + Ids(blocks[1..]);
      if blocks[0].id > rest then blocks[0].id else rest
  }

  /** `out.remove(x); out.append(x)`: ValueError when `x` is not listed. */
  function MoveToEnd(s: seq<int>, x: int): (r: Result<seq<int>, Fault>)
    ensures r.Ok? <==> x in s
    ensures r.Ok? ==> |r.value| == |s| && r.value[|r.value| - 1] == x
    ensures r.Ok? ==> forall y :: y in r.value <==> y in s
    ensures r.Ok? && NoDuplicates(s) ==> NoDuplicates(r.value)
    ensures r.Ok? && |s| > 0 && s[0] != x ==> r.value[0] == s[0]
    ensures r.Ok? ==> r.value == s[..IndexOf(s, x)] + s[IndexOf(s, x) + 1..] + [x]
  {
    if x !in s then Err(ValueError)
    else
      var i := IndexOf(s, x);
      var t := s[..i] + s[i + 1..] + [x];
      assert forall y :: y in t <==> y in s by {
        assert s == s[..i] + [x] + s[i + 1..];
      }
      assert NoDuplicates(s) ==> NoDuplicates(t) by {
        if NoDuplicates(s) {
          forall a, b | 0 <= a < b < |t| ensures t[a] != t[b] {
            if b == |t| - 1 {
              assert t[a] == (if a < i then s[a] else s[a + 1]);
            } else {
              assert t[a] == (if a < i then s[a] else s[a + 1]);
              assert t[b] == (if b < i then s[b] else s[b + 1]);
            }
          }
        }
      }
      Ok(t)
  }

  function IndexOf(s: seq<int>, x: int): (i: nat)
    requires x in s
    ensures i < |s| && s[i] == x && x !in s[..i]
  {
    if s[0] == x then 0 else IndexOf(s[1..], x) + 1
  }

  /** `blocks_in_natural_order`: the breadth-first order from the entry over exactly the
      blocks reachable through `get_edges`, no block twice, with the highest-numbered block
      (the one holding the return) moved to the end; ValueError when that block is not
      reachable. */
  function NaturalOrder(f: Function): (r: Result<seq<int>, Fault>)
    ensures r.Ok? ==> NoDuplicates(r.value) && |r.value| > 0
    ensures r.Ok? ==> forall x :: x in r.value <==> Reaches(f.blocks, f.entry, x)
    ensures r.Ok? ==> |f.blocks| > 0 && r.value[|r.value| - 1] == MaxId(f.blocks)
    ensures r.Ok? && f.entry != MaxId(f.blocks) ==> r.value[0] == f.entry
    ensures r.Ok? ==> forall x :: Reaches(f.blocks, f.entry, x) ==> !Dangling(f.blocks, x)
    ensures r == Err(KeyError) ==> f.entry !in Ids(f.blocks) || exists x :: Reaches(f.blocks, f.entry, x) && Dangling(f.blocks, x)
    ensures r == Err(ValueError) ==> |f.blocks| > 0 && !Reaches(f.blocks, f.entry, MaxId(f.blocks))
    ensures r.Err? ==> r.error == KeyError || r.error == ValueError
  {
    var order :- BreadthFirst(f.blocks, f.entry);
    WalkReachable(f.blocks, order);
    MoveToEnd(order, MaxId(f.blocks))
  }

  /** A closed walk from its first block lists exactly the reachable blocks, none of them
      with an edge to a missing block. */
  lemma WalkReachable(blocks: seq<Block>, order: seq<int>)
    requires |order| > 0 && WalkInvariant(blocks, order) && Closed(blocks, order)
    ensures |blocks| > 0
    ensures forall x :: x in order <==> Reaches(blocks, order[0], x)
    ensures forall x :: Reaches(blocks, order[0], x) ==> !Dangling(blocks, x)
  {
    assert order[0] in Ids(blocks);
    forall x ensures x in order <==> Reaches(blocks, order[0], x) {
      if x in order {
        var i :| 0 <= i < |order| && order[i] == x;
        DiscoveredReaches(blocks, order, i);
      }
      if Reaches(blocks, order[0], x) {
        ClosedHoldsReachable(blocks, order, order[0], x);
      }
    }
    forall x | Reaches(blocks, order[0], x) ensures !Dangling(blocks, x) {
      var i :| 0 <= i < |order| && order[i] == x;
      forall e | e in EdgesOf(blocks, order[i]) ensures e in Ids(blocks) {
        WithinHas(EdgesOf(blocks, order[i]), order, e);
        var k :| 0 <= k < |order| && order[k] == e;
      }
    }
  }

  // ---------------------------------------------------------------- breadth-first order

  /** `x` is an edge target of one of the first `n` listed blocks. */
  predicate FoundBefore(blocks: seq<Block>, s: seq<int>, x: int, n: nat) {
    exists j :: 0 <= j < n && j < |s| && x in EdgesOf(blocks, s[j])
  }

  /** The first-in first-out rule for listed blocks `k < k2` and a block `j` with an edge to
      block `k2`: the earlier block `k` was already found before block `j` was visited, or
      it is found from block `j` too, by an earlier edge. */
  predicate FifoAt(blocks: seq<Block>, s: seq<int>, k: nat, k2: nat, j: nat)
    requires k < k2 < |s| && j < |s|
  {
    s[k2] in EdgesOf(blocks, s[j]) ==>
      FoundBefore(blocks, s, s[k], j)
      || (s[k] in EdgesOf(blocks, s[j])
          && IndexOf(EdgesOf(blocks, s[j]), s[k]) < IndexOf(EdgesOf(blocks, s[j]), s[k2]))
  }

  /** The rule holds for the first `n` listed blocks as the visiting ones. */
  predicate FifoUpTo(blocks: seq<Block>, s: seq<int>, n: nat) {
    forall k, k2, j :: 0 < k < k2 < |s| && 0 <= j < n && j < |s| ==> FifoAt(blocks, s, k, k2, j)
  }

  /** Breadth-first order: blocks are listed in the order of the block that first finds
      them, and blocks first found by the same block in the order of its edges. */
  predicate FifoOrder(blocks: seq<Block>, s: seq<int>) {
    FifoUpTo(blocks, s, |s|)
  }

  /** Every listed block but the first was found by one of the first `n` listed blocks. */
  predicate FoundUpTo(blocks: seq<Block>, s: seq<int>, n: nat) {
    forall k :: 0 < k < |s| ==> FoundBefore(blocks, s, s[k], n)
  }

  lemma IndexOfTail(s: seq<int>, x: int)
    requires x in s && x != s[0]
    ensures x in s[1..] && IndexOf(s, x) == 1 + IndexOf(s[1..], x)
  {
  }

  /** `add` appends the new targets in the order of their first edge. */
  lemma {:induction false} AddEdgesOrder(blocks: seq<Block>, es: seq<int>, cur: seq<int>)
    requires AddEdges(blocks, es, cur).Ok?
    ensures var r := AddEdges(blocks, es, cur).value;
      forall a, b :: |cur| <= a < b < |r| ==> IndexOf(es, r[a]) < IndexOf(es, r[b])
    decreases |es|
  {
    if |es| > 0 {
      var next := if es[0] in cur then cur else cur + [es[0]];
      var r := AddEdges(blocks, es, cur).value;
      assert r == AddEdges(blocks, es[1..], next).value;
      AddEdgesOrder(blocks, es[1..], next);
      assert es[0] in next;
      forall a, b | |cur| <= a < b < |r| ensures IndexOf(es, r[a]) < IndexOf(es, r[b]) {
        assert r[b] !in next;
        IndexOfTail(es, r[b]);
        if a >= |next| {
          IndexOfTail(es, r[a]);
        } else {
          assert r[a] == next[a] == es[0];
        }
      }
    }
  }

  /** Finding before `n` in a prefix is finding before `n` in the whole list. */
  lemma FoundBeforeGrow(blocks: seq<Block>, s: seq<int>, t: seq<int>, x: int, n: nat)
    requires |s| <= |t| && t[..|s|] == s && FoundBefore(blocks, s, x, n)
    ensures FoundBefore(blocks, t, x, n)
  {
    var j :| 0 <= j < n && j < |s| && x in EdgesOf(blocks, s[j]);
    assert t[j] == s[j];
  }

  /** Visiting the block at `head` keeps the rule, now with `head` among the visiting
      blocks, and everything listed is found by a visited block. */
  lemma FifoStep(blocks: seq<Block>, out: seq<int>, head: nat)
    requires head < |out| && WalkInvariant(blocks, out) && ClosedUpTo(blocks, out, head)
    requires FifoUpTo(blocks, out, head) && FoundUpTo(blocks, out, head)
    requires AddEdges(blocks, EdgesOf(blocks, out[head]), out).Ok?
    ensures var next := AddEdges(blocks, EdgesOf(blocks, out[head]), out).value;
      FifoUpTo(blocks, next, head + 1) && FoundUpTo(blocks, next, head + 1)
  {
    var es := EdgesOf(blocks, out[head]);
    var next := AddEdges(blocks, es, out).value;
    forall k, k2, j | 0 < k < k2 < |next| && 0 <= j < head + 1 && j < |next|
      ensures FifoAt(blocks, next, k, k2, j)
    {
      FifoStepAt(blocks, out, head, next, k, k2, j);
    }
    FoundStep(blocks, out, head, next);
  }

  /** The rule for one pair of listed blocks and one visiting block after the step. */
  lemma FifoStepAt(blocks: seq<Block>, out: seq<int>, head: nat, next: seq<int>, k: nat, k2: nat, j: nat)
    requires head < |out| && WalkInvariant(blocks, out) && ClosedUpTo(blocks, out, head)
    requires FifoUpTo(blocks, out, head) && FoundUpTo(blocks, out, head)
    requires AddEdges(blocks, EdgesOf(blocks, out[head]), out) == Ok(next)
    requires 0 < k < k2 < |next| && j <= head
    ensures FifoAt(blocks, next, k, k2, j)
  {
    assert next[..|out|] == out;
    assert next[j] == out[j];
    if next[k2] in EdgesOf(blocks, next[j]) {
      if j < head {
        WithinHas(EdgesOf(blocks, out[j]), out, next[k2]);
        assert k2 < |out|;
        assert next[k] == out[k] && next[k2] == out[k2];
        assert FifoAt(blocks, out, k, k2, j);
        if FoundBefore(blocks, out, out[k], j) {
          FoundBeforeGrow(blocks, out, next, out[k], j);
        }
      } else if k < |out| {
        assert next[k] == out[k];
        assert FoundBefore(blocks, out, out[k], head);
        FoundBeforeGrow(blocks, out, next, out[k], head);
      } else {
        AddEdgesOrder(blocks, EdgesOf(blocks, out[head]), out);
      }
    }
  }

  /** After the step every listed block but the first was found by a visited block. */
  lemma FoundStep(blocks: seq<Block>, out: seq<int>, head: nat, next: seq<int>)
    requires head < |out| && FoundUpTo(blocks, out, head)
    requires AddEdges(blocks, EdgesOf(blocks, out[head]), out) == Ok(next)
    ensures FoundUpTo(blocks, next, head + 1)
  {
    assert next[..|out|] == out;
    assert next[head] == out[head];
    forall k | 0 < k < |next| ensures FoundBefore(blocks, next, next[k], head + 1) {
      if k < |out| {
        assert next[k] == out[k];
        assert FoundBefore(blocks, out, out[k], head);
        FoundBeforeGrow(blocks, out, next, out[k], head);
        var j :| 0 <= j < head && j < |next| && next[k] in EdgesOf(blocks, next[j]);
      } else {
        assert next[k] in EdgesOf(blocks, next[head]);
      }
    }
  }

  /** The worklist walk lists blocks in breadth-first order. */
  lemma {:induction false} WalkFifo(blocks: seq<Block>, out: seq<int>, head: nat)
    requires head <= |out| && WalkInvariant(blocks, out) && ClosedUpTo(blocks, out, head)
    requires FifoUpTo(blocks, out, head) && FoundUpTo(blocks, out, head)
    requires Walk(blocks, out, head).Ok?
    ensures FifoOrder(blocks, Walk(blocks, out, head).value)
    decreases |Ids(blocks)| - |out|, |out| - head
  {
    if head < |out| {
      var next := AddEdges(blocks, EdgesOf(blocks, out[head]), out).value;
      WalkStep(blocks, out, head);
      FifoStep(blocks, out, head);
      assert Walk(blocks, out, head) == Walk(blocks, next, head + 1);
      WalkFifo(blocks, next, head + 1);
    }
  }

  /** The walk from the entry block lists the blocks breadth-first. */
  lemma BreadthFirstFifo(blocks: seq<Block>, entry: int)
    requires BreadthFirst(blocks, entry).Ok?
    ensures FifoOrder(blocks, BreadthFirst(blocks, entry).value)
  {
    WalkFifo(blocks, [entry], 0);
  }

  /** `blocks_in_natural_order` is the breadth-first order from the entry with the
      highest-numbered block taken out of its place and put last, the others keeping their
      order. */
  lemma NaturalOrderBreadthFirst(f: Function)
    requires NaturalOrder(f).Ok?
    ensures BreadthFirst(f.blocks, f.entry).Ok? && |f.blocks| > 0
    ensures var o := BreadthFirst(f.blocks, f.entry).value;
      FifoOrder(f.blocks, o) && MaxId(f.blocks) in o
      && NaturalOrder(f).value == o[..IndexOf(o, MaxId(f.blocks))] + o[IndexOf(o, MaxId(f.blocks)) + 1..] + [MaxId(f.blocks)]
  {
    var b := BreadthFirst(f.blocks, f.entry);
    var o := b.value;
    BreadthFirstFifo(f.blocks, f.entry);
    var moved := MoveToEnd(o, MaxId(f.blocks));
    assert NaturalOrder(f) == moved;
  }

  // ---------------------------------------------------------------- decoding tables

  /** The id -> declaration dictionary built while decoding, asserting each id is new. */
  function DeclTable(ds: seq<Decl>): (r: Result<map<int, Decl>, Fault>)
    ensures r.Ok? <==> forall i, j :: 0 <= i < j < |ds| ==> ds[i].binding.id != ds[j].binding.id
    ensures r.Ok? ==> forall i :: 0 <= i < |ds| ==> ds[i].binding.id in r.value && r.value[ds[i].binding.id] == ds[i]
    ensures r.Ok? ==> forall k :: k in r.value ==> exists i :: 0 <= i < |ds| && ds[i].binding.id == k
    decreases |ds|
  {
    if |ds| == 0 then Ok(map[])
    else
      var m :- DeclTable(ds[..|ds| - 1]);
      var d := ds[|ds| - 1];
      if d.binding.id in m then
        assert exists i :: 0 <= i < |ds| - 1 && ds[i].binding.id == d.binding.id;
        Err(AssertionError)
      else Ok(m[d.binding.id := d])
  }

  /** The block dictionary: decoding fails on a repeated block id. */
  function BlockTable(blocks: seq<Block>): (r: Result<seq<Block>, Fault>)
    ensures r.Ok? <==> DistinctIds(blocks)
    ensures r.Ok? ==> r.value == blocks
  {
    if DistinctIds(blocks) then Ok(blocks) else Err(AssertionError)
  }

  // ---------------------------------------------------------------- statement passes

  /** `for_every_statement(lambda x: x.attach_decls(decls))`: every statement of every
      block is attached from the table; `attach_decls` returns None, so nothing is removed. */
  function AttachBlocks(blocks: seq<Block>, scope: Scope, t: Table): (r: seq<Block>)
    ensures |r| == |blocks|
    ensures forall i :: 0 <= i < |blocks| ==> (r[i].id == blocks[i].id && r[i].next == blocks[i].next
      && |r[i].statements| == |blocks[i].statements|
      && forall k :: 0 <= k < |blocks[i].statements| ==> r[i].statements[k] == AttachStatement(blocks[i].statements[k], scope, t))
  {
    seq(|blocks|, i requires 0 <= i < |blocks| =>
      var b := blocks[i];
      b.(statements := seq(|b.statements|, k requires 0 <= k < |b.statements| => AttachStatement(b.statements[k], scope, t))))
  }

  /** Folding a value into a declaration does not change which statements fold. */
  lemma FoldKeepsFolding(s: Statement, scope: Scope, slot: Slot, id: int, v: Rendered)
    ensures FoldsTemporary(s, Fold(scope, slot, id, v)) == FoldsTemporary(s, scope)
  {
    if s.Assign? && s.lhs.Bound? && s.lhs.slot.Some? {
      FoldChangesOneDecl(scope, slot, id, v, s.lhs.slot.value, s.lhs.id);
    }
  }

  /** The statements that do not fold a temporary, in order. */
  function Unfolded(ss: seq<Statement>, scope: Scope): (r: seq<Statement>)
    decreases |ss|
  {
    if |ss| == 0 then []
    else (if FoldsTemporary(ss[0], scope) then [] else [ss[0]]) + Unfolded(ss[1..], scope)
  }

  /** `for_every_statement(lambda x: x.resolve_temporary_names())` over one block's
      statements: each statement is given the chance to fold, in order, with the folds made
      so far in force; the ones that fold are removed. */
  function FoldStatements(ss: seq<Statement>, scope: Scope): (r: Result<(seq<Statement>, Scope), Fault>)
    ensures r.Ok? ==> r.value.0 == Unfolded(ss, scope)
    decreases |ss|
  {
    if |ss| == 0 then Ok(([], scope))
    else
      var step :- Convolve(ss[0], scope);
      var (drop, scope2) := step;
      FoldKeepsFolding2(ss[1..], scope, ss[0]);
      var rest :- FoldStatements(ss[1..], scope2);
      Ok(((if drop then [] else [ss[0]]) + rest.0, rest.1))
  }

  /** Folding one statement does not change which of the later statements fold. */
  lemma {:induction false} FoldKeepsFolding2(ss: seq<Statement>, scope: Scope, s: Statement)
    requires Convolve(s, scope).Ok?
    ensures Unfolded(ss, Convolve(s, scope).value.1) == Unfolded(ss, scope)
    decreases |ss|
  {
    if |ss| > 0 {
      FoldKeepsFolding2(ss[1..], scope, s);
      if FoldsTemporary(s, scope) {
        var v := ExprToC(s.rhs[0], scope).value;
        FoldKeepsFolding(ss[0], scope, s.lhs.slot.value, s.lhs.id, v);
      }
    }
  }

  /** The folding pass over all blocks in order, the scope carrying the folds from block to
      block. */
  function FoldBlocks(blocks: seq<Block>, scope: Scope): (r: Result<(seq<Block>, Scope), Fault>)
    ensures r.Ok? ==> |r.value.0| == |blocks|
    ensures r.Ok? ==> forall i :: 0 <= i < |blocks| ==> r.value.0[i].id == blocks[i].id && r.value.0[i].next == blocks[i].next
    decreases |blocks|
  {
    if |blocks| == 0 then Ok(([], scope))
    else
      var (kept, scope2) :- FoldStatements(blocks[0].statements, scope);
      var (rest, scope3) :- FoldBlocks(blocks[1..], scope2);
      Ok(([blocks[0].(statements := kept)] + rest, scope3))
  }

  /** The folding pass removes exactly the statements that assign one operand to an
      attached temporary — judged on the scope before the pass, since folding never changes
      the answer — and keeps every other statement in order. */
  lemma {:induction false} FoldBlocksRemovesFolds(blocks: seq<Block>, scope: Scope)
    requires FoldBlocks(blocks, scope).Ok?
    ensures forall i :: 0 <= i < |blocks| ==> FoldBlocks(blocks, scope).value.0[i].statements == Unfolded(blocks[i].statements, scope)
    decreases |blocks|
  {
    if |blocks| > 0 {
      var (kept, scope2) := FoldStatements(blocks[0].statements, scope).value;
      FoldBlocksRemovesFolds(blocks[1..], scope2);
      forall i | 1 <= i < |blocks| ensures Unfolded(blocks[i].statements, scope2) == Unfolded(blocks[i].statements, scope) {
        FoldStatementsKeepsFolding(blocks[0].statements, scope, blocks[i].statements);
      }
    }
  }

  /** A whole folding pass over some statements does not change which other statements fold. */
  lemma {:induction false} FoldStatementsKeepsFolding(ss: seq<Statement>, scope: Scope, others: seq<Statement>)
    requires FoldStatements(ss, scope).Ok?
    ensures Unfolded(others, FoldStatements(ss, scope).value.1) == Unfolded(others, scope)
    decreases |ss|
  {
    if |ss| > 0 {
      var scope2 := Convolve(ss[0], scope).value.1;
      FoldKeepsFolding2(others, scope, ss[0]);
      FoldStatementsKeepsFolding(ss[1..], scope2, others);
    }
  }

  /** The three attachment passes of `resolve_temporary_names` on one statement: from the
      arguments, then the locals, then the externals. */
  function AttachThree(s: Statement, scope: Scope): Statement {
    AttachStatement(AttachStatement(AttachStatement(s, scope, ArgsTable), scope, LocalsTable), scope, ExternalsTable)
  }

  function AttachThreeAll(ss: seq<Statement>, scope: Scope): (r: seq<Statement>)
    ensures |r| == |ss| && forall k :: 0 <= k < |ss| ==> r[k] == AttachThree(ss[k], scope)
  {
    seq(|ss|, k requires 0 <= k < |ss| => AttachThree(ss[k], scope))
  }

  /** Attaching the blocks three times attaches each statement by the three passes. */
  lemma AttachBlocksThree(blocks: seq<Block>, scope: Scope)
    ensures var b3 := AttachBlocks(AttachBlocks(AttachBlocks(blocks, scope, ArgsTable), scope, LocalsTable), scope, ExternalsTable);
      |b3| == |blocks| && forall i :: 0 <= i < |blocks| ==>
        b3[i].id == blocks[i].id && b3[i].next == blocks[i].next
        && b3[i].statements == AttachThreeAll(blocks[i].statements, scope)
  {
    var b1 := AttachBlocks(blocks, scope, ArgsTable);
    var b2 := AttachBlocks(b1, scope, LocalsTable);
    var b3 := AttachBlocks(b2, scope, ExternalsTable);
    forall i | 0 <= i < |blocks| ensures b3[i].statements == AttachThreeAll(blocks[i].statements, scope) {
      assert |b3[i].statements| == |blocks[i].statements|;
    }
  }

  /** `resolve_temporary_names`: attach from the arguments (as an id -> decl dictionary),
      then the locals, then the externals, then fold. Each block keeps its id and edges, and
      its statements become the attached statements that do not fold a temporary. */
  function ResolveTemporaryNames(f: Function): (r: Result<Function, Fault>)
    ensures r.Ok? ==> r.value.entry == f.entry && |r.value.blocks| == |f.blocks|
    ensures r.Ok? ==> SameShape(f.scope, r.value.scope)
    ensures r.Ok? ==> r.value == f.(blocks := r.value.blocks, scope := r.value.scope)
    ensures r.Ok? ==> forall i :: 0 <= i < |f.blocks| ==>
      r.value.blocks[i].id == f.blocks[i].id && r.value.blocks[i].next == f.blocks[i].next
      && r.value.blocks[i].statements == Unfolded(AttachThreeAll(f.blocks[i].statements, f.scope), f.scope)
  {
    var b1 := AttachBlocks(f.blocks, f.scope, ArgsTable);
    var b2 := AttachBlocks(b1, f.scope, LocalsTable);
    var b3 := AttachBlocks(b2, f.scope, ExternalsTable);
    var (blocks, scope) :- FoldBlocks(b3, f.scope);
    FoldScopeShape(b3, f.scope);
    FoldBlocksRemovesFolds(b3, f.scope);
    AttachBlocksThree(f.blocks, f.scope);
    Ok(f.(blocks := blocks, scope := scope))
  }

  /** Two scopes declare the same things with the same types; only folded values may
      differ. */
  predicate SameShape(a: Scope, b: Scope) {
    a.members.Keys == b.members.Keys && a.locals.Keys == b.locals.Keys
    && a.externals.Keys == b.externals.Keys && |a.args| == |b.args|
    && (forall k :: k in a.members ==> b.members[k].ty == a.members[k].ty)
    && (forall k :: k in a.locals ==> b.locals[k].ty == a.locals[k].ty)
    && (forall k :: k in a.externals ==> b.externals[k].ty == a.externals[k].ty)
    && (forall i :: 0 <= i < |a.args| ==> b.args[i].ty == a.args[i].ty)
  }

  lemma SameShapeTrans(a: Scope, b: Scope, c: Scope)
    requires SameShape(a, b) && SameShape(b, c)
    ensures SameShape(a, c)
  {
  }

  lemma ConvolveShape(s: Statement, scope: Scope)
    requires Convolve(s, scope).Ok?
    ensures SameShape(scope, Convolve(s, scope).value.1)
  {
  }

  lemma {:induction false} FoldStatementsShape(ss: seq<Statement>, scope: Scope)
    requires FoldStatements(ss, scope).Ok?
    ensures SameShape(scope, FoldStatements(ss, scope).value.1)
    decreases |ss|
  {
    if |ss| > 0 {
      var scope2 := Convolve(ss[0], scope).value.1;
      ConvolveShape(ss[0], scope);
      FoldStatementsShape(ss[1..], scope2);
      SameShapeTrans(scope, scope2, FoldStatements(ss, scope).value.1);
    }
  }

  /** The folding pass changes folded values only: every declaration keeps its type. */
  lemma {:induction false} FoldScopeShape(blocks: seq<Block>, scope: Scope)
    requires FoldBlocks(blocks, scope).Ok?
    ensures SameShape(scope, FoldBlocks(blocks, scope).value.1)
    decreases |blocks|
  {
    if |blocks| > 0 {
      var (kept, scope2) := FoldStatements(blocks[0].statements, scope).value;
      FoldStatementsShape(blocks[0].statements, scope);
      FoldScopeShape(blocks[1..], scope2);
      SameShapeTrans(scope, scope2, FoldBlocks(blocks, scope).value.1);
    }
  }

  /** The slot the three attachment passes give a reference: the externals win over the
      locals, which win over the arguments; a reference in none keeps what it had. */
  function PrecedenceSlot(b: Expr, scope: Scope): Option<Slot>
    requires b.Bound?
  {
    if SlotIn(scope, ExternalsTable, b.id).Some? then SlotIn(scope, ExternalsTable, b.id)
    else if SlotIn(scope, LocalsTable, b.id).Some? then SlotIn(scope, LocalsTable, b.id)
    else if SlotIn(scope, ArgsTable, b.id).Some? then SlotIn(scope, ArgsTable, b.id)
    else b.slot
  }

  lemma AttachPrecedence(e: Expr, scope: Scope)
    ensures var e3 := Attach(Attach(Attach(e, scope, ArgsTable), scope, LocalsTable), scope, ExternalsTable);
      |Refs(e3)| == |Refs(e)| && forall i :: 0 <= i < |Refs(e)| ==> Refs(e3)[i] == Bound(Refs(e)[i].id, PrecedenceSlot(Refs(e)[i], scope))
  {
    var e1 := Attach(e, scope, ArgsTable);
    var e2 := Attach(e1, scope, LocalsTable);
    AttachEveryRef(e, scope, ArgsTable);
    AttachEveryRef(e1, scope, LocalsTable);
    AttachEveryRef(e2, scope, ExternalsTable);
  }

  // ---------------------------------------------------------------- aggregate resolution

  /** `id` is the id of a member of a structure or union listed in `order`. */
  ghost predicate MemberOfListed(table: map<int, Type>, order: seq<int>, id: int) {
    exists i :: 0 <= i < |order| && order[i] in table && HasMember(table[order[i]], id)
  }

  /** The members of the structures and unions listed in `order`, in that order: the list
      `collect_aggregate_decls` builds. */
  function AggregateMembers(table: map<int, Type>, order: seq<int>): (ds: seq<Decl>)
    ensures forall p :: 0 <= p < |ds| ==> MemberOfListed(table, order, ds[p].binding.id)
    decreases |order|
  {
    if |order| == 0 then []
    else
      var init := order[..|order| - 1];
      var before := AggregateMembers(table, init);
      var last := order[|order| - 1];
      var here := if last in table && (table[last].Structure? || table[last].Union?) then table[last].members else [];
      var all := before + here;
      forall p | 0 <= p < |all| ensures MemberOfListed(table, order, all[p].binding.id) {
        if p < |before| {
          assert all[p] == before[p];
          assert MemberOfListed(table, init, before[p].binding.id);
          var i :| 0 <= i < |init| && init[i] in table && HasMember(table[init[i]], before[p].binding.id);
          assert init[i] == order[i];
        } else {
          assert all[p] == here[p - |before|];
          assert HasMember(table[last], here[p - |before|].binding.id);
          assert order[|order| - 1] == last;
        }
      }
      all
  }

  /** `dict((d.binding.id, d) for d in ds)`: the keys are the ids of `ds`, and each
      declaration is the entry for its id unless a later one has the same id. */
  ghost predicate LastWins(ds: seq<Decl>, m: map<int, Decl>) {
    (forall k :: k in m <==> exists p :: 0 <= p < |ds| && ds[p].binding.id == k)
    && forall p :: 0 <= p < |ds| ==>
         (ds[p].binding.id in m
          && (m[ds[p].binding.id] == ds[p] || exists q :: p < q < |ds| && ds[q].binding.id == ds[p].binding.id))
  }

  /** Storing the pairs of `ds` in order into `m0` gives `m`: the keys of `m0` and of `ds`;
      an entry of `m0` that `ds` does not name is kept; and each declaration of `ds` is the
      entry for its id unless a later one has the same id. */
  ghost predicate LastWinsOver(m0: map<int, Decl>, ds: seq<Decl>, m: map<int, Decl>) {
    (forall k :: k in m <==> k in m0 || exists p :: 0 <= p < |ds| && ds[p].binding.id == k)
    && (forall k :: k in m0 && (forall p :: 0 <= p < |ds| ==> ds[p].binding.id != k) ==> k in m && m[k] == m0[k])
    && forall p :: 0 <= p < |ds| ==>
         (ds[p].binding.id in m
          && (m[ds[p].binding.id] == ds[p] || exists q :: p < q < |ds| && ds[q].binding.id == ds[p].binding.id))
  }

  /** The declarations inside the aggregates of the type table (structure and union
      members), by binding id, taken in table order so that a later one with the same id
      replaces an earlier one. */
  function MemberDecls(table: map<int, Type>, order: seq<int>): (m: map<int, Decl>)
    ensures forall k :: k in m ==> MemberOfListed(table, order, k)
    decreases |order|
  {
    if |order| == 0 then map[]
    else
      var before := MemberDecls(table, order[..|order| - 1]);
      var last := order[|order| - 1];
      if last in table && (table[last].Structure? || table[last].Union?) then
        var m := AddMembers(before, table[last].members);
        assert forall k :: k in m ==> k in before || HasMember(table[last], k);
        m
      else before
  }

  /** The member table is the dictionary of the aggregates' member list: every member's id
      is a key, and each id maps to the last member carrying it. */
  lemma {:induction false} MemberDeclsLastWins(table: map<int, Type>, order: seq<int>)
    ensures LastWins(AggregateMembers(table, order), MemberDecls(table, order))
    decreases |order|
  {
    if |order| > 0 {
      var init := order[..|order| - 1];
      var last := order[|order| - 1];
      MemberDeclsLastWins(table, init);
      var before := MemberDecls(table, init);
      if last in table && (table[last].Structure? || table[last].Union?) {
        var ms := table[last].members;
        AddMembersLastWins(before, ms);
        LastWinsAppend(AggregateMembers(table, init), before, ms, AddMembers(before, ms));
      } else {
        assert AggregateMembers(table, order) == AggregateMembers(table, init) + [];
        assert AggregateMembers(table, init) + [] == AggregateMembers(table, init);
      }
    }
  }

  /** Every member of every structure or union listed is collected. */
  lemma {:induction false} AggregateMembersComplete(table: map<int, Type>, order: seq<int>, id: int)
    requires MemberOfListed(table, order, id)
    ensures exists p :: 0 <= p < |AggregateMembers(table, order)| && AggregateMembers(table, order)[p].binding.id == id
    decreases |order|
  {
    var init := order[..|order| - 1];
    var last := order[|order| - 1];
    var before := AggregateMembers(table, init);
    var here := if last in table && (table[last].Structure? || table[last].Union?) then table[last].members else [];
    assert AggregateMembers(table, order) == before + here;
    var i :| 0 <= i < |order| && order[i] in table && HasMember(table[order[i]], id);
    if i < |order| - 1 {
      assert init[i] == order[i];
      AggregateMembersComplete(table, init, id);
      var p :| 0 <= p < |before| && before[p].binding.id == id;
      assert (before + here)[p] == before[p];
    } else {
      var j :| 0 <= j < |here| && here[j].binding.id == id;
      assert (before + here)[|before| + j] == here[j];
    }
  }

  /** The keys of the member table are exactly the ids of the members of the structures and
      unions listed. */
  lemma MemberDeclsKeys(table: map<int, Type>, order: seq<int>)
    ensures forall k :: k in MemberDecls(table, order) <==> MemberOfListed(table, order, k)
  {
    MemberDeclsLastWins(table, order);
    forall k | MemberOfListed(table, order, k) ensures k in MemberDecls(table, order) {
      AggregateMembersComplete(table, order, k);
    }
  }

  /** A dictionary of `a` updated by the pairs of `b` is the dictionary of `a + b`. */
  lemma LastWinsAppend(a: seq<Decl>, m: map<int, Decl>, b: seq<Decl>, m2: map<int, Decl>)
    requires LastWins(a, m) && LastWinsOver(m, b, m2)
    ensures LastWins(a + b, m2)
  {
    var ab := a + b;
    forall k ensures k in m2 <==> exists p :: 0 <= p < |ab| && ab[p].binding.id == k {
      if k in m2 {
        if k in m {
          var p :| 0 <= p < |a| && a[p].binding.id == k;
          assert ab[p] == a[p];
        } else {
          var p :| 0 <= p < |b| && b[p].binding.id == k;
          assert ab[|a| + p] == b[p];
        }
      }
      if exists p :: 0 <= p < |ab| && ab[p].binding.id == k {
        var p :| 0 <= p < |ab| && ab[p].binding.id == k;
        if p < |a| {
          assert a[p] == ab[p];
        } else {
          assert b[p - |a|] == ab[p];
        }
      }
    }
    forall p | 0 <= p < |ab|
      ensures ab[p].binding.id in m2
      ensures m2[ab[p].binding.id] == ab[p] || exists q :: p < q < |ab| && ab[q].binding.id == ab[p].binding.id
    {
      var k := ab[p].binding.id;
      if p < |a| {
        assert ab[p] == a[p];
        if exists q :: 0 <= q < |b| && b[q].binding.id == k {
          var q :| 0 <= q < |b| && b[q].binding.id == k;
          assert ab[|a| + q] == b[q];
        } else if m[k] != a[p] {
          var q :| p < q < |a| && a[q].binding.id == k;
          assert ab[q] == a[q];
        }
      } else {
        var p' := p - |a|;
        assert ab[p] == b[p'];
        if m2[k] != b[p'] {
          var q :| p' < q < |b| && b[q].binding.id == k;
          assert ab[|a| + q] == b[q];
        }
      }
    }
  }

  /** Storing the pairs of `ds` one by one into `m0`. */
  lemma {:induction false} AddMembersLastWins(m0: map<int, Decl>, ds: seq<Decl>)
    ensures LastWinsOver(m0, ds, AddMembers(m0, ds))
    decreases |ds|
  {
    if |ds| > 0 {
      var d := ds[0];
      var m1 := m0[d.binding.id := d];
      var tail := ds[1..];
      var r := AddMembers(m0, ds);
      assert r == AddMembers(m1, tail);
      AddMembersLastWins(m1, tail);
      assert forall p :: 1 <= p < |ds| ==> tail[p - 1] == ds[p];
      forall k ensures k in r <==> k in m0 || exists p :: 0 <= p < |ds| && ds[p].binding.id == k {
        if k in r && k !in m0 && k != d.binding.id {
          var p :| 0 <= p < |tail| && tail[p].binding.id == k;
          assert ds[p + 1] == tail[p];
        }
        if exists p :: 0 <= p < |ds| && ds[p].binding.id == k {
          var p :| 0 <= p < |ds| && ds[p].binding.id == k;
          if p > 0 {
            assert tail[p - 1] == ds[p];
          }
        }
      }
      forall k | k in m0 && (forall p :: 0 <= p < |ds| ==> ds[p].binding.id != k) ensures k in r && r[k] == m0[k] {
        assert ds[0].binding.id != k;
        forall p | 0 <= p < |tail| ensures tail[p].binding.id != k {
          assert tail[p] == ds[p + 1];
        }
      }
      forall p | 0 <= p < |ds|
        ensures ds[p].binding.id in r
        ensures r[ds[p].binding.id] == ds[p] || exists q :: p < q < |ds| && ds[q].binding.id == ds[p].binding.id
      {
        var k := ds[p].binding.id;
        if p == 0 {
          if exists q :: 0 <= q < |tail| && tail[q].binding.id == k {
            var q :| 0 <= q < |tail| && tail[q].binding.id == k;
            assert ds[q + 1] == tail[q];
          } else {
            assert k in m1 && m1[k] == d;
          }
        } else {
          assert tail[p - 1] == ds[p];
          if r[k] != ds[p] {
            var q :| p - 1 < q < |tail| && tail[q].binding.id == k;
            assert ds[q + 1] == tail[q];
          }
        }
      }
    }
  }

  predicate HasMember(t: Type, id: int) {
    (t.Structure? || t.Union?) && exists i :: 0 <= i < |t.members| && t.members[i].binding.id == id
  }

  function AddMembers(m: map<int, Decl>, ds: seq<Decl>): (r: map<int, Decl>)
    ensures forall k :: k in r ==> k in m || exists i :: 0 <= i < |ds| && ds[i].binding.id == k
    ensures forall k :: k in m ==> k in r
    ensures forall i :: 0 <= i < |ds| ==> ds[i].binding.id in r
    decreases |ds|
  {
    if |ds| == 0 then m
    else AddMembers(m[ds[0].binding.id := ds[0]], ds[1..])
  }

  function ResolveLocals(m: map<int, Decl>, table: map<int, Type>): (r: Result<map<int, Decl>, Fault>)
    ensures r.Ok? <==> forall k :: k in m ==> RefsIn(m[k].ty, table.Keys)
    ensures r.Ok? ==> r.value.Keys == m.Keys
    ensures r.Ok? ==> forall k :: k in m ==> ResolveDecl(m[k], table) == Ok(r.value[k])
  {
    if forall k :: k in m ==> RefsIn(m[k].ty, table.Keys) then
      Ok(map k | k in m :: ResolveDecl(m[k], table).value)
    else Err(AssertionError)
  }

  /** `Function.resolve_aggregates`: the locals', arguments' and externals' types are
      resolved against the type table (AssertionError on a missing aggregate), then every
      statement is attached from the members of the table's aggregates. The statements'
      own `resolve_aggregates` pass that follows changes nothing: only a call has one, and it
      hands its argument expressions to `resolve_aggregates`, which returns anything that
      is not a type unchanged. */
  function ResolveFunctionAggregates(f: Function, table: map<int, Type>, order: seq<int>): (r: Result<Function, Fault>)
    ensures r.Ok? <==>
      (forall k :: k in f.scope.locals ==> RefsIn(f.scope.locals[k].ty, table.Keys))
      && (forall i :: 0 <= i < |f.scope.args| ==> RefsIn(f.scope.args[i].ty, table.Keys))
      && (forall k :: k in f.scope.externals ==> RefsIn(f.scope.externals[k].ty, table.Keys))
    ensures r.Err? ==> r.error == AssertionError
    ensures r.Ok? ==> (forall k :: k in r.value.scope.locals ==> Resolved(r.value.scope.locals[k].ty))
    ensures r.Ok? ==> (forall i :: 0 <= i < |r.value.scope.args| ==> Resolved(r.value.scope.args[i].ty))
    ensures r.Ok? ==> (forall k :: k in r.value.scope.externals ==> Resolved(r.value.scope.externals[k].ty))
    ensures r.Ok? ==> r.value.scope.locals.Keys == f.scope.locals.Keys && r.value.scope.externals.Keys == f.scope.externals.Keys
    ensures r.Ok? ==> |r.value.scope.args| == |f.scope.args|
    ensures r.Ok? ==> forall i :: 0 <= i < |f.scope.args| ==> r.value.scope.args[i].binding == f.scope.args[i].binding
    ensures r.Ok? ==> r.value.scope.members == MemberDecls(table, order)
    ensures r.Ok? ==> r.value.blocks == AttachBlocks(f.blocks, r.value.scope, MembersTable)
    ensures r.Ok? ==> r.value == f.(scope := r.value.scope, blocks := r.value.blocks)
  {
    var locals :- ResolveLocals(f.scope.locals, table);
    var args :- ResolveDecls(f.scope.args, table);
    var externals :- ResolveLocals(f.scope.externals, table);
    var scope := Scope(MemberDecls(table, order), args, locals, externals);
    Ok(f.(scope := scope, blocks := AttachBlocks(f.blocks, scope, MembersTable)))
  }
}
