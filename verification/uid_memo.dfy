/** The plugin's record of which type and declaration uids it has already written: a
    growable array whose first `next` entries are the members, plus the two disciplines built
    on it, the type worklist of `lh_memo_type` and the per-function declaration memo of
    `lh_memo_decl`. */
module UidMemo {
  import opened Wrappers

  /** `uid_memo`: the buffer `v` of capacity `len`, of which `v[..next]` is in use. Entries
      beyond `next` are whatever the allocator left there. */
  datatype Memo = Memo(v: seq<nat>, len: nat, next: nat)

  /** The capacities the growth rule produces: none yet, 16, then doublings. */
  predicate IsCapacity(n: nat)
    decreases n
  {
    n == 0 || n == 16 || (n > 16 && n % 2 == 0 && IsCapacity(n / 2))
  }

  predicate NoDuplicates(s: seq<nat>) {
    forall i, j :: 0 <= i < j < |s| ==> s[i] != s[j]
  }

  /** The invariant every operation keeps. */
  predicate Valid(m: Memo) {
    |m.v| == m.len && m.next <= m.len && IsCapacity(m.len) && NoDuplicates(m.v[..m.next])
  }

  function Contents(m: Memo): seq<nat>
    requires m.next <= |m.v|
  {
    m.v[..m.next]
  }

  /** The set view of a memo, against which `uidm_has` is stated. */
  predicate Contains(m: Memo, uid: nat)
    requires m.next <= |m.v|
  {
    uid in Contents(m)
  }

  /** `uidm_init`: no buffer, nothing stored. `uidm_destroy` leaves the same state. */
  function Init(): (m: Memo)
    ensures Valid(m) && m.len == 0
    ensures forall uid: nat :: !Contains(m, uid)
  {
    Memo([], 0, 0)
  }

  /** `uidm_empty`: forget every member but keep the buffer. */
  function Empty(m: Memo): (r: Memo)
    requires Valid(m)
    ensures Valid(r) && r.v == m.v && r.len == m.len
    ensures forall uid: nat :: !Contains(r, uid)
  {
    m.(next := 0)
  }

  /** `uidm_has`: a linear scan of the members. */
  method Has(m: Memo, uid: nat) returns (found: bool)
    requires m.next <= |m.v|
    ensures found <==> Contains(m, uid)
  {
    var i := 0;
    while i < m.next
      invariant i <= m.next
      invariant forall j :: 0 <= j < i ==> m.v[j] != uid
    {
      if uid == m.v[i] {
        return true;
      }
      i := i + 1;
    }
    return false;
  }

  /** The capacity after growing a full buffer. */
  function Grown(len: nat): (n: nat)
    requires IsCapacity(len)
    ensures IsCapacity(n) && n > len
  {
    if len == 0 then 16 else assert (2 * len) / 2 == len; 2 * len
  }

  /** `uidm_add`: a uid already present changes nothing; otherwise it is appended, the
      buffer growing first when it is full. */
  function Add(m: Memo, uid: nat): (r: Memo)
    requires Valid(m)
    ensures Valid(r) && Contains(r, uid)
    ensures Contains(m, uid) ==> r == m
    ensures !Contains(m, uid) ==> Contents(r) == Contents(m) + [uid]
    ensures r.len == if !Contains(m, uid) && m.next == m.len then Grown(m.len) else m.len
  {
    if Contains(m, uid) then m
    else
      var len := if m.next == m.len then Grown(m.len) else m.len;
      var v := m.v + seq(len - m.len, _ => 0);
      var r := Memo(v[m.next := uid], len, m.next + 1);
      assert Contents(r) == Contents(m) + [uid];
      r
  }

  // ---------------------------------------------------------------- lh_memo_decl

  /** `lh_memo_decl`: the memo afterwards and whether the declaration is written now. */
  function MemoDecl(m: Memo, uid: nat): (r: (Memo, bool))
    requires Valid(m)
    ensures r.1 <==> !Contains(m, uid)
    ensures r.0 == Add(m, uid)
  {
    (Add(m, uid), !Contains(m, uid))
  }

  /** The declarations written while one function is serialised: the memo is emptied when
      the function starts, then every referenced declaration goes through `lh_memo_decl`. */
  function FunctionExternals(m: Memo, refs: seq<nat>): (written: seq<nat>)
    requires Valid(m)
  {
    ExternalsFrom(Empty(m), refs)
  }

  function ExternalsFrom(m: Memo, refs: seq<nat>): (written: seq<nat>)
    requires Valid(m)
    decreases |refs|
  {
    if |refs| == 0 then []
    else
      var (m', now) := MemoDecl(m, refs[0]);
      (if now then [refs[0]] else []) + ExternalsFrom(m', refs[1..])
  }

  /** Each declaration a function references is written exactly once for that function,
      whatever earlier functions wrote, and nothing else is written. */
  lemma FunctionExternalsOnce(m: Memo, refs: seq<nat>)
    requires Valid(m)
    ensures NoDuplicates(FunctionExternals(m, refs))
    ensures forall u: nat :: u in FunctionExternals(m, refs) <==> u in refs
  {
    ExternalsFromOnce(Empty(m), refs);
  }

  lemma {:induction false} ExternalsFromOnce(m: Memo, refs: seq<nat>)
    requires Valid(m)
    ensures NoDuplicates(ExternalsFrom(m, refs))
    ensures forall u: nat :: u in ExternalsFrom(m, refs) <==> u in refs && !Contains(m, u)
    decreases |refs|
  {
    if |refs| > 0 {
      var m' := Add(m, refs[0]);
      ExternalsFromOnce(m', refs[1..]);
      var rest := ExternalsFrom(m', refs[1..]);
      forall u: nat ensures u in ExternalsFrom(m, refs) <==> u in refs && !Contains(m, u) {
        assert u in refs <==> u == refs[0] || u in refs[1..];
      }
      if !Contains(m, refs[0]) {
        assert refs[0] !in rest;
        assert ExternalsFrom(m, refs) == [refs[0]] + rest;
      }
    }
  }

  // ---------------------------------------------------------------- lh_memo_type

  /** The capacity of `lh_memo_type`'s stack of deferred types. */
  const StackSize: nat := 512

  /** The nested-type calls made while one type is written: each uid not yet in the memo is
      pushed; a push onto a full stack fails the assertion (None). */
  function Push(m: Memo, stack: seq<nat>, refs: seq<nat>): (r: Option<seq<nat>>)
    requires m.next <= |m.v|
    requires |stack| <= StackSize
    ensures r.Some? ==> |stack| <= |r.value| <= StackSize && r.value[..|stack|] == stack
    ensures r.Some? ==> forall i :: |stack| <= i < |r.value| ==> r.value[i] in refs && !Contains(m, r.value[i])
    decreases |refs|
  {
    if |refs| == 0 then Some(stack)
    else if Contains(m, refs[0]) then Push(m, stack, refs[1..])
    else if |stack| == StackSize then None
    else
      var r :- Push(m, stack + [refs[0]], refs[1..]);
      assert r[..|stack|] == (r[..|stack| + 1])[..|stack|];
      Some(r)
  }

  /** The loop over the stack: an entry already written is skipped; otherwise it is noted,
      written (which may push more), and the loop goes on to the new top. `written` is what
      was written so far. */
  function Drain(m: Memo, stack: seq<nat>, i: nat, refs: nat -> seq<nat>, written: seq<nat>): (r: Option<(Memo, seq<nat>)>)
    requires Valid(m)
    requires i <= |stack| <= StackSize
    ensures r.Some? ==> Valid(r.value.0) && |r.value.1| >= |written| && r.value.1[..|written|] == written
    ensures r.Some? ==> Contents(r.value.0) == Contents(m) + r.value.1[|written|..]
    decreases StackSize - |stack|, |stack| - i
  {
    if i == |stack| then
      assert written[|written|..] == [];
      Some((m, written))
    else if Contains(m, stack[i]) then Drain(m, stack, i + 1, refs, written)
    else
      var m' := Add(m, stack[i]);
      var stack' :- Push(m', stack, refs(stack[i]));
      var r :- Drain(m', stack', i + 1, refs, written + [stack[i]]);
      Shift(Contents(m), written, stack[i], r.1);
      Some(r)
  }

  /** Noting `x` after `written` and then writing the rest of `w` is writing all of `w`
      after `written`. */
  lemma Shift(c: seq<nat>, written: seq<nat>, x: nat, w: seq<nat>)
    requires |w| >= |written| + 1 && w[..|written| + 1] == written + [x]
    ensures w[..|written|] == written
    ensures (c + [x]) + w[|written| + 1..] == c + w[|written|..]
  {
    assert w[..|written|] == w[..|written| + 1][..|written|];
    assert w[|written|..] == [x] + w[|written| + 1..];
  }

  /** `lh_memo_type`: a type already in the memo is not written again; otherwise it is noted
      first, written, and every type it pushed is drained. Returns the memo and the uids
      written, in order; None when more than `StackSize` types were deferred. */
  function MemoType(m: Memo, t: nat, refs: nat -> seq<nat>): (r: Option<(Memo, seq<nat>)>)
    requires Valid(m)
    ensures Contains(m, t) ==> r == Some((m, []))
    ensures r.Some? ==> Valid(r.value.0) && Contents(r.value.0) == Contents(m) + r.value.1
    ensures r.Some? ==> Contains(r.value.0, t)
    ensures r.Some? && !Contains(m, t) ==> |r.value.1| > 0 && r.value.1[0] == t
  {
    if Contains(m, t) then
      assert Contents(m) + [] == Contents(m);
      Some((m, []))
    else
      var m' := Add(m, t);
      var stack :- Push(m', [], refs(t));
      var r :- Drain(m', stack, 0, refs, [t]);
      Shift(Contents(m), [], t, r.1);
      Some(r)
  }

  /** Every type is written at most once over the whole unit: what one call writes is
      disjoint from everything written before, and repeats nothing. */
  lemma TypesWrittenOnce(m: Memo, t: nat, refs: nat -> seq<nat>)
    requires Valid(m)
    requires MemoType(m, t, refs).Some?
    ensures var (m', written) := MemoType(m, t, refs).value;
      NoDuplicates(written) && forall u :: u in written ==> !Contains(m, u)
  {
    var (m', written) := MemoType(m, t, refs).value;
    NoDuplicatesSplit(Contents(m), written);
  }

  /** A list without repeats splits into two lists without repeats that share nothing. */
  lemma NoDuplicatesSplit(c: seq<nat>, w: seq<nat>)
    requires NoDuplicates(c + w)
    ensures NoDuplicates(w) && forall u :: u in w ==> u !in c
  {
    var s := c + w;
    forall i, j | 0 <= i < j < |w| ensures w[i] != w[j] {
      assert w[i] == s[|c| + i] && w[j] == s[|c| + j];
    }
    forall u | u in w ensures u !in c {
      var k :| 0 <= k < |w| && w[k] == u;
      assert u == s[|c| + k];
      forall h | 0 <= h < |c| ensures c[h] != u {
        assert c[h] == s[h];
      }
    }
  }
}
