/** The DS format-string checker: a format string is cut greedily into specifiers using a
    fixed table (one for unpacking, one for packing), and the call's variable arguments are
    then matched against the specifiers one by one, by the C rendering of their types. The
    map variants take a symbol argument before each value. */
module D3S {
  import opened Wrappers
  import opened Text
  import opened Misc
  import opened Types
  import opened Expressions
  import opened Statements
  import opened Analysis

  // ---------------------------------------------------------------- tables

  /** Every key is a lower-case letter, alone or followed by a parenthesised parameter. */
  predicate KeyShape(key: string) {
    0 < |key| && 'a' <= key[0] <= 'z' && (|key| == 1 || (key[1] == '(' && key[|key| - 1] == ')'))
  }

  /** Entry `k` of the `unpack` list: format key and the C type of the pointer an unpacking call writes through. */
  function UnpackEntry(k: nat): (e: (string, string))
    requires k < 25
    ensures KeyShape(e.0)
  {
    match k
    case 0 => ("i(8)", "int8_t*")
    case 1 => ("i(16)", "int16_t*")
    case 2 => ("i(32)", "int32_t*")
    case 3 => ("i(64)", "int64_t*")
    case 4 => ("v(8)", "uint8_t*")
    case 5 => ("v(16)", "uint16_t*")
    case 6 => ("v(32)", "uint32_t*")
    case 7 => ("v(64)", "uint64_t*")
    case 8 => ("i(s)", "short int*")
    case 9 => ("i(l)", "long int*")
    case 10 => ("i(max)", "intmax_t*")
    case 11 => ("v(s)", "short unsigned int*")
    case 12 => ("v(l)", "long unsigned int*")
    case 13 => ("v(max)", "uintmax_t*")
    case 14 => ("i", "int*")
    case 15 => ("v", "unsigned int*")
    case 16 => ("j", "size_t*")
    case 17 => ("n", "struct NFast_Bignum**")
    case 18 => ("s", "char**")
    case 19 => ("h", "struct DSSymbolNode**")
    case 20 => ("b", "struct DSByteBlock*")
    case 21 => ("m", "struct DSMessage**")
    case 22 => ("l", "struct DSMessage**")
    case 23 => ("e", "struct DSMessage**")
    case _ => ("d", "struct DSMessage**")
  }

  /** Entry `k` of the `pack` list: format key and the C type of the value a packing call reads. */
  function PackEntry(k: nat): (e: (string, string))
    requires k < 24
    ensures KeyShape(e.0)
  {
    match k
    case 0 => ("i(8)", "int8_t")
    case 1 => ("i(16)", "int16_t")
    case 2 => ("i(32)", "int32_t")
    case 3 => ("i(64)", "int64_t")
    case 4 => ("v(8)", "uint8_t")
    case 5 => ("v(16)", "uint16_t")
    case 6 => ("v(32)", "uint32_t")
    case 7 => ("v(64)", "uint64_t")
    case 8 => ("i(s)", "short int")
    case 9 => ("i(l)", "long int")
    case 10 => ("i(max)", "intmax_t")
    case 11 => ("v(s)", "short unsigned int")
    case 12 => ("v(l)", "long unsigned int")
    case 13 => ("v(max)", "uintmax_t")
    case 14 => ("i", "int")
    case 15 => ("v", "unsigned int")
    case 16 => ("j", "size_t")
    case 17 => ("n", "struct NFast_Bignum*")
    case 18 => ("s", "const char*")
    case 19 => ("h", "struct DSSymbolNode*")
    case 20 => ("b", "struct DSByteBlock*")
    case 21 => ("m", "struct DSMessage*")
    case 22 => ("r", "struct DSMessage*")
    case _ => ("e", "struct DSMessage**")
  }

  function TableSize(unpack: bool): nat {
    if unpack then 25 else 24
  }

  function Entry(unpack: bool, k: nat): (e: (string, string))
    requires k < TableSize(unpack)
    ensures KeyShape(e.0)
  {
    if unpack then UnpackEntry(k) else PackEntry(k)
  }

  function Key(unpack: bool, k: nat): string
    requires k < TableSize(unpack)
  {
    Entry(unpack, k).0
  }

  /** The rendered type a symbol argument must have. */
  const SymbolType := "struct DSSymbolNode*"

  // ---------------------------------------------------------------- decomposition

  /** Python 2 `c == c.upper()` for a byte string character: true unless it is an ASCII
      lower-case letter. */
  predicate SameUpper(c: char) {
    !('a' <= c <= 'z')
  }

  /** The first entry from position `from` on whose key starts `f`. */
  function FirstMatch(unpack: bool, f: string, from: nat): (r: Option<nat>)
    requires from <= TableSize(unpack)
    ensures r.Some? ==> from <= r.value < TableSize(unpack) && IsPrefix(Key(unpack, r.value), f)
    ensures r.Some? ==> forall j :: from <= j < r.value ==> !IsPrefix(Key(unpack, j), f)
    ensures r.None? ==> forall j :: from <= j < TableSize(unpack) ==> !IsPrefix(Key(unpack, j), f)
    decreases TableSize(unpack) - from
  {
    if from == TableSize(unpack) then None
    else if IsPrefix(Key(unpack, from), f) then Some(from)
    else FirstMatch(unpack, f, from + 1)
  }

  /** `decompose_format_string`: `|` is skipped, `-` stands for an argument of no checked
      type (None), in unpack mode so does any character that is not a lower-case letter,
      and otherwise the first table key that starts the rest is consumed and its type
      recorded. A rest that nothing matches is an error; `Err(n)` says the last `n`
      characters were left. */
  function Decompose(f: string, unpack: bool): (r: Result<seq<Option<string>>, nat>)
    ensures r.Ok? ==> |r.value| <= |f|
    ensures r.Err? ==> 0 < r.error <= |f|
    decreases |f|
  {
    if |f| == 0 then Ok([])
    else if f[0] == '|' then Decompose(f[1..], unpack)
    else if f[0] == '-' || (unpack && SameUpper(f[0])) then
      var rest :- Decompose(f[1..], unpack);
      Ok([None] + rest)
    else match FirstMatch(unpack, f, 0)
      case None => Err(|f|)
      case Some(k) =>
        var rest :- Decompose(f[|Key(unpack, k)|..], unpack);
        Ok([Some(Entry(unpack, k).1)] + rest)
  }

  /** `|` contributes nothing. */
  lemma PipeIsSkipped(f: string, unpack: bool)
    ensures Decompose("|" + f, unpack) == Decompose(f, unpack)
  {
    assert ("|" + f)[1..] == f;
  }

  /** `-` contributes one None, in either mode. */
  lemma DashIsUnchecked(f: string, unpack: bool)
    ensures Decompose("-" + f, unpack).Ok? <==> Decompose(f, unpack).Ok?
    ensures Decompose(f, unpack).Ok? ==> Decompose("-" + f, unpack).value == [None] + Decompose(f, unpack).value
  {
    assert ("-" + f)[1..] == f;
  }

  /** In unpack mode an upper-case letter, digit or punctuation character (other than `|`)
      contributes one None. */
  lemma UpperIsUncheckedWhenUnpacking(c: char, f: string)
    requires SameUpper(c) && c != '|'
    ensures Decompose([c] + f, true).Ok? <==> Decompose(f, true).Ok?
    ensures Decompose(f, true).Ok? ==> Decompose([c] + f, true).value == [None] + Decompose(f, true).value
  {
    assert ([c] + f)[1..] == f;
  }

  /** The entry `FirstMatch` picks is fixed by which keys start the input. */
  lemma {:induction false} FirstMatchIs(unpack: bool, f: string, from: nat, k: nat)
    requires from <= k < TableSize(unpack) && IsPrefix(Key(unpack, k), f)
    requires forall j :: from <= j < k ==> !IsPrefix(Key(unpack, j), f)
    ensures FirstMatch(unpack, f, from) == Some(k)
    decreases k - from
  {
    if from < k {
      FirstMatchIs(unpack, f, from + 1, k);
    }
  }

  /** One table step: when entry `k` is the first to match, the decomposition is its type
      followed by the decomposition of what the key leaves. */
  lemma TableStep(f: string, unpack: bool, k: nat)
    requires |f| > 0 && f[0] != '|' && f[0] != '-' && !(unpack && SameUpper(f[0]))
    requires FirstMatch(unpack, f, 0) == Some(k)
    ensures k < TableSize(unpack) && |Key(unpack, k)| <= |f|
    ensures Decompose(f, unpack).Ok? <==> Decompose(f[|Key(unpack, k)|..], unpack).Ok?
    ensures Decompose(f, unpack).Ok? ==>
      Decompose(f, unpack).value == [Some(Entry(unpack, k).1)] + Decompose(f[|Key(unpack, k)|..], unpack).value
  {
  }

  /** One specifier of a format string as the decomposition reads it: a `|`, a character
      standing for an unchecked argument, or table entry `k`. */
  datatype Specifier = Pipe | Unchecked(c: char) | Keyed(k: nat)

  /** A specifier the decomposition could have read: `-` (or, when unpacking, any character
      other than `|` that is not a lower-case letter) is unchecked, and a key is an entry of
      the table in force. */
  predicate SpecFits(p: Specifier, unpack: bool) {
    match p
    case Pipe => true
    case Unchecked(c) => c == '-' || (unpack && SameUpper(c) && c != '|')
    case Keyed(k) => k < TableSize(unpack)
  }

  predicate AllFit(ps: seq<Specifier>, unpack: bool) {
    forall i :: 0 <= i < |ps| ==> SpecFits(ps[i], unpack)
  }

  function Spelling(p: Specifier, unpack: bool): string
    requires SpecFits(p, unpack)
  {
    match p
    case Pipe => "|"
    case Unchecked(c) => [c]
    case Keyed(k) => Key(unpack, k)
  }

  /** The format string a list of specifiers spells. */
  function Spell(ps: seq<Specifier>, unpack: bool): string
    requires AllFit(ps, unpack)
    decreases |ps|
  {
    if |ps| == 0 then [] else Spelling(ps[0], unpack) + Spell(ps[1..], unpack)
  }

  /** What one specifier asks of its argument: nothing for `|`, no check (None) for an
      unchecked one, the entry's type for a key. */
  function Contribution(p: Specifier, unpack: bool): seq<Option<string>>
    requires SpecFits(p, unpack)
  {
    if p.Pipe? then [] else if p.Unchecked? then [None] else [Some(Entry(unpack, p.k).1)]
  }

  /** What the specifiers ask of the arguments, in order. */
  function Checks(ps: seq<Specifier>, unpack: bool): seq<Option<string>>
    requires AllFit(ps, unpack)
    decreases |ps|
  {
    if |ps| == 0 then [] else Contribution(ps[0], unpack) + Checks(ps[1..], unpack)
  }

  /** Greedy reading: each key is the first table entry that starts the text from there on. */
  predicate Greedy(ps: seq<Specifier>, unpack: bool)
    requires AllFit(ps, unpack)
  {
    forall i :: 0 <= i < |ps| && ps[i].Keyed? ==> FirstMatch(unpack, Spell(ps[i..], unpack), 0) == Some(ps[i].k)
  }

  /** `ps` is a greedy reading of `f`. */
  predicate Spells(ps: seq<Specifier>, unpack: bool, f: string) {
    AllFit(ps, unpack) && Greedy(ps, unpack) && Spell(ps, unpack) == f
  }

  /** `ps` is a greedy reading of `f` that asks for `out`. */
  predicate ReadsAs(ps: seq<Specifier>, unpack: bool, f: string, out: seq<Option<string>>) {
    Spells(ps, unpack, f) && Checks(ps, unpack) == out
  }

  lemma AllFitTail(ps: seq<Specifier>, unpack: bool)
    requires |ps| > 0 && AllFit(ps, unpack)
    ensures AllFit(ps[1..], unpack)
  {
    forall i | 0 <= i < |ps| - 1 ensures SpecFits(ps[1..][i], unpack) {
      assert ps[1..][i] == ps[i + 1];
    }
  }

  lemma GreedyTail(ps: seq<Specifier>, unpack: bool)
    requires |ps| > 0 && AllFit(ps, unpack) && Greedy(ps, unpack)
    ensures AllFit(ps[1..], unpack) && Greedy(ps[1..], unpack)
  {
    AllFitTail(ps, unpack);
    var t := ps[1..];
    forall i | 0 <= i < |t| && t[i].Keyed? ensures FirstMatch(unpack, Spell(t[i..], unpack), 0) == Some(t[i].k) {
      assert t[i..] == ps[i + 1..];
      assert t[i] == ps[i + 1];
    }
  }

  /** A key starts with a lower-case letter, so none of the single-character rules takes it. */
  lemma KeyedHead(unpack: bool, k: nat, rest: string)
    requires k < TableSize(unpack)
    ensures var f := Key(unpack, k) + rest;
      |f| > 0 && f[0] != '|' && f[0] != '-' && !(unpack && SameUpper(f[0]))
      && (Key(unpack, k) + rest)[|Key(unpack, k)|..] == rest
  {
    var f := Key(unpack, k) + rest;
    assert KeyShape(Entry(unpack, k).0);
    assert f[0] == Key(unpack, k)[0];
  }

  /** Every greedy reading of a format string is what the decomposition finds: the
      specifiers' checks, in order. */
  lemma {:induction false} SpelledDecomposes(ps: seq<Specifier>, unpack: bool)
    requires AllFit(ps, unpack) && Greedy(ps, unpack)
    ensures Decompose(Spell(ps, unpack), unpack) == Ok(Checks(ps, unpack))
    decreases |ps|
  {
    if |ps| > 0 {
      GreedyTail(ps, unpack);
      SpelledDecomposes(ps[1..], unpack);
      var rest := Spell(ps[1..], unpack);
      var f := Spell(ps, unpack);
      assert f == Spelling(ps[0], unpack) + rest;
      assert Checks(ps, unpack) == Contribution(ps[0], unpack) + Checks(ps[1..], unpack);
      match ps[0]
      case Pipe =>
        assert f[0] == '|' && f[1..] == rest;
        assert [] + Checks(ps[1..], unpack) == Checks(ps[1..], unpack);
      case Unchecked(c) =>
        assert f[0] == c && f[1..] == rest;
      case Keyed(k) =>
        KeyedHead(unpack, k, rest);
        assert ps[0..] == ps;
        assert FirstMatch(unpack, f, 0) == Some(k);
        TableStep(f, unpack, k);
    }
  }

  /** Conversely, whatever the decomposition accepts has a greedy reading asking for what it
      found: so `Decompose` succeeds exactly on the format strings that are spelled by such
      a list of specifiers. */
  lemma {:induction false} DecomposedIsSpelled(f: string, unpack: bool)
    requires Decompose(f, unpack).Ok?
    ensures exists ps :: ReadsAs(ps, unpack, f, Decompose(f, unpack).value)
    decreases |f|
  {
    if |f| == 0 {
      assert ReadsAs([], unpack, f, []);
    } else {
      var p, n := FirstSpecifier(f, unpack);
      DecomposedIsSpelled(f[n..], unpack);
      var qs :| ReadsAs(qs, unpack, f[n..], Decompose(f[n..], unpack).value);
      ConsReads(p, qs, unpack, Spelling(p, unpack), f[n..], Decompose(f[n..], unpack).value);
      assert ReadsAs([p] + qs, unpack, f, Decompose(f, unpack).value);
    }
  }

  /** The decomposition accepts a format string exactly when some greedy reading spells it,
      and then finds what that reading asks for. */
  lemma DecomposeIffSpelled(f: string, unpack: bool)
    ensures Decompose(f, unpack).Ok? <==> exists ps :: Spells(ps, unpack, f)
    ensures forall ps :: Spells(ps, unpack, f) ==> Decompose(f, unpack) == Ok(Checks(ps, unpack))
  {
    if Decompose(f, unpack).Ok? {
      DecomposedIsSpelled(f, unpack);
      var ps :| ReadsAs(ps, unpack, f, Decompose(f, unpack).value);
      assert Spells(ps, unpack, f);
    }
    forall ps | Spells(ps, unpack, f) ensures Decompose(f, unpack) == Ok(Checks(ps, unpack)) {
      SpelledDecomposes(ps, unpack);
    }
  }

  /** The specifier the decomposition reads first, and its length. */
  lemma FirstSpecifier(f: string, unpack: bool) returns (p: Specifier, n: nat)
    requires |f| > 0 && Decompose(f, unpack).Ok?
    ensures 0 < n <= |f| && SpecFits(p, unpack) && Spelling(p, unpack) + f[n..] == f
    ensures p.Keyed? ==> FirstMatch(unpack, f, 0) == Some(p.k)
    ensures Decompose(f[n..], unpack).Ok?
    ensures Decompose(f, unpack).value == Contribution(p, unpack) + Decompose(f[n..], unpack).value
  {
    if f[0] == '|' {
      p, n := Pipe, 1;
      assert [] + Decompose(f[n..], unpack).value == Decompose(f[n..], unpack).value;
    } else if f[0] == '-' || (unpack && SameUpper(f[0])) {
      p, n := Unchecked(f[0]), 1;
    } else {
      var k := FirstMatch(unpack, f, 0).value;
      p, n := Keyed(k), |Key(unpack, k)|;
      TableStep(f, unpack, k);
      assert IsPrefix(Key(unpack, k), f);
    }
    assert f[..n] + f[n..] == f;
  }

  /** A specifier in front of a greedy reading, when it is itself read greedily. */
  lemma ConsReads(p: Specifier, qs: seq<Specifier>, unpack: bool, h: string, t: string, out: seq<Option<string>>)
    requires SpecFits(p, unpack) && ReadsAs(qs, unpack, t, out) && Spelling(p, unpack) == h
    requires p.Keyed? ==> FirstMatch(unpack, h + t, 0) == Some(p.k)
    ensures var ps := [p] + qs;
      AllFit(ps, unpack) && Greedy(ps, unpack) && Spell(ps, unpack) == h + t
      && Checks(ps, unpack) == Contribution(p, unpack) + out
  {
    var ps := [p] + qs;
    assert ps[1..] == qs;
    assert AllFit(ps, unpack) by {
      forall i | 0 <= i < |ps| ensures SpecFits(ps[i], unpack) {
        if i > 0 { assert ps[i] == qs[i - 1]; }
      }
    }
    assert Spell(ps, unpack) == h + t;
    forall i | 0 <= i < |ps| && ps[i].Keyed? ensures FirstMatch(unpack, Spell(ps[i..], unpack), 0) == Some(ps[i].k) {
      if i == 0 {
        assert ps[0..] == ps;
      } else {
        assert ps[i..] == qs[i - 1..];
        assert ps[i] == qs[i - 1];
      }
    }
  }

  /** A key that differs from the input at some position does not start it. */
  lemma NotPrefixAt(p: string, f: string, i: nat)
    requires i < |p| && i < |f| && p[i] != f[i]
    ensures !IsPrefix(p, f)
  {
  }

  /** `"v(32)"` unpacks as one `uint32_t*`. */
  lemma UnpackV32(f: string)
    requires f == "v(32)"
    ensures Decompose(f, true) == Ok([Some("uint32_t*")])
  {
    forall j | 0 <= j < 6 ensures !IsPrefix(Key(true, j), f) {
      if j == 0 { NotPrefixAt(Key(true, j), f, 0); }
      else if j == 1 { NotPrefixAt(Key(true, j), f, 0); }
      else if j == 2 { NotPrefixAt(Key(true, j), f, 0); }
      else if j == 3 { NotPrefixAt(Key(true, j), f, 0); }
      else if j == 4 { NotPrefixAt(Key(true, j), f, 2); }
      else { assert j == 5; NotPrefixAt(Key(true, 5), f, 2); }
    }
    FirstMatchIs(true, f, 0, 6);
    TableStep(f, true, 6);
    assert Entry(true, 6) == ("v(32)", "uint32_t*");
    assert f[|Key(true, 6)|..] == [];
    assert Decompose([], true) == Ok([]);
    assert [Some("uint32_t*")] + [] == [Some("uint32_t*")];
  }

  /** `"i-v(32)"` unpacks as an `int*`, an unchecked argument and a `uint32_t*`: the bare
      `i` is reached only after every `i(...)` key has failed to match. */
  lemma DecomposeExample(tail: string)
    requires tail == "v(32)"
    ensures Decompose("i-" + tail, true) == Ok([Some("int*"), None, Some("uint32_t*")])
  {
    UnpackV32(tail);
    DashIsUnchecked(tail, true);
    BareIStep("-" + tail);
    assert "i-" + tail == "i" + ("-" + tail);
    assert [Some("int*")] + ([None] + [Some("uint32_t*")]) == [Some("int*"), None, Some("uint32_t*")];
  }

  /** A bare `i` followed by `-` is the `int*` entry: every sized `i(...)` key differs from
      the input at its second character, and every `v` key at its first. */
  lemma BareIStep(g: string)
    requires |g| > 0 && g[0] == '-'
    ensures Decompose("i" + g, true).Ok? <==> Decompose(g, true).Ok?
    ensures Decompose(g, true).Ok? ==> Decompose("i" + g, true).value == [Some("int*")] + Decompose(g, true).value
  {
    var f := "i" + g;
    assert f[0] == 'i' && f[1] == '-';
    SizedKeysFail(f);
    FirstMatchIs(true, f, 0, 14);
    TableStep(f, true, 14);
    assert Entry(true, 14) == ("i", "int*");
    assert f[1..] == g;
  }

  /** No key before the bare `i` starts a text that opens with `i-`. */
  lemma SizedKeysFail(f: string)
    requires |f| >= 2 && f[0] == 'i' && f[1] == '-'
    ensures forall j :: 0 <= j < 14 ==> !IsPrefix(Key(true, j), f)
  {
    forall j | 0 <= j < 14 ensures !IsPrefix(Key(true, j), f) {
      if j == 0 { NotPrefixAt(Key(true, j), f, 1); }
      else if j == 1 { NotPrefixAt(Key(true, j), f, 1); }
      else if j == 2 { NotPrefixAt(Key(true, j), f, 1); }
      else if j == 3 { NotPrefixAt(Key(true, j), f, 1); }
      else if j == 4 { NotPrefixAt(Key(true, j), f, 0); }
      else if j == 5 { NotPrefixAt(Key(true, j), f, 0); }
      else if j == 6 { NotPrefixAt(Key(true, j), f, 0); }
      else if j == 7 { NotPrefixAt(Key(true, j), f, 0); }
      else if j == 8 { NotPrefixAt(Key(true, j), f, 1); }
      else if j == 9 { NotPrefixAt(Key(true, j), f, 1); }
      else if j == 10 { NotPrefixAt(Key(true, j), f, 1); }
      else if j == 11 { NotPrefixAt(Key(true, j), f, 0); }
      else if j == 12 { NotPrefixAt(Key(true, j), f, 0); }
      else { assert j == 13; NotPrefixAt(Key(true, 13), f, 0); }
    }
  }

  // ---------------------------------------------------------------- argument matching

  const NotEnoughMessage := "Not enough arguments to varargs function."
  const CallSite := "call-site"

  /** The C rendering of an argument's type: `to_c(arg.get_type())`. */
  function ArgTypeText(e: Expr, ctx: Context): (r: Result<Rendered, Fault>)
  {
    var t :- TypeOf(e, ctx.scope, ctx.types);
    TypeToC(t, ctx.types, Budget(ctx.types))
  }

  /** `rendered != spec`, with a None spec (a `-` in pack mode) equal only to None. */
  predicate Matches(rendered: Rendered, spec: Option<string>) {
    if spec.Some? then rendered == Text(spec.value) else rendered == NoneValue
  }

  /** `'%s' % spec`. */
  function SpecText(spec: Option<string>): string {
    if spec.Some? then spec.value else "None"
  }

  function SymbolMessage(i: nat, fn: string, got: Rendered): string {
    "Symbol argument (index " + IntToString(i) + ") to " + fn + " is not a DSSymbol, but a \"" + Format(got) + "\"."
  }

  function ValueMessage(i: nat, fn: string, spec: Option<string>, got: Rendered): string {
    "Value argument (index " + IntToString(i) + ") to " + fn + " is not a \"" + SpecText(spec) + "\" as specified, but a \"" + Format(got) + "\"."
  }

  /** How many arguments the specifiers consume: a symbol per specifier for the map
      variants, and a value per specifier except the None ones when unpacking. */
  function Needed(specs: seq<Option<string>>, unpack: bool, symbols: bool): (n: nat)
    ensures n <= 2 * |specs|
    decreases |specs|
  {
    if |specs| == 0 then 0
    else (if symbols then 1 else 0) + (if unpack && specs[0].None? then 0 else 1) + Needed(specs[1..], unpack, symbols)
  }

  /** How popping an argument can end the call: one error, or an escaping exception. */
  predicate Abandons(run: Run) {
    (run.outcome == Stopped && |run.diags| == 1 && run.diags[0].severity == Error)
    || (run.outcome.Raised? && |run.diags| <= 1)
  }

  /** For a map variant, `pop_or_error` of the symbol argument, which must render as
      `struct DSSymbolNode*`; otherwise nothing is popped. */
  function PopSymbol(fn: string, s: Statement, varargs: seq<Expr>, i: nat, symbols: bool, ctx: Context): (r: Result<seq<Expr>, Run>)
    ensures r.Ok? ==> if symbols then |varargs| > 0 && r.value == varargs[1..] else r.value == varargs
    ensures r.Err? ==> Abandons(r.error)
    ensures symbols && |varargs| == 0 ==>
      r.Err? && r.error.diags == [Diagnostic(Error, NotEnoughMessage, At(CallSite, s))] && r.error.outcome != Done
  {
    if !symbols then Ok(varargs)
    else if |varargs| == 0 then Err(ErrorRun(NotEnoughMessage, At(CallSite, s), ctx.source))
    else match ArgTypeText(varargs[0], ctx)
      case Err(f) => Err(Run([], Raised(f)))
      case Ok(t) =>
        if t != Text(SymbolType) then Err(ErrorRun(SymbolMessage(i, fn, t), At(CallSite, s), ctx.source))
        else Ok(varargs[1..])
  }

  /** `pop_or_error` of the value argument, whose rendered type must equal the specifier. */
  function PopValue(fn: string, s: Statement, spec: Option<string>, rest: seq<Expr>, i: nat, ctx: Context): (r: Result<seq<Expr>, Run>)
    ensures r.Ok? ==> |rest| > 0 && r.value == rest[1..]
    ensures r.Err? ==> Abandons(r.error)
    ensures |rest| == 0 ==>
      r.Err? && r.error.diags == [Diagnostic(Error, NotEnoughMessage, At(CallSite, s))] && r.error.outcome != Done
  {
    if |rest| == 0 then Err(ErrorRun(NotEnoughMessage, At(CallSite, s), ctx.source))
    else match ArgTypeText(rest[0], ctx)
      case Err(f) => Err(Run([], Raised(f)))
      case Ok(t) =>
        if !Matches(t, spec) then Err(ErrorRun(ValueMessage(i, fn, spec, t), At(CallSite, s), ctx.source))
        else Ok(rest[1..])
  }

  /** Popping looks only at the first argument, so trailing arguments stay trailing. */
  lemma PopSymbolExtra(fn: string, s: Statement, varargs: seq<Expr>, extra: seq<Expr>, i: nat, symbols: bool, ctx: Context)
    requires PopSymbol(fn, s, varargs, i, symbols, ctx).Ok?
    ensures PopSymbol(fn, s, varargs + extra, i, symbols, ctx) == Ok(PopSymbol(fn, s, varargs, i, symbols, ctx).value + extra)
  {
    var w := varargs + extra;
    if symbols {
      assert w[0] == varargs[0];
      assert ArgTypeText(w[0], ctx) == ArgTypeText(varargs[0], ctx);
      assert w[1..] == varargs[1..] + extra;
    }
  }

  lemma PopValueExtra(fn: string, s: Statement, spec: Option<string>, rest: seq<Expr>, extra: seq<Expr>, i: nat, ctx: Context)
    requires PopValue(fn, s, spec, rest, i, ctx).Ok?
    ensures PopValue(fn, s, spec, rest + extra, i, ctx) == Ok(PopValue(fn, s, spec, rest, i, ctx).value + extra)
  {
    assert (rest + extra)[0] == rest[0];
    assert (rest + extra)[1..] == rest[1..] + extra;
  }

  /** The lockstep loop of `check_unpack`/`check_pack` from specifier `i` on: for a map
      variant a symbol is popped and must render as `struct DSSymbolNode*`; then (unless
      unpacking a None specifier) a value is popped and its rendered type must equal the
      specifier. Running out of arguments and the first mismatch are errors; a failure to
      type an argument escapes as an exception. */
  function MatchArgs(fn: string, s: Statement, specs: seq<Option<string>>, varargs: seq<Expr>, i: nat,
                     unpack: bool, symbols: bool, ctx: Context): (r: Run)
    ensures r.outcome == Done ==> r.diags == [] && Needed(specs, unpack, symbols) <= |varargs|
    ensures r.outcome == Stopped ==> |r.diags| == 1 && r.diags[0].severity == Error
    ensures r.outcome.Raised? ==> |r.diags| <= 1
    ensures Needed(specs, unpack, symbols) > |varargs| ==> r.outcome != Done
    decreases |specs|
  {
    if |specs| == 0 then Run([], Done)
    else
      match PopSymbol(fn, s, varargs, i, symbols, ctx)
      case Err(run) => run
      case Ok(rest) =>
        if unpack && specs[0].None? then MatchArgs(fn, s, specs[1..], rest, i + 1, unpack, symbols, ctx)
        else
          match PopValue(fn, s, specs[0], rest, i, ctx)
          case Err(run) => run
          case Ok(rest') => MatchArgs(fn, s, specs[1..], rest', i + 1, unpack, symbols, ctx)
  }

  /** One argument the specifiers call for, in popping order: the index of its specifier,
      whether it is a symbol (which must render as `struct DSSymbolNode*`) or a value, and
      for a value the specifier its rendered type must equal. */
  datatype ArgSlot = ArgSlot(index: nat, symbol: bool, spec: Option<string>)

  /** The rendering a slot accepts. */
  function Expected(slot: ArgSlot): Option<string> {
    if slot.symbol then Some(SymbolType) else slot.spec
  }

  /** The slots the specifiers from index `i` on call for: per specifier, a symbol for a map
      variant, then a value unless unpacking a None specifier. */
  function Slots(specs: seq<Option<string>>, i: nat, unpack: bool, symbols: bool): (r: seq<ArgSlot>)
    ensures |r| == Needed(specs, unpack, symbols)
    ensures forall k :: 0 <= k < |r| ==> i <= r[k].index < i + |specs|
    ensures forall k :: 0 <= k < |r| && !r[k].symbol ==> r[k].spec == specs[r[k].index - i] && !(unpack && r[k].spec.None?)
    ensures forall k :: 0 <= k < |r| && r[k].symbol ==> symbols
    decreases |specs|
  {
    if |specs| == 0 then []
    else
      var tail := Slots(specs[1..], i + 1, unpack, symbols);
      (if symbols then [ArgSlot(i, true, None)] else [])
      + (if unpack && specs[0].None? then [] else [ArgSlot(i, false, specs[0])])
      + tail
  }

  /** Argument `a` fills `slot`: it can be typed, and its type renders as the slot expects. */
  predicate Fills(a: Expr, slot: ArgSlot, ctx: Context) {
    ArgTypeText(a, ctx).Ok? && Matches(ArgTypeText(a, ctx).value, Expected(slot))
  }

  /** The `k`-th slot is filled by the `k`-th argument. */
  predicate Filled(sl: seq<ArgSlot>, args: seq<Expr>, k: nat, ctx: Context)
    requires k < |sl|
  {
    k < |args| && Fills(args[k], sl[k], ctx)
  }

  /** How the call ends at a slot the `j`-th argument does not fill: out of arguments is
      the not-enough error; an argument that cannot be typed raises; otherwise the symbol
      or value error naming the slot's specifier index and the rendering found. */
  function FailAt(fn: string, s: Statement, slot: ArgSlot, args: seq<Expr>, j: nat, ctx: Context): (r: Run)
    ensures r.outcome != Done
    ensures j >= |args| ==> r == ErrorRun(NotEnoughMessage, At(CallSite, s), ctx.source)
    ensures j < |args| && ArgTypeText(args[j], ctx).Err? ==> r == Run([], Raised(ArgTypeText(args[j], ctx).error))
    ensures j < |args| && ArgTypeText(args[j], ctx).Ok? ==> |r.diags| == 1 && r.diags[0].severity == Error
  {
    if j >= |args| then ErrorRun(NotEnoughMessage, At(CallSite, s), ctx.source)
    else match ArgTypeText(args[j], ctx)
      case Err(f) => Run([], Raised(f))
      case Ok(t) =>
        var message := if slot.symbol then SymbolMessage(slot.index, fn, t) else ValueMessage(slot.index, fn, slot.spec, t);
        ErrorRun(message, At(CallSite, s), ctx.source)
  }

  /** The reference reading of the loop: the slots are filled by the arguments in order,
      and the first slot not filled ends the call. */
  function MatchSlots(fn: string, s: Statement, sl: seq<ArgSlot>, args: seq<Expr>, ctx: Context): (r: Run)
    decreases |sl|
  {
    if |sl| == 0 then Run([], Done)
    else if |args| > 0 && Fills(args[0], sl[0], ctx) then MatchSlots(fn, s, sl[1..], args[1..], ctx)
    else FailAt(fn, s, sl[0], args, 0, ctx)
  }

  /** Going on after popping an argument: the run that ended the call, or the remaining
      slots on the arguments left. */
  function AfterPop(fn: string, s: Statement, popped: Result<seq<Expr>, Run>, rest: seq<ArgSlot>, ctx: Context): Run {
    match popped
    case Err(run) => run
    case Ok(left) => MatchSlots(fn, s, rest, left, ctx)
  }

  /** Popping a symbol is the first step of matching a symbol slot. */
  lemma SymbolStep(fn: string, s: Statement, i: nat, rest: seq<ArgSlot>, args: seq<Expr>, ctx: Context)
    ensures MatchSlots(fn, s, [ArgSlot(i, true, None)] + rest, args, ctx) == AfterPop(fn, s, PopSymbol(fn, s, args, i, true, ctx), rest, ctx)
  {
    assert ([ArgSlot(i, true, None)] + rest)[1..] == rest;
  }

  /** Popping a value is the first step of matching a value slot. */
  lemma ValueStep(fn: string, s: Statement, i: nat, spec: Option<string>, rest: seq<ArgSlot>, args: seq<Expr>, ctx: Context)
    ensures MatchSlots(fn, s, [ArgSlot(i, false, spec)] + rest, args, ctx) == AfterPop(fn, s, PopValue(fn, s, spec, args, i, ctx), rest, ctx)
  {
    assert ([ArgSlot(i, false, spec)] + rest)[1..] == rest;
  }

  /** The loop body after the symbol (if any) was popped: the value, unless unpacking a
      None specifier, then the remaining specifiers. */
  function ValueThenRest(fn: string, s: Statement, specs: seq<Option<string>>, rest: seq<Expr>, i: nat,
                         unpack: bool, symbols: bool, ctx: Context): Run
    requires |specs| > 0
  {
    if unpack && specs[0].None? then MatchArgs(fn, s, specs[1..], rest, i + 1, unpack, symbols, ctx)
    else match PopValue(fn, s, specs[0], rest, i, ctx)
      case Err(run) => run
      case Ok(rest') => MatchArgs(fn, s, specs[1..], rest', i + 1, unpack, symbols, ctx)
  }

  /** One turn of the loop: pop the symbol (if any), then go on with the value. */
  lemma MatchArgsUnfold(fn: string, s: Statement, specs: seq<Option<string>>, varargs: seq<Expr>, i: nat,
                        unpack: bool, symbols: bool, ctx: Context)
    requires |specs| > 0
    ensures MatchArgs(fn, s, specs, varargs, i, unpack, symbols, ctx) ==
      AfterSymbol(fn, s, specs, PopSymbol(fn, s, varargs, i, symbols, ctx), i, unpack, symbols, ctx)
  {
  }

  function AfterSymbol(fn: string, s: Statement, specs: seq<Option<string>>, popped: Result<seq<Expr>, Run>, i: nat,
                       unpack: bool, symbols: bool, ctx: Context): Run
    requires |specs| > 0
  {
    match popped
    case Err(run) => run
    case Ok(rest) => ValueThenRest(fn, s, specs, rest, i, unpack, symbols, ctx)
  }

  /** The slots of one specifier's value followed by those of the later specifiers. */
  function ValueSlots(specs: seq<Option<string>>, i: nat, unpack: bool, symbols: bool): seq<ArgSlot>
    requires |specs| > 0
  {
    (if unpack && specs[0].None? then [] else [ArgSlot(i, false, specs[0])]) + Slots(specs[1..], i + 1, unpack, symbols)
  }

  /** The lockstep loop is the reference reading over the slots its specifiers call for. */
  lemma {:induction false} MatchArgsBySlots(fn: string, s: Statement, specs: seq<Option<string>>, varargs: seq<Expr>, i: nat,
                                            unpack: bool, symbols: bool, ctx: Context)
    ensures MatchArgs(fn, s, specs, varargs, i, unpack, symbols, ctx) == MatchSlots(fn, s, Slots(specs, i, unpack, symbols), varargs, ctx)
    decreases |specs|, 1
  {
    if |specs| > 0 {
      var vals := ValueSlots(specs, i, unpack, symbols);
      var popped := PopSymbol(fn, s, varargs, i, symbols, ctx);
      MatchArgsUnfold(fn, s, specs, varargs, i, unpack, symbols, ctx);
      SlotsUnfold(specs, i, unpack, symbols);
      if popped.Ok? {
        ValuesBySlots(fn, s, specs, popped.value, i, unpack, symbols, ctx);
      }
      if symbols {
        SymbolStep(fn, s, i, vals, varargs, ctx);
      }
    }
  }

  /** The slots of a non-empty list of specifiers: the first one's symbol (for a map
      variant), then its value and the later specifiers' slots. */
  lemma SlotsUnfold(specs: seq<Option<string>>, i: nat, unpack: bool, symbols: bool)
    requires |specs| > 0
    ensures Slots(specs, i, unpack, symbols) == (if symbols then [ArgSlot(i, true, None)] else []) + ValueSlots(specs, i, unpack, symbols)
  {
  }

  lemma {:induction false} ValuesBySlots(fn: string, s: Statement, specs: seq<Option<string>>, rest: seq<Expr>, i: nat,
                                         unpack: bool, symbols: bool, ctx: Context)
    requires |specs| > 0
    ensures ValueThenRest(fn, s, specs, rest, i, unpack, symbols, ctx) == MatchSlots(fn, s, ValueSlots(specs, i, unpack, symbols), rest, ctx)
    decreases |specs|, 0
  {
    var tail := Slots(specs[1..], i + 1, unpack, symbols);
    if unpack && specs[0].None? {
      MatchArgsBySlots(fn, s, specs[1..], rest, i + 1, unpack, symbols, ctx);
      assert ValueSlots(specs, i, unpack, symbols) == tail;
    } else {
      ValueStep(fn, s, i, specs[0], tail, rest, ctx);
      var pv := PopValue(fn, s, specs[0], rest, i, ctx);
      if pv.Ok? {
        MatchArgsBySlots(fn, s, specs[1..], pv.value, i + 1, unpack, symbols, ctx);
      }
    }
  }

  /** Every slot filled: the reference reading finishes without a diagnostic; and it
      finishes only then. */
  lemma {:induction false} MatchSlotsDone(fn: string, s: Statement, sl: seq<ArgSlot>, args: seq<Expr>, ctx: Context)
    ensures MatchSlots(fn, s, sl, args, ctx).outcome == Done <==> forall k :: 0 <= k < |sl| ==> Filled(sl, args, k, ctx)
    ensures (forall k :: 0 <= k < |sl| ==> Filled(sl, args, k, ctx)) ==> MatchSlots(fn, s, sl, args, ctx) == Run([], Done)
    decreases |sl|
  {
    if |sl| > 0 {
      if |args| > 0 && Fills(args[0], sl[0], ctx) {
        MatchSlotsDone(fn, s, sl[1..], args[1..], ctx);
        assert Filled(sl, args, 0, ctx);
        if forall k :: 0 <= k < |sl| ==> Filled(sl, args, k, ctx) {
          forall k | 0 <= k < |sl| - 1 ensures Filled(sl[1..], args[1..], k, ctx) {
            assert Filled(sl, args, k + 1, ctx);
            FilledShift(sl, args, k, ctx);
          }
        }
        if forall k :: 0 <= k < |sl| - 1 ==> Filled(sl[1..], args[1..], k, ctx) {
          forall k | 1 <= k < |sl| ensures Filled(sl, args, k, ctx) {
            assert Filled(sl[1..], args[1..], k - 1, ctx);
            FilledShift(sl, args, k - 1, ctx);
          }
        }
      } else {
        assert !Filled(sl, args, 0, ctx);
      }
    }
  }

  /** The first slot not filled, at position `j`, ends the call exactly as failing there
      does: the slots before it were filled and nothing after it is looked at. */
  lemma {:induction false} MatchSlotsFirstFailure(fn: string, s: Statement, sl: seq<ArgSlot>, args: seq<Expr>, ctx: Context, j: nat)
    requires j < |sl| && !Filled(sl, args, j, ctx)
    requires forall k :: 0 <= k < j ==> Filled(sl, args, k, ctx)
    ensures MatchSlots(fn, s, sl, args, ctx) == FailAt(fn, s, sl[j], args, j, ctx)
    decreases j
  {
    if j > 0 {
      assert Filled(sl, args, 0, ctx);
      forall k | 0 <= k < j - 1 ensures Filled(sl[1..], args[1..], k, ctx) {
        assert Filled(sl, args, k + 1, ctx);
        FilledShift(sl, args, k, ctx);
      }
      assert sl[1..][j - 1] == sl[j];
      FailAtShift(fn, s, sl[j], args, j, ctx);
      MatchSlotsFirstFailure(fn, s, sl[1..], args[1..], ctx, j - 1);
    }
  }

  /** The `k + 1`-th slot is filled exactly when, with the first slot and argument dropped,
      the `k`-th is. */
  lemma FilledShift(sl: seq<ArgSlot>, args: seq<Expr>, k: nat, ctx: Context)
    requires k + 1 < |sl| && 0 < |args|
    ensures Filled(sl, args, k + 1, ctx) == Filled(sl[1..], args[1..], k, ctx)
  {
    assert sl[1..][k] == sl[k + 1];
    if k + 1 < |args| {
      assert args[1..][k] == args[k + 1];
    }
  }

  /** Failing at the `j`-th argument is failing at the `j - 1`-th once the first is popped. */
  lemma FailAtShift(fn: string, s: Statement, slot: ArgSlot, args: seq<Expr>, j: nat, ctx: Context)
    requires 0 < j && 0 < |args|
    ensures FailAt(fn, s, slot, args, j, ctx) == FailAt(fn, s, slot, args[1..], j - 1, ctx)
  {
    if j < |args| {
      assert args[1..][j - 1] == args[j];
    }
  }

  /** A call whose arguments fill every slot its format calls for finishes with no
      diagnostic, and a call finishes only then. */
  lemma MatchArgsDone(fn: string, s: Statement, specs: seq<Option<string>>, varargs: seq<Expr>, i: nat,
                      unpack: bool, symbols: bool, ctx: Context)
    ensures var sl := Slots(specs, i, unpack, symbols);
      MatchArgs(fn, s, specs, varargs, i, unpack, symbols, ctx).outcome == Done <==> forall k :: 0 <= k < |sl| ==> Filled(sl, varargs, k, ctx)
    ensures var sl := Slots(specs, i, unpack, symbols);
      (forall k :: 0 <= k < |sl| ==> Filled(sl, varargs, k, ctx)) ==> MatchArgs(fn, s, specs, varargs, i, unpack, symbols, ctx) == Run([], Done)
  {
    MatchArgsBySlots(fn, s, specs, varargs, i, unpack, symbols, ctx);
    MatchSlotsDone(fn, s, Slots(specs, i, unpack, symbols), varargs, ctx);
  }

  /** The first mismatch stops the call: at the first slot not filled the call ends with
      the not-enough error, the symbol or value error for that slot's specifier, or the
      exception typing the argument raised. */
  lemma MatchArgsFirstMismatch(fn: string, s: Statement, specs: seq<Option<string>>, varargs: seq<Expr>, i: nat,
                               unpack: bool, symbols: bool, ctx: Context, j: nat)
    requires j < |Slots(specs, i, unpack, symbols)| && !Filled(Slots(specs, i, unpack, symbols), varargs, j, ctx)
    requires forall k :: 0 <= k < j ==> Filled(Slots(specs, i, unpack, symbols), varargs, k, ctx)
    ensures MatchArgs(fn, s, specs, varargs, i, unpack, symbols, ctx) == FailAt(fn, s, Slots(specs, i, unpack, symbols)[j], varargs, j, ctx)
  {
    MatchArgsBySlots(fn, s, specs, varargs, i, unpack, symbols, ctx);
    MatchSlotsFirstFailure(fn, s, Slots(specs, i, unpack, symbols), varargs, ctx, j);
  }

  /** Arguments beyond those the specifiers consume are never looked at. */
  lemma {:induction false} SurplusIgnored(fn: string, s: Statement, specs: seq<Option<string>>, varargs: seq<Expr>, extra: seq<Expr>,
                                          i: nat, unpack: bool, symbols: bool, ctx: Context)
    requires MatchArgs(fn, s, specs, varargs, i, unpack, symbols, ctx).outcome == Done
    ensures MatchArgs(fn, s, specs, varargs + extra, i, unpack, symbols, ctx) == Run([], Done)
    decreases |specs|
  {
    if |specs| > 0 {
      PopSymbolExtra(fn, s, varargs, extra, i, symbols, ctx);
      var rest := PopSymbol(fn, s, varargs, i, symbols, ctx).value;
      if unpack && specs[0].None? {
        SurplusIgnored(fn, s, specs[1..], rest, extra, i + 1, unpack, symbols, ctx);
      } else {
        PopValueExtra(fn, s, specs[0], rest, extra, i, ctx);
        var rest' := PopValue(fn, s, specs[0], rest, i, ctx).value;
        SurplusIgnored(fn, s, specs[1..], rest', extra, i + 1, unpack, symbols, ctx);
      }
    }
  }

  // ---------------------------------------------------------------- the checks

  function ArgsOf(s: Statement): seq<Expr> {
    if s.Call? then s.args else []
  }

  function VariableFormatMessage(fn: string): string {
    "Call to " + fn + " has variable format string. Verify it will always correspond with the passed in types."
  }

  function UnknownFormatMessage(rest: seq<byte>): string {
    "Unknown format string " + PyRepr(rest)
  }

  /** What follows reading the format: a non-literal format gives one warning and nothing
      more; an undecomposable one gives one error; otherwise the arguments are matched. */
  function CheckFormat(fn: string, s: Statement, format: Option<seq<byte>>, varargs: seq<Expr>,
                       unpack: bool, symbols: bool, ctx: Context): (r: Run)
    ensures format.None? ==> r.diags == [Diagnostic(Warning, VariableFormatMessage(fn), At(CallSite, s))]
    ensures format.None? ==> (r.outcome == Done <==> PlacesFault(At(CallSite, s), ctx.source).None?)
    ensures format.Some? && Decompose(BytesToString(format.value), unpack).Err? ==>
      r.outcome != Done && |r.diags| == 1 && r.diags[0].severity == Error
      && (r.outcome == Stopped <==> PlacesFault(At(CallSite, s), ctx.source).None?)
    ensures format.Some? && Decompose(BytesToString(format.value), unpack).Ok? ==>
      r == MatchArgs(fn, s, Decompose(BytesToString(format.value), unpack).value, varargs, 0, unpack, symbols, ctx)
  {
    match format
    case None => WarnRun(VariableFormatMessage(fn), At(CallSite, s), ctx.source)
    case Some(bs) =>
      match Decompose(BytesToString(bs), unpack)
      case Err(n) => ErrorRun(UnknownFormatMessage(bs[|bs| - n..]), At(CallSite, s), ctx.source)
      case Ok(specs) => MatchArgs(fn, s, specs, varargs, 0, unpack, symbols, ctx)
  }

  /** `check_unpack`: at least four arguments (AssertionError otherwise), the format is the
      fourth, which must be an address-of expression (AttributeError otherwise), the
      variable arguments start at the fifth; only `dsUnpackMap` takes symbols. */
  function CheckUnpack(fn: string, s: Statement, ctx: Context): (r: Run)
    ensures |ArgsOf(s)| < 4 ==> r == Run([], Raised(AssertionError))
    ensures |ArgsOf(s)| >= 4 && !ArgsOf(s)[3].AddrOf? ==> r == Run([], Raised(AttributeError))
    ensures |ArgsOf(s)| >= 4 && ArgsOf(s)[3].AddrOf? ==>
      r == CheckFormat(fn, s, LiteralOf(ArgsOf(s)[3].of), ArgsOf(s)[4..], true, fn == "dsUnpackMap", ctx)
  {
    var args := ArgsOf(s);
    if |args| < 4 then Run([], Raised(AssertionError))
    else match StringLiteralOf(args[3])
      case Err(f) => Run([], Raised(f))
      case Ok(format) => CheckFormat(fn, s, format, args[4..], true, fn == "dsUnpackMap", ctx)
  }

  /** What `check_pack` does once argument `fmtidx` exists: it must be an address-of
      expression (AttributeError otherwise); the variable arguments follow it; only
      `dsPackMapB` takes symbols. */
  function PackAt(fn: string, s: Statement, fmtidx: nat, ctx: Context): Run
    requires fmtidx < |ArgsOf(s)|
  {
    var args := ArgsOf(s);
    match StringLiteralOf(args[fmtidx])
    case Err(f) => Run([], Raised(f))
    case Ok(format) => CheckFormat(fn, s, format, args[fmtidx + 1..], false, fn == "dsPackMapB", ctx)
  }

  /** `check_pack` as written: the guard `len(args) >= fmtidx` lets an argument list of
      exactly `fmtidx` arguments through, and reading `args[fmtidx]` then raises IndexError. */
  function CheckPackAsWritten(fn: string, s: Statement, fmtidx: nat, ctx: Context): (r: Run)
    ensures |ArgsOf(s)| < fmtidx ==> r == Run([], Raised(AssertionError))
    ensures |ArgsOf(s)| == fmtidx ==> r == Run([], Raised(IndexError))
    ensures |ArgsOf(s)| > fmtidx && !ArgsOf(s)[fmtidx].AddrOf? ==> r == Run([], Raised(AttributeError))
    ensures |ArgsOf(s)| > fmtidx && ArgsOf(s)[fmtidx].AddrOf? ==>
      r == CheckFormat(fn, s, LiteralOf(ArgsOf(s)[fmtidx].of), ArgsOf(s)[fmtidx + 1..], false, fn == "dsPackMapB", ctx)
  {
    var args := ArgsOf(s);
    if !(|args| >= fmtidx) then Run([], Raised(AssertionError))
    else if fmtidx >= |args| then Run([], Raised(IndexError))
    else PackAt(fn, s, fmtidx, ctx)
  }

  /** The guard as written passes a call with exactly `fmtidx` arguments, which then fails
      on the index rather than on the guard. */
  lemma PackGuardOffByOne(fn: string, fmtidx: nat, ctx: Context, f: Expr, lhs: Expr, args: seq<Expr>)
    requires |args| == fmtidx
    ensures var s := Call(None, f, lhs, args);
      |ArgsOf(s)| >= fmtidx && CheckPackAsWritten(fn, s, fmtidx, ctx) == Run([], Raised(IndexError))
  {
  }

  /** `check_pack` with the guard the index needs (`len(args) > fmtidx`): the format is
      argument `fmtidx`, the variable arguments follow it, only `dsPackMapB` takes symbols,
      and a `-` in the format is checked against None. */
  function CheckPack(fn: string, s: Statement, fmtidx: nat, ctx: Context): (r: Run)
    ensures |ArgsOf(s)| <= fmtidx ==> r == Run([], Raised(AssertionError))
    ensures |ArgsOf(s)| > fmtidx && !ArgsOf(s)[fmtidx].AddrOf? ==> r == Run([], Raised(AttributeError))
    ensures |ArgsOf(s)| > fmtidx && ArgsOf(s)[fmtidx].AddrOf? ==>
      r == CheckFormat(fn, s, LiteralOf(ArgsOf(s)[fmtidx].of), ArgsOf(s)[fmtidx + 1..], false, fn == "dsPackMapB", ctx)
  {
    var args := ArgsOf(s);
    if |args| <= fmtidx then Run([], Raised(AssertionError))
    else PackAt(fn, s, fmtidx, ctx)
  }

  /** The two guards differ on exactly one argument count: with `fmtidx` arguments the
      written guard lets the call through to an IndexError and the corrected one rejects it
      with an AssertionError; on every other count the two checks agree. */
  lemma PackGuardCorrected(fn: string, s: Statement, fmtidx: nat, ctx: Context)
    ensures |ArgsOf(s)| != fmtidx ==> CheckPack(fn, s, fmtidx, ctx) == CheckPackAsWritten(fn, s, fmtidx, ctx)
    ensures |ArgsOf(s)| == fmtidx ==>
      CheckPack(fn, s, fmtidx, ctx) == Run([], Raised(AssertionError))
      && CheckPackAsWritten(fn, s, fmtidx, ctx) == Run([], Raised(IndexError))
  {
  }

  // ---------------------------------------------------------------- handlers

  /** The analyser's decorated methods as `dir()` lists them (alphabetically), each
      registered under its own name, with `pack` as the check behind the four pack
      variants. */
  function D3SMethodsWith(pack: (string, Statement, nat, Context) -> Run): (ms: seq<Method>)
    ensures |ms| == 6
    ensures forall i :: 0 <= i < |ms| ==> ms[i].decorated && ms[i].given.None?
  {
    [ Method("dsMakeListB", true, None, (s, ctx) => pack("dsMakeListB", s, 1, ctx)),
      Method("dsMakeMapB", true, None, (s, ctx) => pack("dsMakeMapB", s, 1, ctx)),
      Method("dsPackListB", true, None, (s, ctx) => pack("dsPackListB", s, 2, ctx)),
      Method("dsPackMapB", true, None, (s, ctx) => pack("dsPackMapB", s, 2, ctx)),
      Method("dsUnpackList", true, None, (s, ctx) => CheckUnpack("dsUnpackList", s, ctx)),
      Method("dsUnpackMap", true, None, (s, ctx) => CheckUnpack("dsUnpackMap", s, ctx)) ]
  }

  /** The analyser as written: the pack variants go through the written guard. */
  function D3SMethods(): (ms: seq<Method>)
    ensures |ms| == 6
  {
    D3SMethodsWith((fn: string, s: Statement, k: nat, ctx: Context) => CheckPackAsWritten(fn, s, k, ctx))
  }

  /** The analyser with the guard the index needs. */
  function D3SMethodsCorrected(): (ms: seq<Method>)
    ensures |ms| == 6
  {
    D3SMethodsWith((fn: string, s: Statement, k: nat, ctx: Context) => CheckPack(fn, s, k, ctx))
  }

  /** The analyser as written and the one with the corrected guard register the same six
      names, and their handlers agree on every call except a pack call with exactly
      `fmtidx` arguments (one for the make variants, two for the pack variants), where the
      written one raises IndexError and the corrected one AssertionError. */
  lemma CorrectedHandlersAgree(i: nat, s: Statement, ctx: Context)
    requires i < 6
    ensures D3SMethods()[i].attr == D3SMethodsCorrected()[i].attr
    ensures var fmtidx := if i < 2 then 1 else 2;
      (i >= 4 || |ArgsOf(s)| != fmtidx) ==> D3SMethods()[i].body(s, ctx) == D3SMethodsCorrected()[i].body(s, ctx)
    ensures var fmtidx := if i < 2 then 1 else 2;
      i < 4 && |ArgsOf(s)| == fmtidx ==>
        D3SMethods()[i].body(s, ctx) == Run([], Raised(IndexError))
        && D3SMethodsCorrected()[i].body(s, ctx) == Run([], Raised(AssertionError))
  {
    PackGuardCorrected(D3SMethods()[i].attr, s, if i < 2 then 1 else 2, ctx);
  }

  /** The handler table the analyser builds sends each of the six names to its own method
      and holds nothing else, whichever pack check is behind them. */
  lemma D3SHandlerTable(pack: (string, Statement, nat, Context) -> Run)
    ensures var ms := D3SMethodsWith(pack); var t := Enumerate(ms, map[]);
      (forall i :: 0 <= i < |ms| ==> ms[i].attr in t && t[ms[i].attr] == i)
      && forall k :: k in t ==> exists i :: 0 <= i < |ms| && ms[i].attr == k
  {
    var ms := D3SMethodsWith(pack);
    forall i, j | 0 <= i < j < |ms| ensures ms[i].attr != ms[j].attr {
      if i == 0 && j == 1 { assert ms[i].attr[6] != ms[j].attr[6]; }
      else if i == 0 && j == 2 { assert ms[i].attr[2] != ms[j].attr[2]; }
      else if i == 0 && j == 3 { assert ms[i].attr[2] != ms[j].attr[2]; }
      else if i == 0 && j == 4 { assert ms[i].attr[2] != ms[j].attr[2]; }
      else if i == 0 && j == 5 { assert ms[i].attr[2] != ms[j].attr[2]; }
      else if i == 1 && j == 2 { assert ms[i].attr[2] != ms[j].attr[2]; }
      else if i == 1 && j == 3 { assert ms[i].attr[2] != ms[j].attr[2]; }
      else if i == 1 && j == 4 { assert ms[i].attr[2] != ms[j].attr[2]; }
      else if i == 1 && j == 5 { assert ms[i].attr[2] != ms[j].attr[2]; }
      else if i == 2 && j == 3 { assert ms[i].attr[6] != ms[j].attr[6]; }
      else if i == 2 && j == 4 { assert ms[i].attr[2] != ms[j].attr[2]; }
      else if i == 2 && j == 5 { assert ms[i].attr[2] != ms[j].attr[2]; }
      else if i == 3 && j == 4 { assert ms[i].attr[2] != ms[j].attr[2]; }
      else if i == 3 && j == 5 { assert ms[i].attr[2] != ms[j].attr[2]; }
      else { assert i == 4 && j == 5; assert ms[i].attr[8] != ms[j].attr[8]; }
    }
    DistinctNamesTable(ms);
  }
}
