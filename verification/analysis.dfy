/** The analysis machinery: diagnostics, `StopAnalysis`, the callee-name -> handler table of
    a function-call analyser, the walk over every call of a unit (functions in order, blocks
    in natural order, statements in order) and `analyse` over the registered analysers.
    Exceptions are outcomes: a handler either finishes, stops (`StopAnalysis`) or raises. */
module Analysis {
  import opened Wrappers
  import opened Misc
  import opened Types
  import opened Expressions
  import opened Statements
  import opened Blocks
  import opened Functions
  import opened Units

  // ---------------------------------------------------------------- diagnostics

  datatype Severity = Warning | Error

  /** One `warn`: its class, message, and the labelled places it points at. */
  datatype Diagnostic = Diagnostic(severity: Severity, message: string, places: seq<(string, Location)>)

  /** The `location` dictionary of one labelled statement: only a statement that has a
      location is shown. */
  function At(caption: string, s: Statement): (r: seq<(string, Location)>)
    ensures |r| <= 1
    ensures r != [] <==> s.location.Some?
    ensures r != [] ==> r[0] == (caption, s.location.value)
  {
    if s.location.Some? then [(caption, s.location.value)] else []
  }

  /** The first line `warn` writes. */
  function Headline(d: Diagnostic): (s: string)
    ensures |s| > |d.message|
    ensures s[|s| - |d.message|..] == d.message
  {
    "lighthouse: " + (if d.severity == Warning then "Warning" else "Error") + ": " + d.message
  }

  /** How user code ended: normally, with `StopAnalysis`, or with another exception. */
  datatype Outcome = Done | Stopped | Raised(fault: Fault)

  /** What running user code produced: its diagnostics, in order, and how it ended. */
  datatype Run = Run(diags: seq<Diagnostic>, outcome: Outcome)

  /** Showing the places of a diagnostic: each located place is highlighted in the unit's
      source, in order, and the first failure is the exception `warn` raises. Reading the
      source of a unit that has none raises AssertionError; a window running past the end
      of the source raises IndexError. Nothing is read when there is no place to show. */
  function PlacesFault(places: seq<(string, Location)>, source: Option<string>): (r: Option<Fault>)
    ensures r.None? <==>
      (places == [] || (source.Some? && forall i :: 0 <= i < |places| ==> Highlight(places[i].1, source.value, places[i].0).Ok?))
    ensures r.Some? ==> r.value == AssertionError || r.value == IndexError
    ensures places != [] && source.None? ==> r == Some(AssertionError)
    decreases |places|
  {
    if |places| == 0 then None
    else if source.None? then Some(AssertionError)
    else match Highlight(places[0].1, source.value, places[0].0)
      case Err(f) => Some(f)
      case Ok(_) =>
        var r := PlacesFault(places[1..], source);
        assert forall i :: 1 <= i < |places| ==> places[i] == places[1..][i - 1];
        r
  }

  /** What the diagnostic run ends with once its places are shown: `after`, unless showing
      them raised. */
  function Shown(places: seq<(string, Location)>, source: Option<string>, after: Outcome): Outcome {
    match PlacesFault(places, source)
    case None => after
    case Some(f) => Raised(f)
  }

  /** `error`: a diagnostic of class Error, then `StopAnalysis` — unless showing its places
      raised first, in which case that exception is what leaves the handler. */
  function ErrorRun(message: string, places: seq<(string, Location)>, source: Option<string>): (r: Run)
    ensures |r.diags| == 1 && r.diags[0] == Diagnostic(Error, message, places)
    ensures r.outcome == Stopped <==> PlacesFault(places, source).None?
    ensures r.outcome != Stopped ==> r.outcome == Raised(PlacesFault(places, source).value)
  {
    Run([Diagnostic(Error, message, places)], Shown(places, source, Stopped))
  }

  /** A warning that lets the handler go on, unless showing its places raised. */
  function WarnRun(message: string, places: seq<(string, Location)>, source: Option<string>): (r: Run)
    ensures |r.diags| == 1 && r.diags[0] == Diagnostic(Warning, message, places)
    ensures r.outcome == Done <==> PlacesFault(places, source).None?
    ensures r.outcome != Done ==> r.outcome == Raised(PlacesFault(places, source).value)
  {
    Run([Diagnostic(Warning, message, places)], Shown(places, source, Done))
  }

  /** A diagnostic about a statement without a location reads nothing, so it cannot fail. */
  lemma UnlocatedCannotRaise(message: string, caption: string, s: Statement, source: Option<string>)
    requires s.location.None?
    ensures ErrorRun(message, At(caption, s), source).outcome == Stopped
    ensures WarnRun(message, At(caption, s), source).outcome == Done
  {
  }

  /** A located diagnostic in a unit whose source was never set raises AssertionError. */
  lemma NoSourceRaises(message: string, caption: string, s: Statement)
    requires s.location.Some?
    ensures ErrorRun(message, At(caption, s), None).outcome == Raised(AssertionError)
    ensures WarnRun(message, At(caption, s), None).outcome == Raised(AssertionError)
  {
  }

  /** A place on one of the last five lines of the source (or past it) cannot be shown:
      the window reaches four lines below it, so `error` and `warn` raise IndexError
      instead of stopping or finishing. */
  lemma NearEndRaises(message: string, caption: string, loc: Location, src: string)
    requires loc.line >= 1 && |SplitLines(src)| < loc.line + 5
    ensures ErrorRun(message, [(caption, loc)], Some(src)).outcome == Raised(IndexError)
    ensures WarnRun(message, [(caption, loc)], Some(src)).outcome == Raised(IndexError)
  {
    assert Highlight(loc, src, caption).Err?;
  }

  /** A place with the whole window inside the source is shown: `error` stops and `warn`
      finishes. */
  lemma ShownPlaceStops(message: string, caption: string, loc: Location, src: string)
    requires loc.line + 5 <= |SplitLines(src)|
    ensures ErrorRun(message, [(caption, loc)], Some(src)).outcome == Stopped
    ensures WarnRun(message, [(caption, loc)], Some(src)).outcome == Done
  {
    assert Highlight(loc, src, caption).Ok?;
  }

  /** Running `a` and then, if it finished normally, `b`. */
  function Then(a: Run, b: Run): (r: Run)
    ensures a.outcome == Done ==> r == Run(a.diags + b.diags, b.outcome)
    ensures a.outcome != Done ==> r == a
  {
    if a.outcome == Done then Run(a.diags + b.diags, b.outcome) else a
  }

  /** An error ends a handler: nothing run after it adds diagnostics. */
  lemma ErrorStops(message: string, places: seq<(string, Location)>, source: Option<string>, rest: Run)
    ensures Then(ErrorRun(message, places, source), rest) == ErrorRun(message, places, source)
  {
  }

  // ---------------------------------------------------------------- handler registration

  /** What a handler sees: the function's declarations (for rendering and types), the
      unit's aggregate table, and the unit's source (None when it was never set), in which
      diagnostics show their places. */
  datatype Context = Context(scope: Scope, types: map<int, Type>, source: Option<string>)

  /** A method of an analyser as `dir()` lists it: its attribute name, whether the
      `Handler` decorator marked it, the name given to the decorator, and its body. The
      attribute name is the function's own name. */
  datatype Method = Method(attr: string, decorated: bool, given: Option<string>, body: (Statement, Context) -> Run)

  /** `Handler(name)`: registered under the given name when that is truthy, else under the
      function's name. */
  function HandlerName(m: Method): (n: string)
    ensures m.given.Some? && m.given.value != "" ==> n == m.given.value
    ensures m.given.None? || m.given.value == "" ==> n == m.attr
  {
    if m.given.Some? && |m.given.value| > 0 then m.given.value else m.attr
  }

  /** Some decorated method registers under `k`. */
  ghost predicate Registers(ms: seq<Method>, k: string) {
    exists i :: 0 <= i < |ms| && ms[i].decorated && HandlerName(ms[i]) == k
  }

  /** `_enum_handlers`: the methods in `dir()` order; each decorated one is stored under its
      name, a later one replacing an earlier one. Entries already in the table stay unless
      replaced. A table entry is the index of the method it names. */
  function Enumerate(ms: seq<Method>, handlers: map<string, nat>): (r: map<string, nat>)
    ensures Enumerated(ms, handlers, r)
    decreases |ms|
  {
    if |ms| == 0 then handlers
    else
      var h := Enumerate(ms[..|ms| - 1], handlers);
      EnumerateStep(ms, handlers, h);
      Register(h, ms[|ms| - 1], |ms| - 1)
  }

  /** What the table built from `handlers` by the methods `ms` holds: the names in
      `handlers` and those the methods register; an entry the methods do not register is
      kept; and every decorated method's name maps to the last method registering it. */
  ghost predicate Enumerated(ms: seq<Method>, handlers: map<string, nat>, r: map<string, nat>) {
    (forall k :: k in r <==> k in handlers || Registers(ms, k))
    && (forall k :: k in handlers && !Registers(ms, k) ==> r[k] == handlers[k])
    && (forall i :: 0 <= i < |ms| && ms[i].decorated ==>
          var k := HandlerName(ms[i]);
          k in r && i <= r[k] < |ms| && ms[r[k]].decorated && HandlerName(ms[r[k]]) == k)
  }

  /** The loop body: a decorated method at index `i` (re)binds its name to `i`. */
  function Register(h: map<string, nat>, m: Method, i: nat): map<string, nat> {
    if m.decorated then h[HandlerName(m) := i] else h
  }

  lemma EnumerateStep(ms: seq<Method>, handlers: map<string, nat>, h: map<string, nat>)
    requires |ms| > 0 && Enumerated(ms[..|ms| - 1], handlers, h)
    ensures Enumerated(ms, handlers, Register(h, ms[|ms| - 1], |ms| - 1))
  {
    RegistersSnoc(ms);
    StepKeeps(ms, handlers, h);
    StepPointsToLast(ms, handlers, h);
  }

  /** The names after the step, and the entries the step leaves alone. */
  lemma StepKeeps(ms: seq<Method>, handlers: map<string, nat>, h: map<string, nat>)
    requires |ms| > 0 && Enumerated(ms[..|ms| - 1], handlers, h)
    requires var init := ms[..|ms| - 1]; var m := ms[|ms| - 1];
      forall k :: Registers(ms, k) <==> Registers(init, k) || (m.decorated && HandlerName(m) == k)
    ensures var r := Register(h, ms[|ms| - 1], |ms| - 1);
      (forall k :: k in r <==> k in handlers || Registers(ms, k))
      && (forall k :: k in handlers && !Registers(ms, k) ==> r[k] == handlers[k])
  {
  }

  /** After the step every decorated method's name still maps to the last method
      registering it. */
  lemma StepPointsToLast(ms: seq<Method>, handlers: map<string, nat>, h: map<string, nat>)
    requires |ms| > 0 && Enumerated(ms[..|ms| - 1], handlers, h)
    ensures var r := Register(h, ms[|ms| - 1], |ms| - 1);
      forall i :: 0 <= i < |ms| && ms[i].decorated ==>
        var k := HandlerName(ms[i]);
        k in r && i <= r[k] < |ms| && ms[r[k]].decorated && HandlerName(ms[r[k]]) == k
  {
    var init := ms[..|ms| - 1];
    var m := ms[|ms| - 1];
    var r := Register(h, m, |ms| - 1);
    forall i | 0 <= i < |ms| && ms[i].decorated
      ensures HandlerName(ms[i]) in r && i <= r[HandlerName(ms[i])] < |ms|
      ensures ms[r[HandlerName(ms[i])]].decorated && HandlerName(ms[r[HandlerName(ms[i])]]) == HandlerName(ms[i])
    {
      var k := HandlerName(ms[i]);
      if !(m.decorated && HandlerName(m) == k) {
        assert i < |ms| - 1;
        assert init[i] == ms[i];
        assert r[k] == h[k];
        assert init[h[k]] == ms[h[k]];
      }
    }
  }

  /** A name is registered by a list exactly when the list without its last method
      registers it or that method does. */
  lemma RegistersSnoc(ms: seq<Method>)
    requires |ms| > 0
    ensures var init := ms[..|ms| - 1]; var m := ms[|ms| - 1];
      forall k :: Registers(ms, k) <==> Registers(init, k) || (m.decorated && HandlerName(m) == k)
  {
    var init := ms[..|ms| - 1];
    var m := ms[|ms| - 1];
    forall k ensures Registers(ms, k) ==> Registers(init, k) || (m.decorated && HandlerName(m) == k) {
      if Registers(ms, k) {
        var i :| 0 <= i < |ms| && ms[i].decorated && HandlerName(ms[i]) == k;
        if i < |ms| - 1 {
          assert init[i] == ms[i];
        }
      }
    }
    forall k ensures Registers(init, k) ==> Registers(ms, k) {
      if Registers(init, k) {
        var i :| 0 <= i < |init| && init[i].decorated && HandlerName(init[i]) == k;
        assert ms[i] == init[i];
      }
    }
  }

  /** Enumerating again over the table the first enumeration built changes nothing. */
  lemma EnumerateTwice(ms: seq<Method>)
    ensures Enumerate(ms, Enumerate(ms, map[])) == Enumerate(ms, map[])
  {
    var once := Enumerate(ms, map[]);
    var twice := Enumerate(ms, once);
    assert forall k :: k in once <==> Registers(ms, k);
    forall k | k in once ensures k in twice && twice[k] == once[k] {
      SameLastRegistration(ms, map[], once, k);
    }
    assert twice.Keys == once.Keys;
  }

  /** The table entry for a registered name is the last method registering it, whatever the
      table held before. */
  lemma LastRegistration(ms: seq<Method>, handlers: map<string, nat>, k: string)
    requires Registers(ms, k)
    ensures var r := Enumerate(ms, handlers);
      k in r && r[k] < |ms| && ms[r[k]].decorated && HandlerName(ms[r[k]]) == k
      && forall j :: r[k] < j < |ms| ==> !(ms[j].decorated && HandlerName(ms[j]) == k)
  {
    var r := Enumerate(ms, handlers);
    var i :| 0 <= i < |ms| && ms[i].decorated && HandlerName(ms[i]) == k;
    forall j | r[k] < j < |ms| ensures !(ms[j].decorated && HandlerName(ms[j]) == k) {
    }
  }

  /** Whatever the two tables held before, a registered name ends up at the same method. */
  lemma SameLastRegistration(ms: seq<Method>, h1: map<string, nat>, h2: map<string, nat>, k: string)
    requires Registers(ms, k)
    ensures k in Enumerate(ms, h1) && k in Enumerate(ms, h2)
    ensures Enumerate(ms, h1)[k] == Enumerate(ms, h2)[k]
  {
    LastRegistration(ms, h1, k);
    LastRegistration(ms, h2, k);
  }

  /** When every method is decorated under its own attribute name and no two share a name,
      the table built from scratch sends each name to its method and holds nothing else. */
  lemma DistinctNamesTable(ms: seq<Method>)
    requires forall i :: 0 <= i < |ms| ==> ms[i].decorated && ms[i].given.None?
    requires forall i, j :: 0 <= i < j < |ms| ==> ms[i].attr != ms[j].attr
    ensures var t := Enumerate(ms, map[]);
      (forall i :: 0 <= i < |ms| ==> ms[i].attr in t && t[ms[i].attr] == i)
      && forall k :: k in t ==> exists i :: 0 <= i < |ms| && ms[i].attr == k
  {
    var t := Enumerate(ms, map[]);
    forall i | 0 <= i < |ms| ensures ms[i].attr in t && t[ms[i].attr] == i {
      DistinctEntry(ms, i);
    }
    forall k | k in t ensures exists i :: 0 <= i < |ms| && ms[i].attr == k {
      NamedByAttr(ms, k);
    }
  }

  lemma NamedByAttr(ms: seq<Method>, k: string)
    requires forall i :: 0 <= i < |ms| ==> ms[i].given.None?
    requires k in Enumerate(ms, map[])
    ensures exists i :: 0 <= i < |ms| && ms[i].attr == k
  {
    assert Registers(ms, k);
    var i :| 0 <= i < |ms| && ms[i].decorated && HandlerName(ms[i]) == k;
    assert ms[i].attr == k;
  }

  lemma DistinctEntry(ms: seq<Method>, i: nat)
    requires forall i :: 0 <= i < |ms| ==> ms[i].decorated && ms[i].given.None?
    requires forall i, j :: 0 <= i < j < |ms| ==> ms[i].attr != ms[j].attr
    requires i < |ms|
    ensures ms[i].attr in Enumerate(ms, map[]) && Enumerate(ms, map[])[ms[i].attr] == i
  {
    var k := ms[i].attr;
    assert HandlerName(ms[i]) == k;
    LastRegistration(ms, map[], k);
    var r := Enumerate(ms, map[])[k];
    assert HandlerName(ms[r]) == ms[r].attr;
  }

  // ---------------------------------------------------------------- dispatch

  /** What handling some calls produced: the diagnostics, and the exception that escaped,
      if any. */
  datatype Step = Step(diags: seq<Diagnostic>, escaped: Option<Fault>)

  /** Doing `first` and then, unless an exception escaped from it, `rest`. */
  function Chain(first: Step, rest: Step): (r: Step)
    ensures first.escaped.Some? ==> r == first
    ensures first.escaped.None? ==> r == Step(first.diags + rest.diags, rest.escaped)
  {
    if first.escaped.Some? then first else Step(first.diags + rest.diags, rest.escaped)
  }

  lemma ChainAssociates(a: Step, b: Step, c: Step)
    ensures Chain(Chain(a, b), c) == Chain(a, Chain(b, c))
  {
    if a.escaped.None? && b.escaped.None? {
      assert a.diags + b.diags + c.diags == a.diags + (b.diags + c.diags);
    }
  }

  /** The handler registered for a rendered callee: only a text callee can equal a name. */
  function HandlerFor(ms: seq<Method>, handlers: map<string, nat>, callee: Rendered): (r: Option<Method>)
    ensures r.Some? <==> callee.Text? && callee.s in handlers && handlers[callee.s] < |ms|
    ensures r.Some? ==> r.value == ms[handlers[callee.s]]
  {
    if callee.Text? && callee.s in handlers && handlers[callee.s] < |ms| then Some(ms[handlers[callee.s]])
    else None
  }

  const ExceptionMessage := "Python exception raised."
  const ExceptionCaption := "when processing statement"

  /** `handle`: the callee is rendered (an exception there escapes as it is); a registered
      handler runs with the statement; `StopAnalysis` is swallowed; any other exception adds
      one warning naming the statement and escapes — or, when showing that warning raises
      in turn, the warning's own exception escapes in its place. */
  function Handle(ms: seq<Method>, handlers: map<string, nat>, s: Statement, ctx: Context): (r: Step)
    requires s.Call?
    ensures ExprToC(s.fn, ctx.scope).Err? ==> r == Step([], Some(ExprToC(s.fn, ctx.scope).error))
    ensures ExprToC(s.fn, ctx.scope).Ok? && HandlerFor(ms, handlers, ExprToC(s.fn, ctx.scope).value).None? ==> r == Step([], None)
    ensures ExprToC(s.fn, ctx.scope).Ok? && HandlerFor(ms, handlers, ExprToC(s.fn, ctx.scope).value).Some? ==>
      var run := HandlerFor(ms, handlers, ExprToC(s.fn, ctx.scope).value).value.body(s, ctx);
      var again := PlacesFault(At(ExceptionCaption, s), ctx.source);
      (run.outcome.Raised? ==>
        r == Step(run.diags + [Diagnostic(Warning, ExceptionMessage, At(ExceptionCaption, s))],
                  Some(if again.Some? then again.value else run.outcome.fault)))
      && (!run.outcome.Raised? ==> r == Step(run.diags, None))
  {
    match ExprToC(s.fn, ctx.scope)
    case Err(e) => Step([], Some(e))
    case Ok(callee) =>
      match HandlerFor(ms, handlers, callee)
      case None => Step([], None)
      case Some(m) =>
        var run := m.body(s, ctx);
        match run.outcome
        case Raised(f) =>
          var w := WarnRun(ExceptionMessage, At(ExceptionCaption, s), ctx.source);
          Step(run.diags + w.diags, Some(if w.outcome.Raised? then w.outcome.fault else f))
        case _ => Step(run.diags, None)
  }

  /** An `error` at a statement near the end of the source raises instead of stopping, and
      the warning `handle` then writes about the same statement raises too: the call's
      handling ends with both diagnostics and IndexError escaping. */
  lemma ErrorNearEndEscapes(ms: seq<Method>, handlers: map<string, nat>, s: Statement, ctx: Context,
                            message: string, caption: string)
    requires s.Call? && ExprToC(s.fn, ctx.scope).Ok?
    requires HandlerFor(ms, handlers, ExprToC(s.fn, ctx.scope).value).Some?
    requires HandlerFor(ms, handlers, ExprToC(s.fn, ctx.scope).value).value.body(s, ctx) == ErrorRun(message, At(caption, s), ctx.source)
    requires s.location.Some? && ctx.source.Some?
    requires s.location.value.line >= 1 && |SplitLines(ctx.source.value)| < s.location.value.line + 5
    ensures Handle(ms, handlers, s, ctx) ==
      Step([Diagnostic(Error, message, At(caption, s)), Diagnostic(Warning, ExceptionMessage, At(ExceptionCaption, s))],
           Some(IndexError))
  {
    NearEndRaises(message, caption, s.location.value, ctx.source.value);
    NearEndRaises(ExceptionMessage, ExceptionCaption, s.location.value, ctx.source.value);
  }

  /** A call whose callee names no handler produces nothing. */
  lemma UnregisteredCallIsQuiet(ms: seq<Method>, handlers: map<string, nat>, s: Statement, ctx: Context)
    requires s.Call? && ExprToC(s.fn, ctx.scope).Ok?
    requires var c := ExprToC(s.fn, ctx.scope).value; !c.Text? || c.s !in handlers
    ensures Handle(ms, handlers, s, ctx) == Step([], None)
  {
  }

  /** Handling the calls in order; the first escaping exception ends the walk. */
  function Dispatch(ms: seq<Method>, handlers: map<string, nat>, calls: seq<Statement>, ctx: Context): (r: Step)
    requires forall i :: 0 <= i < |calls| ==> calls[i].Call?
    decreases |calls|
  {
    if |calls| == 0 then Step([], None)
    else Chain(Handle(ms, handlers, calls[0], ctx), Dispatch(ms, handlers, calls[1..], ctx))
  }

  /** The diagnostics of handling calls one by one, when none escapes. */
  function AllDiags(ms: seq<Method>, handlers: map<string, nat>, calls: seq<Statement>, ctx: Context): seq<Diagnostic>
    requires forall i :: 0 <= i < |calls| ==> calls[i].Call?
    decreases |calls|
  {
    if |calls| == 0 then []
    else Handle(ms, handlers, calls[0], ctx).diags + AllDiags(ms, handlers, calls[1..], ctx)
  }

  /** When no handler lets an exception escape — in particular when handlers only stop with
      `StopAnalysis` — every call is handled in order and the diagnostics are those of each
      call in turn. */
  lemma {:induction false} DispatchVisitsAll(ms: seq<Method>, handlers: map<string, nat>, calls: seq<Statement>, ctx: Context)
    requires forall i :: 0 <= i < |calls| ==> calls[i].Call?
    requires forall i :: 0 <= i < |calls| ==> Handle(ms, handlers, calls[i], ctx).escaped.None?
    ensures Dispatch(ms, handlers, calls, ctx) == Step(AllDiags(ms, handlers, calls, ctx), None)
    decreases |calls|
  {
    if |calls| > 0 {
      DispatchVisitsAll(ms, handlers, calls[1..], ctx);
    }
  }

  /** An exception escaping at call `j` ends the walk there: the calls before it are handled,
      the ones after it are not. */
  lemma {:induction false} DispatchStopsAtEscape(ms: seq<Method>, handlers: map<string, nat>, calls: seq<Statement>, ctx: Context, j: nat)
    requires forall i :: 0 <= i < |calls| ==> calls[i].Call?
    requires j < |calls| && Handle(ms, handlers, calls[j], ctx).escaped.Some?
    requires forall i :: 0 <= i < j ==> Handle(ms, handlers, calls[i], ctx).escaped.None?
    ensures var h := Handle(ms, handlers, calls[j], ctx);
      Dispatch(ms, handlers, calls, ctx) == Step(AllDiags(ms, handlers, calls[..j], ctx) + h.diags, h.escaped)
    decreases j
  {
    if j > 0 {
      DispatchStopsAtEscape(ms, handlers, calls[1..], ctx, j - 1);
      assert calls[1..][..j - 1] == calls[..j][1..];
    } else {
      assert calls[..0] == [];
    }
  }

  // ---------------------------------------------------------------- walking a unit

  /** The block with id `id` (the first one, in the list). */
  function BlockWith(blocks: seq<Block>, id: int): (r: Option<Block>)
    ensures r.Some? <==> id in Ids(blocks)
    ensures r.Some? ==> r.value.id == id && r.value in blocks
    decreases |blocks|
  {
    if |blocks| == 0 then None
    else if blocks[0].id == id then Some(blocks[0])
    else
      assert Ids(blocks) == {blocks[0].id} + Ids(blocks[1..]);
      BlockWith(blocks[1..], id)
  }

  /** The call statements of a list of statements, in order. */
  function CallsOf(ss: seq<Statement>): (r: seq<Statement>)
    ensures forall i :: 0 <= i < |r| ==> r[i].Call? && r[i] in ss
    ensures forall s :: s in ss && s.Call? ==> s in r
    decreases |ss|
  {
    if |ss| == 0 then []
    else (if ss[0].Call? then [ss[0]] else []) + CallsOf(ss[1..])
  }

  /** The calls met walking the blocks in the given order, each block's in statement order. */
  function CallsInOrder(blocks: seq<Block>, order: seq<int>): (r: seq<Statement>)
    ensures forall i :: 0 <= i < |r| ==> r[i].Call?
    decreases |order|
  {
    if |order| == 0 then []
    else
      var here := match BlockWith(blocks, order[0]) case Some(b) => CallsOf(b.statements) case None => [];
      here + CallsInOrder(blocks, order[1..])
  }

  /** Walking two stretches of blocks meets the first stretch's calls, then the second's. */
  lemma {:induction false} CallsInOrderAppend(blocks: seq<Block>, a: seq<int>, b: seq<int>)
    ensures CallsInOrder(blocks, a + b) == CallsInOrder(blocks, a) + CallsInOrder(blocks, b)
    decreases |a|
  {
    if |a| > 0 {
      assert (a + b)[0] == a[0];
      assert (a + b)[1..] == a[1..] + b;
      CallsInOrderAppend(blocks, a[1..], b);
    } else {
      assert a + b == b;
    }
  }

  /** Each listed block contributes exactly its own calls, in statement order. */
  lemma CallsOfOneBlock(blocks: seq<Block>, id: int)
    requires id in Ids(blocks)
    ensures CallsInOrder(blocks, [id]) == CallsOf(BlockWith(blocks, id).value.statements)
  {
    assert [id][1..] == [];
  }

  /** `check_unit` after the handler table is built: for each function in order, its blocks
      in natural order (a failure there escapes), then the calls of each block. */
  function CheckFunctions(ms: seq<Method>, handlers: map<string, nat>, fs: seq<Function>, types: map<int, Type>, source: Option<string>): (r: Step)
    decreases |fs|
  {
    if |fs| == 0 then Step([], None)
    else Chain(CheckFunction(ms, handlers, fs[0], types, source), CheckFunctions(ms, handlers, fs[1..], types, source))
  }

  /** One function: its blocks in natural order (a failure there escapes), then the calls of
      each block. */
  function CheckFunction(ms: seq<Method>, handlers: map<string, nat>, f: Function, types: map<int, Type>, source: Option<string>): Step {
    match NaturalOrder(f)
    case Err(e) => Step([], Some(e))
    case Ok(order) => Dispatch(ms, handlers, CallsInOrder(f.blocks, order), Context(f.scope, types, source))
  }

  /** Checking the functions of `a + b` is checking those of `a` and then, unless an
      exception escaped, those of `b`: the diagnostics follow the function order. */
  lemma {:induction false} CheckFunctionsAppend(ms: seq<Method>, handlers: map<string, nat>, a: seq<Function>, b: seq<Function>, types: map<int, Type>, source: Option<string>)
    ensures CheckFunctions(ms, handlers, a + b, types, source) ==
      Chain(CheckFunctions(ms, handlers, a, types, source), CheckFunctions(ms, handlers, b, types, source))
    decreases |a|
  {
    var rb := CheckFunctions(ms, handlers, b, types, source);
    if |a| == 0 {
      assert a + b == b;
      assert [] + rb.diags == rb.diags;
    } else {
      var ab := a + b;
      assert ab[0] == a[0];
      assert ab[1..] == a[1..] + b;
      var f0 := CheckFunction(ms, handlers, a[0], types, source);
      var ra := CheckFunctions(ms, handlers, a[1..], types, source);
      assert CheckFunctions(ms, handlers, a, types, source) == Chain(f0, ra);
      assert CheckFunctions(ms, handlers, ab, types, source) == Chain(f0, CheckFunctions(ms, handlers, ab[1..], types, source));
      CheckFunctionsAppend(ms, handlers, a[1..], b, types, source);
      ChainAssociates(f0, ra, rb);
    }
  }

  /** One function whose natural order exists is checked by dispatching the calls of its
      blocks in that order. */
  lemma CheckOneFunction(ms: seq<Method>, handlers: map<string, nat>, f: Function, types: map<int, Type>, source: Option<string>)
    requires NaturalOrder(f).Ok?
    ensures CheckFunctions(ms, handlers, [f], types, source) ==
      Dispatch(ms, handlers, CallsInOrder(f.blocks, NaturalOrder(f).value), Context(f.scope, types, source))
  {
    var d := Dispatch(ms, handlers, CallsInOrder(f.blocks, NaturalOrder(f).value), Context(f.scope, types, source));
    assert [f][1..] == [];
    assert d.diags + [] == d.diags;
  }

  /** `FunctionCallAnalyser.check_unit`: the handler table is enumerated into the analyser's
      table, then every call of the unit is dispatched. */
  function CheckUnit(ms: seq<Method>, handlers: map<string, nat>, u: Unit): (r: (map<string, nat>, Step))
    ensures r.0 == Enumerate(ms, handlers)
  {
    var table := Enumerate(ms, handlers);
    (table, CheckFunctions(ms, table, u.functions, u.types, u.rawSource))
  }

  // ---------------------------------------------------------------- analyse

  /** What loading a checker file left in the registry, in construction order: function-call
      analysers (their methods and handler table), other analysers (their `check_unit`), and
      things that are not analysers at all. */
  datatype Loaded =
    | CallAnalyser(methods: seq<Method>, handlers: map<string, nat>)
    | OtherAnalyser(check: Unit -> Run)
    | NotAnalyser

  /** `_enumerate_analysers`: the registry is emptied, then filled by the user's checker
      file, then by the site's. */
  function EnumerateAnalysers(previous: seq<Loaded>, user: seq<Loaded>, site: seq<Loaded>): (r: seq<Loaded>)
    ensures |r| == |user| + |site|
    ensures r[..|user|] == user && r[|user|..] == site
  {
    user + site
  }

  /** `analyse`: each analyser checks the unit in turn; `StopAnalysis` ends only that
      analyser, anything else escapes and ends the analysis; non-analysers are skipped. */
  function Analyse(objs: seq<Loaded>, u: Unit): (r: Step)
    decreases |objs|
  {
    if |objs| == 0 then Step([], None)
    else Chain(AnalyseOne(objs[0], u), Analyse(objs[1..], u))
  }

  /** One registered object: `StopAnalysis` from an analyser is swallowed. */
  function AnalyseOne(obj: Loaded, u: Unit): (r: Step)
    ensures obj.NotAnalyser? ==> r == Step([], None)
    ensures obj.OtherAnalyser? ==> r.diags == obj.check(u).diags
    ensures obj.OtherAnalyser? ==> (r.escaped.Some? <==> obj.check(u).outcome.Raised?)
    ensures obj.CallAnalyser? ==> r == CheckUnit(obj.methods, obj.handlers, u).1
  {
    match obj
    case CallAnalyser(ms, h) => CheckUnit(ms, h, u).1
    case OtherAnalyser(check) =>
      var run := check(u);
      Step(run.diags, if run.outcome.Raised? then Some(run.outcome.fault) else None)
    case NotAnalyser => Step([], None)
  }

  /** Things that are not analysers make no difference to the analysis. */
  lemma {:induction false} AnalyseSkipsOthers(a: seq<Loaded>, b: seq<Loaded>, u: Unit)
    ensures Analyse(a + [NotAnalyser] + b, u) == Analyse(a + b, u)
    decreases |a|
  {
    if |a| == 0 {
      assert a + [NotAnalyser] + b == [NotAnalyser] + b;
      assert ([NotAnalyser] + b)[1..] == b;
      assert a + b == b;
      var rest := Analyse(b, u);
      assert [] + rest.diags == rest.diags;
    } else {
      assert (a + [NotAnalyser] + b)[0] == a[0];
      assert (a + [NotAnalyser] + b)[1..] == a[1..] + [NotAnalyser] + b;
      assert (a + b)[0] == a[0];
      assert (a + b)[1..] == a[1..] + b;
      AnalyseSkipsOthers(a[1..], b, u);
    }
  }

  /** An analyser that stops with `StopAnalysis` keeps its diagnostics and the next
      analyser still runs. */
  lemma StoppedAnalyserContinues(check: Unit -> Run, rest: seq<Loaded>, u: Unit)
    requires check(u).outcome == Stopped
    ensures Analyse([OtherAnalyser(check)] + rest, u) ==
      Step(check(u).diags + Analyse(rest, u).diags, Analyse(rest, u).escaped)
  {
    assert ([OtherAnalyser(check)] + rest)[1..] == rest;
  }

  /** An analyser that raises ends the analysis: the analysers after it do not run. */
  lemma RaisingAnalyserEnds(check: Unit -> Run, rest: seq<Loaded>, u: Unit)
    requires check(u).outcome.Raised?
    ensures Analyse([OtherAnalyser(check)] + rest, u) == Step(check(u).diags, Some(check(u).outcome.fault))
  {
  }

  /** The user's analysers run before the site's: the analysis of the registry is the
      user's analysis followed by the site's, which do not run if a user analyser raises. */
  lemma UserBeforeSite(previous: seq<Loaded>, user: seq<Loaded>, site: seq<Loaded>, u: Unit)
    ensures Analyse(EnumerateAnalysers(previous, user, site), u) == Chain(Analyse(user, u), Analyse(site, u))
  {
    AnalyseAppend(user, site, u);
  }

  lemma {:induction false} AnalyseAppend(a: seq<Loaded>, b: seq<Loaded>, u: Unit)
    ensures Analyse(a + b, u) == Chain(Analyse(a, u), Analyse(b, u))
    decreases |a|
  {
    var rb := Analyse(b, u);
    if |a| == 0 {
      assert a + b == b;
      assert [] + rb.diags == rb.diags;
    } else {
      var ab := a + b;
      assert ab[0] == a[0];
      assert ab[1..] == a[1..] + b;
      var f0 := AnalyseOne(a[0], u);
      var ra := Analyse(a[1..], u);
      assert Analyse(a, u) == Chain(f0, ra);
      assert Analyse(ab, u) == Chain(f0, Analyse(ab[1..], u));
      AnalyseAppend(a[1..], b, u);
      ChainAssociates(f0, ra, rb);
    }
  }
}
