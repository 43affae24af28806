/** The complexity plugin: its table of limits configured from plugin arguments of the form
    `metric=action:threshold`, the block and edge counts it gathers for each function, and
    the check that reports every limit the function reaches. C's `strtok`, `strcasecmp`,
    `atoi` and unsigned arithmetic are written out. */
module Complexity {
  import opened Wrappers
  import opened Text
  import opened Decoding

  // ---------------------------------------------------------------- C library pieces

  /** The number of `:` at the start of `s`. */
  function Delimiters(s: string): (k: nat)
    ensures k <= |s|
    ensures forall i :: 0 <= i < k ==> s[i] == ':'
    ensures k < |s| ==> s[k] != ':'
    decreases |s|
  {
    if |s| == 0 || s[0] != ':' then 0 else 1 + Delimiters(s[1..])
  }

  /** The number of characters before the first `:` (or the end). */
  function TokenLength(s: string): (k: nat)
    ensures k <= |s|
    ensures forall i :: 0 <= i < k ==> s[i] != ':'
    ensures k < |s| ==> s[k] == ':'
    decreases |s|
  {
    if |s| == 0 || s[0] == ':' then 0 else 1 + TokenLength(s[1..])
  }

  /** `strtok(s, ":")` followed by the state the next `strtok(NULL, ":")` resumes from: skip
      delimiters; None when nothing but delimiters remains; otherwise the token up to the
      next delimiter, and the text after that delimiter. */
  function StrTok(s: string): (r: Option<(string, string)>)
    ensures r.None? <==> forall i :: 0 <= i < |s| ==> s[i] == ':'
    ensures r.Some? ==> |r.value.0| > 0 && ':' !in r.value.0 && |r.value.1| < |s|
  {
    var i := Delimiters(s);
    if i == |s| then None
    else
      var j := i + TokenLength(s[i..]);
      assert forall k :: i <= k < j ==> s[k] == s[i..][k - i];
      Some((s[i..j], if j == |s| then "" else s[j + 1..]))
  }

  /** Leading delimiters are skipped, and a token ends at the next delimiter (which is
      consumed) or at the end. */
  lemma StrTokSplits(colons: nat, tok: string, tail: string)
    requires |tok| > 0 && ':' !in tok
    requires |tail| > 0 ==> tail[0] == ':'
    ensures StrTok(seq(colons, _ => ':') + tok + tail) == Some((tok, if |tail| == 0 then "" else tail[1..]))
  {
    var pre := seq(colons, _ => ':');
    var s := pre + tok + tail;
    assert s == pre + (tok + tail);
    DelimitersThen(pre, tok + tail);
    assert s[colons..] == tok + tail;
    TokenLengthThen(tok, tail);
    var j := colons + |tok|;
    assert s[colons..j] == tok;
    if |tail| > 0 {
      assert s[j + 1..] == tail[1..];
    }
  }

  lemma {:induction false} DelimitersThen(pre: string, s: string)
    requires forall i :: 0 <= i < |pre| ==> pre[i] == ':'
    requires |s| > 0 && s[0] != ':'
    ensures Delimiters(pre + s) == |pre|
    decreases |pre|
  {
    if |pre| > 0 {
      assert (pre + s)[1..] == pre[1..] + s;
      DelimitersThen(pre[1..], s);
    } else {
      assert pre + s == s;
    }
  }

  lemma {:induction false} TokenLengthThen(tok: string, s: string)
    requires ':' !in tok
    requires |s| > 0 ==> s[0] == ':'
    ensures TokenLength(tok + s) == |tok|
    decreases |tok|
  {
    if |tok| > 0 {
      assert (tok + s)[1..] == tok[1..] + s;
      TokenLengthThen(tok[1..], s);
    } else {
      assert tok + s == s;
    }
  }

  function Spaces(s: string): (k: nat)
    ensures k <= |s|
    ensures forall i :: 0 <= i < k ==> IsSpace(s[i])
    ensures k < |s| ==> !IsSpace(s[k])
    decreases |s|
  {
    if |s| == 0 || !IsSpace(s[0]) then 0 else 1 + Spaces(s[1..])
  }

  const LongMin: int := -0x8000_0000_0000_0000
  const LongMax: int := 0x7fff_ffff_ffff_ffff
  const IntMin: int := -0x8000_0000
  const IntMax: int := 0x7fff_ffff

  /** The `int` that glibc's `atoi`, which is `(int) strtol(s, NULL, 10)`, makes of the
      number `n` it read: `strtol` saturates at the bounds of a 64-bit `long`, and the
      conversion to a 32-bit `int` keeps the low 32 bits, as GCC defines it. */
  function AtoiOf(n: int): (r: int)
    ensures IntMin <= r <= IntMax
    ensures IntMin <= n <= IntMax ==> r == n
    ensures (r - (if n > LongMax then LongMax else if n < LongMin then LongMin else n)) % 0x1_0000_0000 == 0
  {
    var l := if n > LongMax then LongMax else if n < LongMin then LongMin else n;
    var u := l % 0x1_0000_0000;
    if u > IntMax then u - 0x1_0000_0000 else u
  }

  /** A threshold beyond the range of `long` saturates to `LONG_MAX`, whose low 32 bits read
      as -1: a 19-digit threshold of 9223372036854775808 or more configures -1. */
  lemma AtoiSaturates(n: int)
    requires n > LongMax
    ensures AtoiOf(n) == -1
  {
  }

  /** `atoi`: leading white space, an optional sign, then the longest run of digits; no digits
      reads as 0. The number read goes through `AtoiOf`. */
  function Atoi(s: string): (n: int)
    ensures IntMin <= n <= IntMax
  {
    var i := Spaces(s);
    var neg := i < |s| && s[i] == '-';
    var j := if i < |s| && (s[i] == '-' || s[i] == '+') then i + 1 else i;
    var k := DigitRun(s[j..]);
    var v := if k == 0 then 0 else DigitsValue(s[j..][..k]);
    AtoiOf(if neg then -v else v)
  }

  /** `atoi` reads back what `%d` writes, and ignores what follows the digits; a number
      outside `int` comes back as `AtoiOf` makes it. */
  lemma AtoiOfIntToString(n: int, tail: string)
    requires |tail| == 0 || !IsDigit(tail[0])
    ensures Atoi(IntToString(n) + tail) == AtoiOf(n)
    ensures IntMin <= n <= IntMax ==> Atoi(IntToString(n) + tail) == n
  {
    AtoiReadsNumber(n, tail);
  }

  lemma AtoiReadsNumber(n: int, tail: string)
    requires |tail| == 0 || !IsDigit(tail[0])
    ensures Atoi(IntToString(n) + tail) == AtoiOf(n)
  {
    var s := IntToString(n) + tail;
    var m: nat := if n < 0 then -n else n;
    var d := NatToString(m);
    DigitsOfNatToString(m);
    DigitPrefix(d, tail);
    if n < 0 {
      assert s == "-" + (d + tail);
      AtoiSigned(d + tail, |d|);
    } else {
      assert s == d + tail;
      AtoiUnsigned(d + tail, |d|);
    }
  }

  /** `atoi` of a string opening with `k` digits. */
  lemma AtoiUnsigned(s: string, k: nat)
    requires 1 <= k == DigitRun(s)
    ensures Atoi(s) == AtoiOf(DigitsValue(s[..k]))
  {
    assert Spaces(s) == 0;
    assert s[0..] == s;
  }

  /** `atoi` of a minus sign followed by a string opening with `k` digits. */
  lemma AtoiSigned(s: string, k: nat)
    requires 1 <= k == DigitRun(s)
    ensures Atoi("-" + s) == AtoiOf(-(DigitsValue(s[..k]) as int))
  {
    var t := "-" + s;
    assert Spaces(t) == 0;
    assert t[1..] == s;
  }

  // ---------------------------------------------------------------- configuration

  const NMetrics: nat := 3
  const NLimits: nat := 6

  /** `metric_names`: index 0 marks an unused slot. */
  function MetricName(i: nat): string
    requires 1 <= i <= NMetrics
  {
    if i == 1 then "cyclomatic" else if i == 2 then "design" else "jbp-cyclomatic"
  }

  datatype Action = Warn | Error

  /** One configured limit; metric 0 marks an unused slot. */
  datatype Limit = Limit(metric: int, threshold: int, action: Action)

  /** The fixed table of limits, every slot in use naming a metric. */
  predicate WellConfigured(conf: seq<Limit>) {
    |conf| == NLimits && forall i :: 0 <= i < |conf| ==> 0 <= conf[i].metric <= NMetrics
  }

  /** The zero-initialised table. */
  function Unconfigured(): (conf: seq<Limit>)
    ensures WellConfigured(conf)
    ensures forall i :: 0 <= i < |conf| ==> conf[i].metric == 0
  {
    seq(NLimits, _ => Limit(0, 0, Warn))
  }

  /** The first unused slot at or after `from`. */
  function FreeSlot(conf: seq<Limit>, from: nat): (r: Option<nat>)
    ensures r.Some? ==> from <= r.value < |conf| && conf[r.value].metric == 0
    ensures r.Some? ==> forall j :: from <= j < r.value ==> conf[j].metric != 0
    ensures r.None? <==> forall j :: from <= j < |conf| ==> conf[j].metric != 0
    decreases |conf| - from
  {
    if from >= |conf| then None
    else if conf[from].metric == 0 then Some(from)
    else FreeSlot(conf, from + 1)
  }

  /** The metric a name selects: the last of the three names it equals ignoring case, or 0. */
  function MetricIndex(name: string): (m: nat)
    ensures m <= NMetrics
    ensures m == 0 <==> forall i :: 1 <= i <= NMetrics ==> !CaseEqual(MetricName(i), name)
    ensures m != 0 ==> CaseEqual(MetricName(m), name)
    ensures forall i :: m < i <= NMetrics ==> !CaseEqual(MetricName(i), name)
  {
    if CaseEqual(MetricName(3), name) then 3
    else if CaseEqual(MetricName(2), name) then 2
    else if CaseEqual(MetricName(1), name) then 1
    else 0
  }

  function ActionOf(tok: string): (r: Option<Action>)
    ensures r == Some(Warn) <==> CaseEqual("warn", tok)
    ensures r == Some(Error) <==> !CaseEqual("warn", tok) && CaseEqual("error", tok)
  {
    if CaseEqual("warn", tok) then Some(Warn)
    else if CaseEqual("error", tok) then Some(Error)
    else None
  }

  /** The fatal configuration errors: each but the last makes the plugin exit with a message.
      `NullResume` is `strtok(NULL, ":")` before any earlier call left a position to resume
      from, where the C library reads through a null pointer. */
  datatype ConfError = UnknownMetric(name: string) | MalformedSpec | UnknownAction(action: string) | NullResume

  /** `parse_arg`: the spec fills the first unused slot; when every slot is in use it is
      ignored without being looked at. `saved` is the position `strtok` keeps between calls
      (None while no call has set one): an argument without a value hands `strtok` a null
      string, so its action and threshold are read from where the previous spec's tokens
      stopped. The result carries the position left for the next argument. */
  function ParseArg(conf: seq<Limit>, name: string, spec: Option<string>, saved: Option<string>)
    : (r: Result<(seq<Limit>, Option<string>), ConfError>)
    requires WellConfigured(conf)
    ensures r.Ok? ==> WellConfigured(r.value.0)
    ensures FreeSlot(conf, 0).None? ==> r == Ok((conf, saved))
    ensures FreeSlot(conf, 0).Some? && MetricIndex(name) == 0 ==> r == Err(UnknownMetric(name))
    ensures FreeSlot(conf, 0).Some? && MetricIndex(name) != 0 && spec.None? && saved.None? ==> r == Err(NullResume)
    ensures r.Ok? && FreeSlot(conf, 0).Some? ==>
      var k := FreeSlot(conf, 0).value;
      r.value.0[k].metric != 0 && CaseEqual(MetricName(r.value.0[k].metric), name)
      && r.value.1.Some?
      && forall j :: 0 <= j < |conf| && j != k ==> r.value.0[j] == conf[j]
  {
    match FreeSlot(conf, 0)
    case None => Ok((conf, saved))
    case Some(k) =>
      var m := MetricIndex(name);
      var text := if spec.Some? then spec else saved;
      if m == 0 then Err(UnknownMetric(name))
      else if text.None? then Err(NullResume)
      else
        match StrTok(text.value)
        case None => Err(MalformedSpec)
        case Some((a, rest)) =>
          match ActionOf(a)
          case None => Err(UnknownAction(a))
          case Some(act) =>
            match StrTok(rest)
            case None => Err(MalformedSpec)
            case Some((t, after)) => Ok((conf[k := Limit(m, Atoi(t), act)], Some(after)))
  }

  /** Text `action:threshold`, with any letter case in the action and followed by nothing or
      by more colon-separated text, configures exactly that limit in the first unused slot,
      whether it is the argument's value or, for an argument without one, the text left over
      by the previous spec. What follows the threshold's colon is left for the next call. */
  lemma ParseArgReadsSpec(conf: seq<Limit>, name: string, spec: Option<string>, saved: Option<string>,
                          action: string, threshold: int, tail: string)
    requires WellConfigured(conf) && FreeSlot(conf, 0).Some?
    requires MetricIndex(name) != 0
    requires CaseEqual("warn", action) || CaseEqual("error", action)
    requires |tail| > 0 ==> tail[0] == ':'
    requires (if spec.Some? then spec else saved) == Some(action + ":" + IntToString(threshold) + tail)
    ensures ParseArg(conf, name, spec, saved)
      == Ok((conf[FreeSlot(conf, 0).value := Limit(MetricIndex(name), AtoiOf(threshold), ActionOf(action).value)],
             Some(if |tail| == 0 then "" else tail[1..])))
  {
    var t := IntToString(threshold);
    ActionHasNoColon(action);
    SpecTokens(action, t, tail);
    AtoiOfIntToString(threshold, "");
    assert t + "" == t;
  }

  lemma ActionHasNoColon(action: string)
    requires CaseEqual("warn", action) || CaseEqual("error", action)
    ensures |action| > 0 && ':' !in action
  {
    forall i | 0 <= i < |action| ensures action[i] != ':' {
      if CaseEqual("warn", action) {
        assert Lower(action[i]) == Lower("warn"[i]);
      } else {
        assert Lower(action[i]) == Lower("error"[i]);
      }
    }
  }

  /** The two `strtok` calls on `action:threshold` give the action, then the threshold,
      leaving what follows the threshold's colon. */
  lemma SpecTokens(action: string, t: string, tail: string)
    requires |action| > 0 && ':' !in action
    requires |t| > 0 && ':' !in t
    requires |tail| > 0 ==> tail[0] == ':'
    ensures StrTok(action + ":" + t + tail) == Some((action, t + tail))
    ensures StrTok(t + tail) == Some((t, if |tail| == 0 then "" else tail[1..]))
  {
    ActionToken(action, t + tail);
    assert action + ":" + t + tail == action + ":" + (t + tail);
    StrTokSplits(0, t, tail);
    assert seq(0, _ => ':') + t + tail == t + tail;
  }

  lemma ActionToken(action: string, rest: string)
    requires |action| > 0 && ':' !in action
    ensures StrTok(action + ":" + rest) == Some((action, rest))
  {
    StrTokSplits(0, action, ":" + rest);
    assert seq(0, _ => ':') + action + (":" + rest) == action + ":" + rest;
    assert (":" + rest)[1..] == rest;
  }

  /** Every argument in order, `strtok`'s position carried from one to the next; the first
      fatal error ends the parse. */
  function ParseAll(conf: seq<Limit>, saved: Option<string>, args: seq<(string, Option<string>)>)
    : (r: Result<seq<Limit>, ConfError>)
    requires WellConfigured(conf)
    ensures r.Ok? ==> WellConfigured(r.value)
    decreases |args|
  {
    if |args| == 0 then Ok(conf)
    else
      var next :- ParseArg(conf, args[0].0, args[0].1, saved);
      ParseAll(next.0, next.1, args[1..])
  }

  /** `plugin_init`: with no arguments, the single default `cyclomatic=warn:20`. */
  function Configure(args: seq<(string, Option<string>)>): Result<seq<Limit>, ConfError> {
    if |args| == 0 then
      var next :- ParseArg(Unconfigured(), "cyclomatic", Some("warn:20"), None);
      Ok(next.0)
    else ParseAll(Unconfigured(), None, args)
  }

  /** The default configuration: one cyclomatic limit of 20 that warns, every other slot unused. */
  lemma DefaultConfiguration()
    ensures Configure([]) == Ok(Unconfigured()[0 := Limit(1, 20, Warn)])
  {
    var c := Unconfigured();
    assert FreeSlot(c, 0) == Some(0);
    assert CaseEqual(MetricName(1), "cyclomatic");
    assert !CaseEqual(MetricName(2), "cyclomatic") && !CaseEqual(MetricName(3), "cyclomatic");
    assert CaseEqual("warn", "warn");
    assert IntToString(20) == "20" by {
      assert NatToString(20) == NatToString(2) + [DigitChar(0)];
    }
    assert "warn:20" == "warn" + ":" + IntToString(20) + "";
    ParseArgReadsSpec(c, "cyclomatic", Some("warn:20"), None, "warn", 20, "");
  }

  /** Before any spec has been tokenised there is nothing to resume from: when the first
      argument names a metric but has no value, the plugin reads through a null pointer. */
  lemma FirstValuelessArgumentCrashes(name: string, rest: seq<(string, Option<string>)>)
    requires MetricIndex(name) != 0
    ensures Configure([(name, None)] + rest) == Err(NullResume)
  {
    var c := Unconfigured();
    assert FreeSlot(c, 0) == Some(0);
    assert ([(name, None)] + rest)[0] == (name, None);
  }

  /** An argument without a value, after a spec with text beyond its threshold, takes its
      action and threshold from that leftover text: `cyclomatic=warn:20:error:30` followed by
      a bare `design` configures the design limit as an error above 30. */
  lemma ValuelessArgumentReadsLeftover(conf: seq<Limit>, first: string, second: string,
                                       a1: string, act1: Action, t1: int, a2: string, act2: Action, t2: int)
    requires WellConfigured(conf) && Used(conf) + 2 <= NLimits
    requires MetricIndex(first) != 0 && MetricIndex(second) != 0
    requires ActionOf(a1) == Some(act1) && ActionOf(a2) == Some(act2)
    ensures FreeSlot(conf, 0).Some?
    ensures var c1 := conf[FreeSlot(conf, 0).value := Limit(MetricIndex(first), AtoiOf(t1), act1)];
      var left := a2 + ":" + IntToString(t2);
      FreeSlot(c1, 0).Some?
      && ParseAll(conf, None, [(first, Some(a1 + ":" + IntToString(t1) + ":" + left)), (second, None)])
         == Ok(c1[FreeSlot(c1, 0).value := Limit(MetricIndex(second), AtoiOf(t2), act2)])
  {
    var left := a2 + ":" + IntToString(t2);
    var spec := a1 + ":" + IntToString(t1) + ":" + left;
    var c1 := FillFirst(conf, Limit(MetricIndex(first), AtoiOf(t1), act1));
    var c2 := c1[FreeSlot(c1, 0).value := Limit(MetricIndex(second), AtoiOf(t2), act2)];
    assert left != "";
    SpecLeavesRest(conf, first, a1, act1, t1, left);
    SpecLeavesRest(c1, second, a2, act2, t2, "");
    ParseTwo(conf, None, (first, Some(spec)), (second, None), c1, Some(left), c2);
  }

  /** One spec `action:threshold:rest`, read from the argument or from the leftover text,
      leaves `rest` for the next call. */
  lemma SpecLeavesRest(conf: seq<Limit>, name: string, a: string, act: Action, t: int, rest: string)
    requires WellConfigured(conf) && FreeSlot(conf, 0).Some? && MetricIndex(name) != 0
    requires ActionOf(a) == Some(act)
    ensures var c := conf[FreeSlot(conf, 0).value := Limit(MetricIndex(name), AtoiOf(t), act)];
      var text := if rest == "" then a + ":" + IntToString(t) else a + ":" + IntToString(t) + ":" + rest;
      ParseArg(conf, name, Some(text), None) == Ok((c, Some(rest)))
      && ParseArg(conf, name, None, Some(text)) == Ok((c, Some(rest)))
  {
    var head := a + ":" + IntToString(t);
    var tail := if rest == "" then "" else ":" + rest;
    assert |tail| > 0 ==> tail[1..] == rest;
    assert rest == "" ==> head + tail == head;
    assert rest != "" ==> head + ":" + rest == head + tail;
    ParseArgReadsSpec(conf, name, Some(head + tail), None, a, t, tail);
    ParseArgReadsSpec(conf, name, None, Some(head + tail), a, t, tail);
  }

  /** Filling the first unused slot of a table with two unused slots leaves one unused. */
  lemma FillFirst(conf: seq<Limit>, l: Limit) returns (c1: seq<Limit>)
    requires WellConfigured(conf) && Used(conf) + 2 <= NLimits
    requires 1 <= l.metric <= NMetrics
    ensures FreeSlot(conf, 0).Some? && c1 == conf[FreeSlot(conf, 0).value := l]
    ensures WellConfigured(c1) && FreeSlot(c1, 0).Some?
  {
    FreeWhileUnused(conf);
    var k := FreeSlot(conf, 0).value;
    c1 := conf[k := l];
    UsedUpdate(conf, k, l);
    FreeWhileUnused(c1);
  }

  /** Two arguments parse as their two `parse_arg` calls in turn. */
  lemma ParseTwo(conf: seq<Limit>, saved: Option<string>, x: (string, Option<string>), y: (string, Option<string>),
                 c1: seq<Limit>, s1: Option<string>, c2: seq<Limit>)
    requires WellConfigured(conf) && WellConfigured(c1)
    requires ParseArg(conf, x.0, x.1, saved) == Ok((c1, s1))
    requires ParseArg(c1, y.0, y.1, s1).Ok? && ParseArg(c1, y.0, y.1, s1).value.0 == c2
    ensures ParseAll(conf, saved, [x, y]) == Ok(c2)
  {
    var args := [x, y];
    assert args[0] == x && args[1..] == [y];
    assert [y][0] == y && [y][1..] == [];
    var s2 := ParseArg(c1, y.0, y.1, s1).value.1;
    assert ParseAll(c2, s2, []) == Ok(c2);
    assert ParseAll(c1, s1, [y]) == Ok(c2);
  }

  /** A table with an unused slot has a first one. */
  lemma FreeWhileUnused(conf: seq<Limit>)
    requires Used(conf) < |conf|
    ensures FreeSlot(conf, 0).Some?
  {
    if FreeSlot(conf, 0).None? {
      UsedAll(conf);
    }
  }

  function Used(conf: seq<Limit>): (n: nat)
    ensures n <= |conf|
    decreases |conf|
  {
    if |conf| == 0 then 0 else (if conf[0].metric != 0 then 1 else 0) + Used(conf[1..])
  }

  lemma {:induction false} UsedUpdate(conf: seq<Limit>, k: nat, l: Limit)
    requires k < |conf| && conf[k].metric == 0 && l.metric != 0
    ensures Used(conf[k := l]) == Used(conf) + 1
    decreases |conf|
  {
    if k > 0 {
      assert conf[k := l][1..] == conf[1..][k - 1 := l];
      UsedUpdate(conf[1..], k - 1, l);
    }
  }

  lemma {:induction false} AllUsed(conf: seq<Limit>)
    requires Used(conf) == |conf|
    ensures forall j :: 0 <= j < |conf| ==> conf[j].metric != 0
    decreases |conf|
  {
    if |conf| > 0 {
      AllUsed(conf[1..]);
      forall j | 0 < j < |conf| ensures conf[j].metric != 0 {
        assert conf[j] == conf[1..][j - 1];
      }
    }
  }

  /** Each accepted spec uses up one more slot until all are used. */
  lemma ParseArgUses(conf: seq<Limit>, name: string, spec: Option<string>, saved: Option<string>)
    requires WellConfigured(conf) && ParseArg(conf, name, spec, saved).Ok?
    ensures Used(ParseArg(conf, name, spec, saved).value.0) == if Used(conf) < NLimits then Used(conf) + 1 else Used(conf)
  {
    if FreeSlot(conf, 0).Some? {
      var k := FreeSlot(conf, 0).value;
      var r := ParseArg(conf, name, spec, saved).value.0;
      assert r == conf[k := r[k]];
      UsedUpdate(conf, k, r[k]);
    } else {
      assert forall j :: 0 <= j < |conf| ==> conf[j].metric != 0;
      UsedAll(conf);
    }
  }

  lemma {:induction false} UsedAll(conf: seq<Limit>)
    requires forall j :: 0 <= j < |conf| ==> conf[j].metric != 0
    ensures Used(conf) == |conf|
    decreases |conf|
  {
    if |conf| > 0 {
      UsedAll(conf[1..]);
    }
  }

  /** Only six limits exist: specs after the sixth accepted one are ignored, whatever they say. */
  lemma {:induction false} ExcessSpecsIgnored(conf: seq<Limit>, saved: Option<string>, args: seq<(string, Option<string>)>)
    requires WellConfigured(conf) && Used(conf) == NLimits
    ensures ParseAll(conf, saved, args) == Ok(conf)
    decreases |args|
  {
    AllUsed(conf);
    if |args| > 0 {
      ExcessSpecsIgnored(conf, saved, args[1..]);
    }
  }

  /** After any run of accepted specs, the slots in use are the specs accepted, up to six. */
  lemma {:induction false} ParseAllUses(conf: seq<Limit>, saved: Option<string>, args: seq<(string, Option<string>)>)
    requires WellConfigured(conf) && ParseAll(conf, saved, args).Ok?
    ensures Used(ParseAll(conf, saved, args).value) == if Used(conf) + |args| <= NLimits then Used(conf) + |args| else NLimits
    decreases |args|
  {
    if |args| > 0 {
      var next := ParseArg(conf, args[0].0, args[0].1, saved).value;
      ParseArgUses(conf, args[0].0, args[0].1, saved);
      ParseAllUses(next.0, next.1, args[1..]);
    }
  }

  // ---------------------------------------------------------------- counting and checking

  /** The range of C's `unsigned int`. */
  const UintRange: int := 0x1_0000_0000

  /** Conversion to `unsigned int`. */
  function Unsigned(x: int): (u: nat)
    ensures u < UintRange
    ensures 0 <= x < UintRange ==> u == x
    ensures -UintRange <= x < 0 ==> u == x + UintRange
  {
    x % UintRange
  }

  /** The sum of the successor counts, the reference the edge counter is checked against. */
  function Sum(s: seq<nat>): nat
    decreases |s|
  {
    if |s| == 0 then 0 else Sum(s[..|s| - 1]) + s[|s| - 1]
  }

  lemma UnsignedStep(x: int)
    ensures Unsigned(Unsigned(x) + 1) == Unsigned(x + 1)
  {
  }

  /** `wc_process_function`: one increment of `blocks` per block and of `edges` per successor
      edge, in `unsigned int`. */
  method Count(succs: seq<nat>) returns (edges: nat, blocks: nat)
    ensures blocks == Unsigned(|succs|) && edges == Unsigned(Sum(succs))
  {
    edges, blocks := 0, 0;
    var i := 0;
    while i < |succs|
      invariant i <= |succs|
      invariant blocks == Unsigned(i) && edges == Unsigned(Sum(succs[..i]))
    {
      UnsignedStep(i);
      blocks := Unsigned(blocks + 1);
      var e := 0;
      while e < succs[i]
        invariant e <= succs[i]
        invariant edges == Unsigned(Sum(succs[..i]) + e)
      {
        UnsignedStep(Sum(succs[..i]) + e);
        edges := Unsigned(edges + 1);
        e := e + 1;
      }
      assert succs[..i + 1][..i] == succs[..i];
      i := i + 1;
    }
    assert succs[..|succs|] == succs;
  }

  /** The cyclomatic complexity as computed: `edges - blocks + 2` in `unsigned int`, which
      wraps round when there are more than two blocks more than edges. */
  function CyclomaticValue(edges: nat, blocks: nat): (c: nat)
    requires edges < UintRange && blocks < UintRange
    ensures c < UintRange
    ensures blocks <= edges + 2 && edges + 2 - blocks < UintRange ==> c == edges + 2 - blocks
    ensures blocks > edges + 2 ==> c == UintRange + edges + 2 - blocks
  {
    Unsigned(edges - blocks + 2)
  }

  /** What one limit reports: its action, metric, the value and the threshold (as unsigned). */
  datatype Report = Report(action: Action, metric: string, value: nat, threshold: nat)

  /** Whether a cyclomatic limit is reached: the `int` threshold compares as unsigned. */
  predicate Fires(l: Limit, value: nat) {
    value >= Unsigned(l.threshold)
  }

  function ReportFor(l: Limit, value: nat): Report {
    Report(l.action, MetricName(1), value, Unsigned(l.threshold))
  }

  /** The reports of the slots of `conf` in order: one warning or error for each cyclomatic
      limit that is reached, nothing for any other slot. */
  function FiringReports(conf: seq<Limit>, value: nat): seq<Report>
    decreases |conf|
  {
    if |conf| == 0 then []
    else
      var last := conf[|conf| - 1];
      FiringReports(conf[..|conf| - 1], value)
        + (if last.metric == 1 && Fires(last, value) then [ReportFor(last, value)] else [])
  }

  /** A report is among the slots' reports exactly when some cyclomatic slot is reached and
      reports it. */
  lemma {:induction false} FiringReportsMembers(conf: seq<Limit>, value: nat, r: Report)
    ensures r in FiringReports(conf, value) <==>
      exists i :: 0 <= i < |conf| && conf[i].metric == 1 && Fires(conf[i], value) && r == ReportFor(conf[i], value)
    decreases |conf|
  {
    if |conf| > 0 {
      var init := conf[..|conf| - 1];
      FiringReportsMembers(init, value, r);
      if r in FiringReports(init, value) {
        var i :| 0 <= i < |init| && init[i].metric == 1 && Fires(init[i], value) && r == ReportFor(init[i], value);
        assert conf[i] == init[i];
      }
      if exists i :: 0 <= i < |conf| && conf[i].metric == 1 && Fires(conf[i], value) && r == ReportFor(conf[i], value) {
        var i :| 0 <= i < |conf| && conf[i].metric == 1 && Fires(conf[i], value) && r == ReportFor(conf[i], value);
        if i < |init| {
          assert init[i] == conf[i];
        }
      }
    }
  }

  /** One report per reached cyclomatic slot: no more reports than slots. */
  lemma {:induction false} FiringReportsBound(conf: seq<Limit>, value: nat)
    ensures |FiringReports(conf, value)| <= |conf|
    decreases |conf|
  {
    if |conf| > 0 {
      FiringReportsBound(conf[..|conf| - 1], value);
    }
  }

  /** Slot `k` is the first design or jbp-cyclomatic limit, the one that aborts. */
  predicate AbortsAt(conf: seq<Limit>, k: int) {
    0 <= k < |conf| && conf[k].metric in {2, 3} && forall j :: 0 <= j < k ==> conf[j].metric !in {2, 3}
  }

  /** `wc_check_complexity`: every slot in order; unused slots are skipped, a cyclomatic limit
      reports when reached, and a design or jbp-cyclomatic limit aborts the compiler after the
      reports of the slots before it. */
  method CheckComplexity(conf: seq<Limit>, edges: nat, blocks: nat) returns (reports: seq<Report>, aborted: bool)
    requires WellConfigured(conf)
    requires edges < UintRange && blocks < UintRange
    ensures aborted <==> exists i :: 0 <= i < |conf| && conf[i].metric in {2, 3}
    ensures forall r :: r in reports ==>
      r.value == CyclomaticValue(edges, blocks) && r.value >= r.threshold && r.metric == "cyclomatic"
    ensures !aborted ==> forall i :: 0 <= i < |conf| && conf[i].metric == 1 ==>
      (ReportFor(conf[i], CyclomaticValue(edges, blocks)) in reports <==> Fires(conf[i], CyclomaticValue(edges, blocks)))
    ensures |reports| <= |conf|
    ensures !aborted ==> reports == FiringReports(conf, CyclomaticValue(edges, blocks))
    ensures aborted ==> exists k :: AbortsAt(conf, k) && reports == FiringReports(conf[..k], CyclomaticValue(edges, blocks))
  {
    var value := CyclomaticValue(edges, blocks);
    reports, aborted := [], false;
    var i := 0;
    while i < |conf|
      invariant i <= |conf|
      invariant reports == FiringReports(conf[..i], value)
      invariant forall j :: 0 <= j < i ==> conf[j].metric !in {2, 3}
      invariant forall r :: r in reports ==> r.value == value && r.value >= r.threshold && r.metric == "cyclomatic"
      invariant forall j :: 0 <= j < i && conf[j].metric == 1 ==>
        (ReportFor(conf[j], value) in reports <==> Fires(conf[j], value))
      invariant |reports| <= i
    {
      var m := conf[i].metric;
      if m == 2 || m == 3 {
        return reports, true;
      }
      if m == 1 && Fires(conf[i], value) {
        reports := reports + [ReportFor(conf[i], value)];
      }
      assert conf[..i + 1][..i] == conf[..i];
      i := i + 1;
    }
    assert conf[..|conf|] == conf;
  }

  /** A negative threshold compares as a huge unsigned one, so the limit never fires for a
      realistic count. */
  lemma NegativeThresholdNeverFires(value: nat)
    requires value < UintRange - 1
    ensures !Fires(Limit(1, -1, Warn), value)
  {
  }
}
