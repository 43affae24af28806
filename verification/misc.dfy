/** Source locations (`file:line[:column]`), the five-line highlight window printed under a
    diagnostic, Python 2's `repr` of a byte string, and the values that the backend's `to_c`
    methods return. */
module Misc {
  import opened Wrappers
  import opened Text
  import opened Decimals

  // ---------------------------------------------------------------- rendered values

  /** The Python exceptions the modelled code can raise, other than the analysers' own
      `StopAnalysis`. `InvalidOperation` is `decimal`'s signal for text that is not a number;
      `RecursionError` stands for a rendering that would never finish. */
  datatype Fault =
    | AssertionError
    | TypeError
    | KeyError
    | IndexError
    | ValueError
    | AttributeError
    | InvalidOperation
    | RecursionError

  /** What a `to_c` method hands back. Most return `str`, but an integer constant returns its
      `long` value, a float constant its `Decimal` and an unnamed float type `None`; those travel on unchanged until
      something formats them (`'%s' % v` works) or concatenates them (`'&' + v` raises TypeError). */
  datatype Rendered =
    | Text(s: string)
    | Num(n: int)
    | Dec(d: Decimal)
    | NoneValue

  /** Python's `'%s' % v`: a number writes in decimal, and a `Decimal` writes as `str(d)`,
      which reads back as the same value. */
  function Format(v: Rendered): (s: string)
    ensures v.Text? ==> s == v.s
    ensures v.Num? ==> ParseInt(s) == Some(v.n)
    ensures v.Dec? && Canonical(v.d) ==> ParseDecimal(s) == Some(v.d)
  {
    match v
    case Text(t) => t
    case Num(n) => ParseIntOfIntToString(n); IntToString(n)
    case Dec(d) => if Canonical(d) then StrReadsBack(d); DecimalStr(d) else DecimalStr(d)
    case NoneValue => "None"
  }

  /** Python truth value: the empty string, `0L`, a `Decimal` zero of any sign or exponent
      and `None` are false. */
  predicate Truthy(v: Rendered) {
    match v
    case Text(t) => |t| > 0
    case Num(n) => n != 0
    case Dec(d) => Nonzero(d)
    case NoneValue => false
  }

  /** `prefix + v`, which raises TypeError unless `v` is a string. */
  function Concat(prefix: string, v: Rendered): (r: Option<string>)
    ensures r.Some? <==> v.Text?
    ensures r.Some? ==> r.value == prefix + v.s
  {
    if v.Text? then Some(prefix + v.s) else None
  }

  /** `sep.join(vs)`, which raises TypeError as soon as one element is not a string. */
  function JoinRendered(vs: seq<Rendered>, sep: string): (r: Option<string>)
    ensures r.Some? <==> forall i :: 0 <= i < |vs| ==> vs[i].Text?
    decreases |vs|
  {
    if |vs| == 0 then Some("")
    else if !vs[0].Text? then None
    else if |vs| == 1 then Some(vs[0].s)
    else
      var rest :- JoinRendered(vs[1..], sep);
      Some(vs[0].s + sep + rest)
  }

  function Texts(vs: seq<Rendered>): (ss: seq<string>)
    requires forall i :: 0 <= i < |vs| ==> vs[i].Text?
    ensures |ss| == |vs|
  {
    seq(|vs|, i requires 0 <= i < |vs| => vs[i].s)
  }

  /** When every element is a string, `JoinRendered` is ordinary joining. */
  lemma {:induction false} JoinRenderedIsJoin(vs: seq<Rendered>, sep: string)
    requires forall i :: 0 <= i < |vs| ==> vs[i].Text?
    ensures JoinRendered(vs, sep) == Some(Join(Texts(vs), sep))
    decreases |vs|
  {
    if |vs| > 1 {
      JoinRenderedIsJoin(vs[1..], sep);
      assert Texts(vs)[1..] == Texts(vs[1..]);
    }
  }

  // ---------------------------------------------------------------- Python 2 repr

  /** The quote `repr` chooses: double quotes only when the text holds a `'` and no `"`. */
  function ReprQuote(bs: seq<byte>): (q: byte)
    ensures q == 0x27 || q == 0x22
  {
    if 0x27 in bs && 0x22 !in bs then 0x22 else 0x27
  }

  function EscapeReprByte(b: byte, quote: byte): (s: string)
    ensures |s| >= 1
  {
    if b == quote || b == 0x5c then ['\\', b as char]
    else if b == 0x09 then "\\t"
    else if b == 0x0a then "\\n"
    else if b == 0x0d then "\\r"
    else if b < 0x20 || b >= 0x7f then "\\x" + Hex2(b)
    else [b as char]
  }

  function EscapeRepr(bs: seq<byte>, quote: byte): (s: string)
    ensures |s| >= |bs|
    decreases |bs|
  {
    if |bs| == 0 then "" else EscapeReprByte(bs[0], quote) + EscapeRepr(bs[1..], quote)
  }

  /** `repr(s)` of a Python 2 byte string. */
  function PyRepr(bs: seq<byte>): (s: string)
    ensures |s| >= 2 && s[0] == s[|s| - 1] && (s[0] == '\'' || s[0] == '"')
  {
    var q := ReprQuote(bs);
    [q as char] + EscapeRepr(bs, q) + [q as char]
  }

  /** The Python values that `misc.to_c` meets: objects with a `to_c` method, strings, and
      anything else (which is turned into text with `str`). */
  datatype PyValue =
    | WithToC(rendered: Rendered)
    | Str(bytes: seq<byte>)
    | Int(i: int)

  /** `misc.to_c`: the object's own `to_c`, else `repr` for strings, else `str`. */
  function ToC(v: PyValue): (r: Rendered)
    ensures v.WithToC? ==> r == v.rendered
    ensures v.Str? ==> r.Text? && |r.s| >= 2 + |v.bytes| && (r.s[0] == '\'' || r.s[0] == '"')
    ensures v.Int? ==> r.Text? && ParseInt(r.s) == Some(v.i)
  {
    match v
    case WithToC(x) => x
    case Str(bs) => Text(PyRepr(bs))
    case Int(i) => ParseIntOfIntToString(i); Text(IntToString(i))
  }

  // ---------------------------------------------------------------- locations

  datatype Location = Location(file: string, line: int, column: int)

  /** `Location.set`: split on `:` into two or three fields; the line (and column, when
      present) must be integers, the column defaults to 0; anything else raises ValueError. */
  function ParseLocation(s: string): (r: Option<Location>)
    ensures r.Some? ==> |Split(s, ':')| in {2, 3}
    ensures r.Some? ==> r.value.file == Split(s, ':')[0] && ':' !in r.value.file
    ensures r.Some? && |Split(s, ':')| == 2 ==> r.value.column == 0
  {
    var bits := Split(s, ':');
    if |bits| != 2 && |bits| != 3 then None
    else
      var line :- ParseInt(bits[1]);
      var column :- if |bits| == 3 then ParseInt(bits[2]) else Some(0);
      Some(Location(bits[0], line, column))
  }

  /** `str(location)`: the column is shown only when it is non-zero. */
  function LocationToString(loc: Location): (s: string)
    ensures IsPrefix(loc.file + ":", s)
  {
    if loc.column != 0 then loc.file + ":" + IntToString(loc.line) + ":" + IntToString(loc.column)
    else loc.file + ":" + IntToString(loc.line)
  }

  /** A location whose file name has no `:` survives printing and parsing again. */
  lemma LocationRoundTrip(loc: Location)
    requires ':' !in loc.file
    ensures ParseLocation(LocationToString(loc)) == Some(loc)
  {
    ParseIntOfIntToString(loc.line);
    ParseIntOfIntToString(loc.column);
    var s := LocationToString(loc);
    if loc.column != 0 {
      var parts := [loc.file, IntToString(loc.line), IntToString(loc.column)];
      assert parts[1..][1..] == [IntToString(loc.column)];
      assert Join(parts[1..], [':']) == IntToString(loc.line) + ":" + IntToString(loc.column);
      assert s == Join(parts, [':']);
      SplitOfJoin(parts, ':');
    } else {
      var parts := [loc.file, IntToString(loc.line)];
      assert parts[1..] == [IntToString(loc.line)];
      assert s == Join(parts, [':']);
      SplitOfJoin(parts, ':');
    }
  }

  /** The canonical spellings `f:l` and `f:l:c` (c non-zero) are printed back unchanged. */
  lemma CanonicalLocationString(f: string, line: int, column: int)
    requires ':' !in f
    ensures column != 0 ==>
      var s := f + ":" + IntToString(line) + ":" + IntToString(column);
      ParseLocation(s).Some? && LocationToString(ParseLocation(s).value) == s
    ensures
      var s := f + ":" + IntToString(line);
      ParseLocation(s) == Some(Location(f, line, 0)) && LocationToString(ParseLocation(s).value) == s
  {
    LocationRoundTrip(Location(f, line, column));
    LocationRoundTrip(Location(f, line, 0));
  }

  /** A string with no `:` or more than two is never a location. */
  lemma BadFieldCountRejected(s: string)
    requires |Split(s, ':')| != 2 && |Split(s, ':')| != 3
    ensures ParseLocation(s) == None
  {
  }

  // ---------------------------------------------------------------- lines of source

  /** Where `splitlines` ends a line of the source text. The parser hands back a `unicode`
      string whenever the text holds a character above 127, and `unicode.splitlines` also
      breaks at NEL (U+0085), which a 0x85 byte in the source reads back as. Its other
      breaks (U+000B, U+000C, U+001C to U+001E, U+2028, U+2029) never reach the text: XML 1.0
      refuses the first five and no byte reference names the last two. */
  predicate IsLineBreak(c: char) {
    c == '\n' || c == '\r' || c == '\U{0085}'
  }

  predicate NoLineBreak(s: string) {
    forall i :: 0 <= i < |s| ==> !IsLineBreak(s[i])
  }

  /** Index of the first line break, or the length when there is none. */
  function LineEnd(s: string): (k: nat)
    ensures k <= |s|
    ensures NoLineBreak(s[..k])
    ensures k < |s| ==> IsLineBreak(s[k])
    decreases |s|
  {
    if |s| == 0 || IsLineBreak(s[0]) then 0
    else
      var k := LineEnd(s[1..]);
      assert s[..k + 1] == [s[0]] + s[1..][..k];
      k + 1
  }

  /** Python 2 `splitlines()` on the source text: breaks at `\n`, `\r`, NEL and `\r\n`; a
      final break does not start an empty last line. */
  function SplitLines(s: string): (lines: seq<string>)
    ensures forall i :: 0 <= i < |lines| ==> NoLineBreak(lines[i])
    ensures |s| > 0 ==> |lines| > 0
    decreases |s|
  {
    if |s| == 0 then []
    else
      var k := LineEnd(s);
      if k == |s| then [s]
      else
        var width := if s[k] == '\r' && k + 1 < |s| && s[k + 1] == '\n' then 2 else 1;
        [s[..k]] + SplitLines(s[k + width..])
  }

  /** Each line followed by a newline. */
  function Unlines(lines: seq<string>): (s: string)
    decreases |lines|
  {
    if |lines| == 0 then "" else lines[0] + "\n" + Unlines(lines[1..])
  }

  lemma LineEndOf(a: string, rest: string)
    requires NoLineBreak(a)
    ensures LineEnd(a + "\n" + rest) == |a|
    decreases |a|
  {
    if |a| > 0 {
      assert (a + "\n" + rest)[1..] == a[1..] + "\n" + rest;
      LineEndOf(a[1..], rest);
    }
  }

  /** Splitting newline-terminated lines gives the lines back. */
  lemma {:induction false} SplitLinesOfUnlines(lines: seq<string>)
    requires forall i :: 0 <= i < |lines| ==> NoLineBreak(lines[i])
    ensures SplitLines(Unlines(lines)) == lines
    decreases |lines|
  {
    if |lines| > 0 {
      var a := lines[0];
      var rest := Unlines(lines[1..]);
      var s := a + "\n" + rest;
      assert Unlines(lines) == s;
      LineEndOf(a, rest);
      assert s[|a|] == '\n';
      assert s[..|a|] == a;
      assert s[|a| + 1..] == rest;
      SplitLinesOfUnlines(lines[1..]);
      assert lines == [a] + lines[1..];
    }
  }

  lemma {:induction false} LineEndAt(a: string, c: char, rest: string)
    requires NoLineBreak(a) && IsLineBreak(c)
    ensures LineEnd(a + [c] + rest) == |a|
    decreases |a|
  {
    if |a| > 0 {
      assert (a + [c] + rest)[0] == a[0];
      assert (a + [c] + rest)[1..] == a[1..] + [c] + rest;
      LineEndAt(a[1..], c, rest);
    } else {
      assert (a + [c] + rest)[0] == c;
    }
  }

  /** A line feed or a NEL ends the line before it, and the rest is split on its own. */
  lemma SplitAtBreak(a: string, c: char, b: string)
    requires NoLineBreak(a) && (c == '\n' || c == '\U{0085}')
    ensures SplitLines(a + [c] + b) == [a] + SplitLines(b)
  {
    var s := a + [c] + b;
    LineEndAt(a, c, b);
    assert s[|a|] == c;
    assert s[..|a|] == a;
    assert s[|a| + 1..] == b;
  }

  // ---------------------------------------------------------------- the highlight window

  /** First 0-based line shown: five lines of context above the target, clipped at 0. */
  function WindowStart(line: int): (x: int)
    ensures x >= 0 && x >= line - 6
    ensures x == 0 || x == line - 6
  {
    if line - 1 - 5 < 0 then 0 else line - 1 - 5
  }

  /** One past the last 0-based line shown: five lines of context below the target. */
  function WindowEnd(line: int): int {
    line + 5
  }

  /** One row of the highlight window: a numbered source line (the target marked `>>>`, its
      context `***`), or the caret row under the target. */
  datatype Row =
    | Numbered(target: bool, index: int, text: string)
    | Caret(column: int, caption: string)

  /** `'>>> %-4d ' % (l + 1) + text`, `'*** %-4d ' % (l + 1) + text`, or the caret row of
      `9 + column - 1` blanks followed by `^----- ` and the caption. */
  function RenderRow(row: Row): string {
    match row
    case Numbered(target, l, text) =>
      (if target then ">>> " else "*** ") + LeftJustify(IntToString(l + 1), 4) + " " + text
    case Caret(column, caption) =>
      Spaces(9) + Spaces(column - 1) + "^----- " + caption
  }

  function RenderRows(rows: seq<Row>): (ss: seq<string>)
    ensures |ss| == |rows|
    ensures forall k :: 0 <= k < |rows| ==> ss[k] == RenderRow(rows[k])
  {
    seq(|rows|, k requires 0 <= k < |rows| => RenderRow(rows[k]))
  }


  /** Where the row for 0-based line `i` lands when the rows start at line `from`: one slot
      further down for the lines after a target that carries a caret row. */
  function RowIndex(loc: Location, from: int, i: int): int {
    (i - from) + (if loc.column != 0 && from <= loc.line - 1 < i then 1 else 0)
  }

  function RowCount(loc: Location, from: int): nat {
    (if from < WindowEnd(loc.line) then WindowEnd(loc.line) - from else 0)
    + (if loc.column != 0 && from <= loc.line - 1 < WindowEnd(loc.line) then 1 else 0)
  }

  /** The caret row that follows 0-based line `i`: present only after the target, and only
      when the column is non-zero. */
  function CaretAfter(loc: Location, i: int, caption: string): (rows: seq<Row>)
    ensures |rows| == if i == loc.line - 1 && loc.column != 0 then 1 else 0
  {
    if i == loc.line - 1 && loc.column != 0 then [Caret(loc.column, caption)] else []
  }

  /** The rows of `Location.highlight` for 0-based lines `from` up to the window end.
      Reading a line past the end of the source raises IndexError. */
  function HighlightRows(loc: Location, lines: seq<string>, caption: string, from: int): (r: Result<seq<Row>, Fault>)
    requires from >= 0
    ensures r.Ok? <==> (from >= WindowEnd(loc.line) || WindowEnd(loc.line) <= |lines|)
    ensures r.Ok? ==> |r.value| == RowCount(loc, from)
    ensures r.Err? ==> r.error == IndexError
    decreases WindowEnd(loc.line) - from
  {
    if from >= WindowEnd(loc.line) then Ok([])
    else if from >= |lines| then Err(IndexError)
    else
      var rest :- HighlightRows(loc, lines, caption, from + 1);
      Ok([Numbered(from == loc.line - 1, from, lines[from])] + CaretAfter(loc, from, caption) + rest)
  }

  /** Every line of the window appears in order, marked as the target exactly when it is
      line `loc.line`, and the caret row (non-zero column only) comes right after the target. */
  lemma {:induction false} HighlightRowsPlaced(loc: Location, lines: seq<string>, caption: string, from: int)
    requires from >= 0
    requires HighlightRows(loc, lines, caption, from).Ok?
    ensures var rows := HighlightRows(loc, lines, caption, from).value;
      forall i {:trigger RowIndex(loc, from, i)} :: from <= i < WindowEnd(loc.line) ==>
        0 <= RowIndex(loc, from, i) < |rows| &&
        rows[RowIndex(loc, from, i)] == Numbered(i == loc.line - 1, i, lines[i])
    ensures var rows := HighlightRows(loc, lines, caption, from).value;
      loc.column != 0 && from <= loc.line - 1 < WindowEnd(loc.line) ==>
        0 <= loc.line - from < |rows| && rows[loc.line - from] == Caret(loc.column, caption)
    decreases WindowEnd(loc.line) - from
  {
    if from < WindowEnd(loc.line) {
      var rows := HighlightRows(loc, lines, caption, from).value;
      var rest := HighlightRows(loc, lines, caption, from + 1).value;
      HighlightRowsPlaced(loc, lines, caption, from + 1);
      var shift := HighlightStep(loc, lines, caption, from);
      forall i | from <= i < WindowEnd(loc.line)
        ensures 0 <= RowIndex(loc, from, i) < |rows|
        ensures rows[RowIndex(loc, from, i)] == Numbered(i == loc.line - 1, i, lines[i])
      {
        if i > from {
          assert RowIndex(loc, from, i) == RowIndex(loc, from + 1, i) + shift;
          assert rows[RowIndex(loc, from, i)] == rest[RowIndex(loc, from + 1, i)];
        }
      }
    }
  }

  /** One step of the window: the row for line `from`, its caret row if it is the target
      with a non-zero column, then the rows from the next line on. */
  lemma HighlightStep(loc: Location, lines: seq<string>, caption: string, from: int) returns (shift: nat)
    requires 0 <= from < WindowEnd(loc.line)
    requires HighlightRows(loc, lines, caption, from).Ok?
    ensures HighlightRows(loc, lines, caption, from + 1).Ok?
    ensures var rows := HighlightRows(loc, lines, caption, from).value;
      var rest := HighlightRows(loc, lines, caption, from + 1).value;
      shift == (if from == loc.line - 1 && loc.column != 0 then 2 else 1) &&
      |rows| == shift + |rest| && rows[shift..] == rest &&
      rows[0] == Numbered(from == loc.line - 1, from, lines[from]) &&
      (shift == 2 ==> rows[1] == Caret(loc.column, caption))
  {
    var rows := HighlightRows(loc, lines, caption, from).value;
    var rest := HighlightRows(loc, lines, caption, from + 1).value;
    shift := if from == loc.line - 1 && loc.column != 0 then 2 else 1;
    assert rows == [Numbered(from == loc.line - 1, from, lines[from])] + CaretAfter(loc, from, caption) + rest;
  }

  /** Exactly one row is the target when the window reaches it, and none otherwise. */
  lemma {:induction false} OneTargetRow(loc: Location, lines: seq<string>, caption: string, from: int)
    requires 0 <= from
    requires HighlightRows(loc, lines, caption, from).Ok?
    ensures CountTargets(HighlightRows(loc, lines, caption, from).value) ==
      if from <= loc.line - 1 < WindowEnd(loc.line) then 1 else 0
    decreases WindowEnd(loc.line) - from
  {
    if from < WindowEnd(loc.line) {
      var rows := HighlightRows(loc, lines, caption, from).value;
      var rest := HighlightRows(loc, lines, caption, from + 1).value;
      OneTargetRow(loc, lines, caption, from + 1);
      var shift := if from == loc.line - 1 && loc.column != 0 then 2 else 1;
      assert rows == [Numbered(from == loc.line - 1, from, lines[from])] + CaretAfter(loc, from, caption) + rest;
      assert rows[1..] == CaretAfter(loc, from, caption) + rest;
      if shift == 2 {
        assert rows[1..][1..] == rest;
      }
    }
  }

  function CountTargets(rows: seq<Row>): (n: nat)
    ensures n <= |rows|
    decreases |rows|
  {
    if |rows| == 0 then 0
    else (if rows[0].Numbered? && rows[0].target then 1 else 0) + CountTargets(rows[1..])
  }

  /** `Location.highlight(src, caption)`: the window rows joined by newlines. */
  function Highlight(loc: Location, src: string, caption: string): (r: Result<string, Fault>)
    ensures r.Ok? <==> (WindowStart(loc.line) >= WindowEnd(loc.line) || WindowEnd(loc.line) <= |SplitLines(src)|)
    ensures r.Err? ==> r.error == IndexError
  {
    var rows :- HighlightRows(loc, SplitLines(src), caption, WindowStart(loc.line));
    Ok(Join(RenderRows(rows), "\n"))
  }

  function Pow10(k: nat): (p: nat)
    ensures p >= 1
  {
    if k == 0 then 1 else 10 * Pow10(k - 1)
  }

  lemma {:induction false} NatToStringShort(n: nat, k: nat)
    requires 1 <= k && n < Pow10(k)
    ensures |NatToString(n)| <= k
    decreases k
  {
    if n >= 10 {
      NatToStringShort(n / 10, k - 1);
    }
  }

  /** For line numbers of at most four digits the row prefix is nine characters wide, so the
      caret, indented `9 + column - 1`, sits under the column-th character of the target line. */
  lemma CaretAligned(line: int, text: string, column: int, caption: string)
    requires 1 <= line <= 9999 && 1 <= column <= |text|
    ensures
      var target := RenderRow(Numbered(true, line - 1, text));
      var caret := RenderRow(Caret(column, caption));
      9 + column - 1 < |target| && 9 + column - 1 < |caret| &&
      target[9 + column - 1] == text[column - 1] && caret[9 + column - 1] == '^'
  {
    TargetRowWidth(line, text);
    CaretRowWidth(column, caption);
  }

  /** The target row is nine characters of prefix followed by the line's text. */
  lemma TargetRowWidth(line: int, text: string)
    requires 1 <= line <= 9999
    ensures var target := RenderRow(Numbered(true, line - 1, text));
      |target| == 9 + |text| && target[9..] == text
  {
    assert Pow10(4) == 10000;
    NatToStringShort(line, 4);
    var num := LeftJustify(IntToString(line), 4);
    assert |num| == 4;
    var prefix := ">>> " + num + " ";
    assert RenderRow(Numbered(true, line - 1, text)) == prefix + text;
  }

  /** The caret row is `9 + column - 1` blanks and then the caret. */
  lemma CaretRowWidth(column: int, caption: string)
    requires column >= 1
    ensures var caret := RenderRow(Caret(column, caption));
      9 + column - 1 < |caret| && caret[9 + column - 1] == '^'
  {
    var pad := Spaces(9) + Spaces(column - 1);
    assert |pad| == 9 + column - 1;
    assert RenderRow(Caret(column, caption)) == pad + ("^----- " + caption);
  }
}
