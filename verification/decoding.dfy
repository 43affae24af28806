/** What the backend does to the text the plugin writes before the model sees it: the XML
    parser's replacement of entity and character references in character data (section 4.6
    and section 4.1 of XML 1.0), and Python 2's `string-escape` codec, which turns the escaped
    text of a string literal back into its bytes.

    These are the reference decoders the plugin's escaping is proved against. */
module Decoding {
  import opened Wrappers
  import opened Text

  // ---------------------------------------------------------------- XML character data

  /** A code point the XML 1.0 `Char` production admits. */
  predicate XmlChar(n: int) {
    n == 0x9 || n == 0xA || n == 0xD || (0x20 <= n <= 0xD7FF) || (0xE000 <= n <= 0xFFFD)
    || (0x10000 <= n <= 0x10FFFF)
  }

  /** A digit of a hexadecimal character reference, in either letter case. */
  predicate IsHexDigit(c: char) {
    HexValue(c).Some?
  }

  /** Length of the run of hexadecimal digits at the start of `s`. */
  function HexRun(s: string): (k: nat)
    ensures k <= |s|
    ensures forall i :: 0 <= i < k ==> IsHexDigit(s[i])
    ensures k < |s| ==> !IsHexDigit(s[k])
    decreases |s|
  {
    if |s| == 0 || !IsHexDigit(s[0]) then 0 else 1 + HexRun(s[1..])
  }

  /** The value of a non-empty run of hexadecimal digits, most significant first. */
  function HexNumber(h: string): (n: nat)
    requires |h| >= 1 && forall i :: 0 <= i < |h| ==> IsHexDigit(h[i])
    decreases |h|
  {
    assert IsHexDigit(h[|h| - 1]);
    if |h| == 1 then HexValue(h[0]).value
    else
      var init := h[..|h| - 1];
      assert forall i :: 0 <= i < |init| ==> init[i] == h[i];
      HexNumber(init) * 16 + HexValue(h[|h| - 1]).value
  }

  /** The character a reference at the start of `s` (which begins with `&`) stands for, and
      how many characters the reference spans: one of the five predefined entities, or a
      character reference. */
  function Reference(s: string): (r: Option<(char, nat)>)
    requires |s| > 0 && s[0] == '&'
    ensures r.Some? ==> 3 <= r.value.1 <= |s|
  {
    if IsPrefix("&amp;", s) then Some(('&', 5))
    else if IsPrefix("&lt;", s) then Some(('<', 4))
    else if IsPrefix("&gt;", s) then Some(('>', 4))
    else if IsPrefix("&quot;", s) then Some(('"', 6))
    else if IsPrefix("&apos;", s) then Some(('\'', 6))
    else if |s| >= 2 && s[1] == '#' then CharReference(s)
    else None
  }

  /** A character reference (production 66 of XML 1.0) naming an XML character: `&#xH;` with
      the number in hexadecimal, otherwise `&#N;` in decimal. */
  function CharReference(s: string): (r: Option<(char, nat)>)
    requires |s| >= 2 && s[0] == '&' && s[1] == '#'
    ensures r.Some? ==> 3 <= r.value.1 <= |s|
  {
    if |s| >= 3 && s[2] == 'x' then
      var k := HexRun(s[3..]);
      if k == 0 || 3 + k >= |s| || s[3 + k] != ';' then None
      else
        var n := HexNumber(s[3..3 + k]);
        if XmlChar(n) then Some((n as char, 4 + k)) else None
    else
      var k := DigitRun(s[2..]);
      if k == 0 || 2 + k >= |s| || s[2 + k] != ';' then None
      else
        var n := DigitsValue(s[2..2 + k]);
        if XmlChar(n) then Some((n as char, 3 + k)) else None
  }

  /** The first character of the value of `s` and how many characters of `s` it takes: a
      reference, or any other character standing for itself. */
  function XmlHead(s: string): (r: Option<(char, nat)>)
    requires |s| > 0
    ensures r.Some? ==> 1 <= r.value.1 <= |s|
  {
    if s[0] != '&' then Some((s[0], 1)) else Reference(s)
  }

  /** The parsed value of character data: references replaced, anything else kept. A stray
      `&` makes the document ill-formed (None). */
  function XmlUnescape(s: string): (r: Option<string>)
    decreases |s|
  {
    if |s| == 0 then Some("")
    else
      var (c, k) :- XmlHead(s);
      var rest :- XmlUnescape(s[k..]);
      Some([c] + rest)
  }

  /** Text without `&` is its own value. */
  lemma {:induction false} XmlUnescapePlain(s: string)
    requires '&' !in s
    ensures XmlUnescape(s) == Some(s)
    decreases |s|
  {
    if |s| > 0 {
      XmlUnescapePlain(s[1..]);
      assert s == [s[0]] + s[1..];
    }
  }

  /** Decoding distributes over a split at a reference boundary. */
  lemma {:induction false} XmlUnescapeAppend(a: string, b: string)
    requires XmlUnescape(a).Some? && XmlUnescape(b).Some?
    ensures XmlUnescape(a + b) == Some(XmlUnescape(a).value + XmlUnescape(b).value)
    decreases |a|
  {
    if |a| == 0 {
      assert a + b == b;
      assert XmlUnescape(a).value + XmlUnescape(b).value == XmlUnescape(b).value;
    } else {
      var c, k := XmlAppendHead(a, b);
      XmlUnescapeAppend(a[k..], b);
      ConsThenAppend(c, XmlUnescape(a[k..]).value, XmlUnescape(b).value, XmlUnescape(a), XmlUnescape(a + b));
    }
  }

  /** Values that open with the same character and go on with `u` and with `u + v`. */
  lemma ConsThenAppend(c: char, u: string, v: string, x: Option<string>, y: Option<string>)
    requires x == Some([c] + u) && y == Some([c] + (u + v))
    ensures y == Some(x.value + v)
  {
    assert [c] + (u + v) == ([c] + u) + v;
  }

  /** The first character of `a`'s value, taking `k` characters, opens the value of `a + b`
      as well. */
  lemma XmlAppendHead(a: string, b: string) returns (c: char, k: nat)
    requires |a| > 0 && XmlUnescape(a).Some?
    ensures 1 <= k <= |a| && XmlUnescape(a[k..]).Some?
    ensures XmlUnescape(a) == Some([c] + XmlUnescape(a[k..]).value)
    ensures XmlUnescape(a + b) ==
      if XmlUnescape(a[k..] + b).Some? then Some([c] + XmlUnescape(a[k..] + b).value) else None
  {
    XmlHeadPrefix(a, b);
    c, k := XmlHead(a).value.0, XmlHead(a).value.1;
    assert (a + b)[k..] == a[k..] + b;
  }

  lemma XmlHeadPrefix(a: string, b: string)
    requires |a| > 0 && XmlHead(a).Some?
    ensures XmlHead(a + b) == XmlHead(a)
  {
    assert (a + b)[0] == a[0];
    if a[0] == '&' {
      ReferencePrefix(a, b);
    }
  }

  /** Text opening with `&#` names none of the predefined entities. */
  lemma HashIsNoEntity(s: string)
    requires |s| >= 2 && s[1] == '#'
    ensures !IsPrefix("&amp;", s) && !IsPrefix("&lt;", s) && !IsPrefix("&gt;", s)
    ensures !IsPrefix("&quot;", s) && !IsPrefix("&apos;", s)
  {
    assert s[1] != "&amp;"[1] && s[1] != "&lt;"[1] && s[1] != "&gt;"[1];
    assert s[1] != "&quot;"[1] && s[1] != "&apos;"[1];
  }

  /** A decimal character reference `&#d;` stands for the character numbered `d`. */
  lemma DecimalReference(d: string, n: nat)
    requires |d| >= 1 && AllDigits(d) && DigitsValue(d) == n && XmlChar(n)
    ensures Reference("&#" + d + ";") == Some((n as char, |d| + 3))
  {
    var s := "&#" + d + ";";
    assert s[0] == '&' && s[1] == '#' && |s| == |d| + 3;
    assert s[2..] == d + ";";
    HashIsNoEntity(s);
    DecimalCharReference(s, d, n);
  }

  lemma DecimalCharReference(s: string, d: string, n: nat)
    requires |d| >= 1 && AllDigits(d) && DigitsValue(d) == n && XmlChar(n)
    requires |s| == |d| + 3 && s[0] == '&' && s[1] == '#' && s[2..] == d + ";"
    ensures CharReference(s) == Some((n as char, |d| + 3))
  {
    assert s[2] == d[0] && IsDigit(d[0]);
    DigitRunOfDigits(d, ";");
    assert s[2..2 + |d|] == d;
    assert s[2 + |d|] == ';';
  }

  /** A reference is recognised from its own characters, whatever follows it. */
  lemma ReferencePrefix(a: string, b: string)
    requires |a| > 0 && a[0] == '&' && Reference(a).Some?
    ensures Reference(a + b) == Reference(a)
  {
    var s := a + b;
    assert s[0] == '&';
    PrefixesAgree(a, b);
    if IsPrefix("&amp;", a) || IsPrefix("&lt;", a) || IsPrefix("&gt;", a) || IsPrefix("&quot;", a) || IsPrefix("&apos;", a) {
    } else {
      assert s[1] == a[1] == '#';
      CharReferencePrefix(a, b);
    }
  }

  lemma CharReferencePrefix(a: string, b: string)
    requires |a| >= 2 && a[0] == '&' && a[1] == '#' && CharReference(a).Some?
    ensures CharReference(a + b) == CharReference(a)
  {
    var s := a + b;
    assert s[0] == '&' && s[1] == '#' && s[2] == a[2];
    if a[2] == 'x' {
      var k := HexRun(a[3..]);
      assert a[3..] + b == s[3..];
      HexRunPrefix(a[3..], b, k);
      assert s[3..3 + k] == a[3..3 + k];
    } else {
      var k := DigitRun(a[2..]);
      assert a[2..] + b == s[2..];
      DigitRunPrefix(a[2..], b, k);
      assert s[2..2 + k] == a[2..2 + k];
    }
  }

  lemma {:induction false} HexRunPrefix(a: string, b: string, k: nat)
    requires k == HexRun(a) && k < |a|
    ensures HexRun(a + b) == k
    decreases |a|
  {
    if k > 0 {
      assert (a + b)[1..] == a[1..] + b;
      HexRunPrefix(a[1..], b, k - 1);
    } else {
      assert (a + b)[0] == a[0];
    }
  }

  /** A hexadecimal character reference `&#xh;` stands for the character numbered `h`. */
  lemma HexReference(h: string, n: nat)
    requires |h| >= 1 && (forall i :: 0 <= i < |h| ==> IsHexDigit(h[i]))
    requires HexNumber(h) == n && XmlChar(n)
    ensures Reference("&#x" + h + ";") == Some((n as char, |h| + 4))
  {
    var s := "&#x" + h + ";";
    assert s[0] == '&' && s[1] == '#' && s[2] == 'x' && |s| == |h| + 4;
    assert s[3..] == h + ";";
    HashIsNoEntity(s);
    HexCharReference(s, h, n);
  }

  lemma HexCharReference(s: string, h: string, n: nat)
    requires |h| >= 1 && (forall i :: 0 <= i < |h| ==> IsHexDigit(h[i]))
    requires HexNumber(h) == n && XmlChar(n)
    requires |s| == |h| + 4 && s[0] == '&' && s[1] == '#' && s[2] == 'x' && s[3..] == h + ";"
    ensures CharReference(s) == Some((n as char, |h| + 4))
  {
    HexRunOfHexDigits(h, ";");
    assert s[3..3 + |h|] == h;
    assert s[3 + |h|] == ';';
  }

  /** A run of hexadecimal digits followed by anything else is read as exactly that run. */
  lemma {:induction false} HexRunOfHexDigits(h: string, tail: string)
    requires (forall i :: 0 <= i < |h| ==> IsHexDigit(h[i])) && |tail| > 0 && !IsHexDigit(tail[0])
    ensures HexRun(h + tail) == |h|
    decreases |h|
  {
    if |h| > 0 {
      assert (h + tail)[1..] == h[1..] + tail;
      HexRunOfHexDigits(h[1..], tail);
    } else {
      assert h + tail == tail;
    }
  }

  lemma PrefixesAgree(a: string, b: string)
    requires |a| > 0 && a[0] == '&' && Reference(a).Some?
    ensures IsPrefix("&amp;", a + b) == IsPrefix("&amp;", a)
    ensures IsPrefix("&lt;", a + b) == IsPrefix("&lt;", a)
    ensures IsPrefix("&gt;", a + b) == IsPrefix("&gt;", a)
    ensures IsPrefix("&quot;", a + b) == IsPrefix("&quot;", a)
    ensures IsPrefix("&apos;", a + b) == IsPrefix("&apos;", a)
  {
    var s := a + b;
    assert |a| >= 3 && s[1] == a[1] && s[2] == a[2];
    PrefixAppend("&amp;", a, b);
    PrefixAppend("&lt;", a, b);
    PrefixAppend("&gt;", a, b);
    PrefixAppend("&quot;", a, b);
    PrefixAppend("&apos;", a, b);
  }

  /** A prefix no longer than `a` is a prefix of `a + b` exactly when it is one of `a`. */
  lemma PrefixAppend(p: string, a: string, b: string)
    ensures IsPrefix(p, a) ==> IsPrefix(p, a + b)
    ensures |p| <= |a| ==> IsPrefix(p, a + b) == IsPrefix(p, a)
  {
    if |p| <= |a| {
      assert forall i :: 0 <= i < |p| ==> (a + b)[i] == a[i];
    }
  }

  // ---------------------------------------------------------------- what the parser normalises

  /** Every character is one XML 1.0 admits. */
  predicate AllXmlChars(s: string) {
    forall i :: 0 <= i < |s| ==> XmlChar(s[i] as int)
  }

  /** End-of-line handling (section 2.11 of XML 1.0): before anything else the parser passes
      a carriage return followed by a line feed, and every other carriage return, on as a
      single line feed. */
  function LineEnds(s: string): (r: string)
    ensures '\r' !in r
    ensures |r| <= |s|
    decreases |s|
  {
    if |s| == 0 then ""
    else if s[0] == '\r' then "\n" + LineEnds(if |s| > 1 && s[1] == '\n' then s[2..] else s[1..])
    else [s[0]] + LineEnds(s[1..])
  }

  /** Text before which nothing can end a line passes through unchanged. */
  lemma {:induction false} LineEndsPlain(a: string, b: string)
    requires '\r' !in a
    ensures LineEnds(a + b) == a + LineEnds(b)
    decreases |a|
  {
    if |a| == 0 {
      assert a + b == b;
    } else {
      var ab := a + b;
      assert ab[0] == a[0] && a[0] != '\r';
      assert ab[1..] == a[1..] + b;
      assert LineEnds(ab) == [a[0]] + LineEnds(a[1..] + b);
      LineEndsPlain(a[1..], b);
      assert [a[0]] + (a[1..] + LineEnds(b)) == a + LineEnds(b);
    }
  }

  /** A carriage return becomes a line feed, swallowing a line feed right after it. */
  lemma LineEndsReturn(b: string)
    ensures LineEnds("\r" + b) == "\n" + LineEnds(if |b| > 0 && b[0] == '\n' then b[1..] else b)
  {
    assert ("\r" + b)[1..] == b;
    if |b| > 0 {
      assert ("\r" + b)[1] == b[0];
      assert ("\r" + b)[2..] == b[1..];
    }
  }

  /** Text without a carriage return is its own normal form, and normalising is idempotent. */
  lemma LineEndsWithoutReturn(s: string)
    requires '\r' !in s
    ensures LineEnds(s) == s
  {
    LineEndsPlain(s, "");
    assert s + "" == s;
  }

  /** Attribute-value normalisation (section 3.3.3 of XML 1.0): once line ends are handled,
      each literal tab, line feed or carriage return in an attribute value stands for a
      space. References are replaced afterwards, so `&#9;` still yields a tab. */
  function AttrSpaces(s: string): (r: string)
    ensures |r| == |s|
    ensures '\t' !in r && '\n' !in r && '\r' !in r
    ensures forall i :: 0 <= i < |s| && s[i] != '\t' && s[i] != '\n' && s[i] != '\r' ==> r[i] == s[i]
  {
    seq(|s|, i requires 0 <= i < |s| => if s[i] == '\t' || s[i] == '\n' || s[i] == '\r' then ' ' else s[i])
  }

  /** The value of character data between tags: a character XML does not admit or a raw `<`
      leaves the document ill-formed (None); otherwise line ends are normalised and the
      references replaced. */
  function CharData(written: string): (r: Option<string>)
    ensures r.Some? ==> AllXmlChars(written) && '<' !in written
  {
    if !AllXmlChars(written) || '<' in written then None else XmlUnescape(LineEnds(written))
  }

  /** The value of an attribute written between single quotes: text holding the quote, a `<`
      or a character XML does not admit cannot stand as that one value (None); otherwise its
      line ends, then its white space, are normalised and the references replaced. */
  function SingleQuotedValue(written: string): (r: Option<string>)
    ensures r.Some? ==> AllXmlChars(written) && '<' !in written && '\'' !in written
  {
    if !AllXmlChars(written) || '<' in written || '\'' in written then None
    else XmlUnescape(AttrSpaces(LineEnds(written)))
  }

  /** Normalising line ends only ever writes a line feed in place of a carriage return. */
  lemma {:induction false} LineEndsKeeps(s: string, c: char)
    requires c != '\n' && c !in s
    ensures c !in LineEnds(s)
    decreases |s|
  {
    if |s| > 0 {
      if s[0] == '\r' {
        LineEndsKeeps(if |s| > 1 && s[1] == '\n' then s[2..] else s[1..], c);
      } else {
        LineEndsKeeps(s[1..], c);
      }
    }
  }

  /** A character that stands for itself between single quotes, up to reference replacement:
      admitted, neither the quote nor `<`, and no white space other than the space. */
  predicate QuotableChar(c: char) {
    XmlChar(c as int) && c != '<' && c != '\'' && c != '\t' && c != '\n' && c != '\r'
  }

  predicate Quotable(s: string) {
    forall i :: 0 <= i < |s| ==> QuotableChar(s[i])
  }

  lemma QuotableAppend(a: string, b: string)
    requires Quotable(a) && Quotable(b)
    ensures Quotable(a + b)
  {
    forall i | 0 <= i < |a + b| ensures QuotableChar((a + b)[i]) {
      if i >= |a| {
        assert (a + b)[i] == b[i - |a|];
      }
    }
  }

  /** Between single quotes, quotable text is read by reference replacement alone. */
  lemma QuotableValue(s: string)
    requires Quotable(s)
    ensures SingleQuotedValue(s) == XmlUnescape(s)
  {
    LineEndsWithoutReturn(s);
    assert AttrSpaces(s) == s;
  }

  /** Quotable text without `&` reads back as written. */
  lemma PlainAttributeValue(s: string)
    requires Quotable(s) && '&' !in s
    ensures SingleQuotedValue(s) == Some(s)
  {
    QuotableValue(s);
    XmlUnescapePlain(s);
  }

  /** A hexadecimal character reference between quotable text without `&` is read as the
      character it names: a file name such as `a&#x41;.c` reads back as `aA.c`. */
  lemma HexReferenceInValue(pre: string, h: string, post: string, n: nat)
    requires Quotable(pre) && '&' !in pre && Quotable(post) && '&' !in post
    requires |h| >= 1 && (forall i :: 0 <= i < |h| ==> IsHexDigit(h[i]))
    requires HexNumber(h) == n && XmlChar(n)
    ensures SingleQuotedValue(pre + ("&#x" + h + ";") + post) == Some(pre + [n as char] + post)
  {
    var r := "&#x" + h + ";";
    HexReferenceReads(r, h, n);
    ReferenceInValue(pre, r, post, n as char);
  }

  /** The reference `&#x<h>;` is quotable and reads as the character `h` names. */
  lemma HexReferenceReads(r: string, h: string, n: nat)
    requires r == "&#x" + h + ";"
    requires |h| >= 1 && (forall i :: 0 <= i < |h| ==> IsHexDigit(h[i]))
    requires HexNumber(h) == n && XmlChar(n)
    ensures Quotable(r) && XmlUnescape(r) == Some([n as char])
  {
    HexReferenceQuotable(h);
    HexReferenceLayout(r, h);
    HexReferenceAlone(r, h, n);
  }

  lemma HexReferenceLayout(r: string, h: string)
    requires r == "&#x" + h + ";"
    ensures r[0] == '&' && r[1] == '#' && r[2] == 'x' && |r| == |h| + 4
    ensures r[3..] == h + ";"
  {
  }

  /** Quotable text that reads as one character keeps reading so between text without `&`. */
  lemma ReferenceInValue(pre: string, r: string, post: string, c: char)
    requires Quotable(pre) && '&' !in pre && Quotable(post) && '&' !in post
    requires Quotable(r) && XmlUnescape(r) == Some([c])
    ensures SingleQuotedValue(pre + r + post) == Some(pre + [c] + post)
  {
    QuotableAppend(pre, r);
    QuotableAppend(pre + r, post);
    QuotableValue(pre + r + post);
    XmlUnescapePlain(pre);
    XmlUnescapePlain(post);
    XmlUnescapeAppend(pre, r);
    XmlUnescapeAppend(pre + r, post);
  }

  lemma HexReferenceQuotable(h: string)
    requires forall i :: 0 <= i < |h| ==> IsHexDigit(h[i])
    ensures Quotable("&#x" + h + ";")
  {
    var r := "&#x" + h + ";";
    forall i | 0 <= i < |r| ensures QuotableChar(r[i]) {
      if 3 <= i < |r| - 1 {
        assert r[i] == h[i - 3];
        HexDigitQuotable(h[i - 3]);
      }
    }
  }

  lemma HexDigitQuotable(c: char)
    requires IsHexDigit(c)
    ensures QuotableChar(c)
  {
  }

  /** A hexadecimal reference on its own, `&#xH;`, is read as the one character it names. */
  lemma HexReferenceAlone(r: string, h: string, n: nat)
    requires |h| >= 1 && (forall i :: 0 <= i < |h| ==> IsHexDigit(h[i]))
    requires HexNumber(h) == n && XmlChar(n)
    requires |r| == |h| + 4 && r[0] == '&' && r[1] == '#' && r[2] == 'x' && r[3..] == h + ";"
    ensures XmlUnescape(r) == Some([n as char])
  {
    HashIsNoEntity(r);
    HexCharReference(r, h, n);
    SingleReference(r, n as char);
  }

  /** Text that is one whole reference is read as its one character. */
  lemma SingleReference(s: string, c: char)
    requires |s| > 0 && s[0] == '&' && Reference(s) == Some((c, |s|))
    ensures XmlUnescape(s) == Some([c])
  {
    assert XmlHead(s) == Some((c, |s|));
    assert s[|s|..] == "";
    assert XmlUnescape(s[|s|..]) == Some("");
    assert [c] + "" == [c];
  }

  /** Character data without a carriage return, a raw `<` or an inadmissible character is
      read by reference replacement alone. */
  lemma CharDataWithoutReturns(s: string)
    requires AllXmlChars(s) && '<' !in s && '\r' !in s
    ensures CharData(s) == XmlUnescape(s)
  {
    LineEndsWithoutReturn(s);
  }

  // ---------------------------------------------------------------- Python 2 'string-escape'

  predicate IsOctal(c: char) {
    '0' <= c <= '7'
  }

  /** The letters that name a control character after a backslash. */
  predicate ControlEscape(c: char) {
    c == 'a' || c == 'b' || c == 'f' || c == 'n' || c == 'r' || c == 't' || c == 'v'
  }

  /** The two-character escapes: a line continuation, a quoted backslash or quote, or a
      control character. */
  predicate SimpleEscape(c: char) {
    c == '\n' || c == '\\' || c == '\'' || c == '"' || ControlEscape(c)
  }

  /** What the escape (or plain character) at the start of `s` decodes to — at most one byte;
      a line continuation gives none — and how many characters it takes. A character outside
      ASCII is an error: the parsed text is then a unicode string, which Python 2 encodes to
      ASCII before decoding it. */
  function EscapeHead(s: string): (r: Option<(seq<byte>, nat)>)
    requires |s| > 0
    ensures r.Some? ==> 1 <= r.value.1 <= |s| && |r.value.0| <= 1
  {
    if s[0] as int >= 128 then None
    else if s[0] != '\\' then Some(([s[0] as int], 1))
    else if |s| == 1 then None
    else
      var c := s[1];
      if c == '\n' then Some(([], 2))
      else if c == '\\' || c == '\'' || c == '"' then Some(([c as int], 2))
      else if ControlEscape(c) then
        var b: byte := match c
          case 'a' => 7 case 'b' => 8 case 'f' => 12 case 'n' => 10
          case 'r' => 13 case 't' => 9 case _ => 11;
        Some(([b], 2))
      else if IsOctal(c) then
        var n := OctalRun(s[1..]);
        Some(([OctalValue(s[1..1 + n]) % 256], 1 + n))
      else if c == 'x' then
        if |s| >= 4 && HexValue(s[2]).Some? && HexValue(s[3]).Some? then
          Some(([HexValue(s[2]).value * 16 + HexValue(s[3]).value], 4))
        else None
      else Some(([0x5c], 1))
  }

  /** Decoding with Python 2's `string-escape` codec. A backslash introduces `\\`, `\'`, `\"`,
      `\a \b \f \n \r \t \v`, up to three octal digits (kept modulo 256), `\xHH` (two hex digits
      required, else ValueError) or a line continuation; before any other character the
      backslash is kept. A trailing backslash is a ValueError. */
  function StringEscapeDecode(s: string): (r: Option<seq<byte>>)
    decreases |s|
  {
    if |s| == 0 then Some([])
    else
      var (bs, k) :- EscapeHead(s);
      var rest :- StringEscapeDecode(s[k..]);
      Some(bs + rest)
  }

  /** Number of octal digits (at most three) at the start of `s`. */
  function OctalRun(s: string): (n: nat)
    requires |s| > 0 && IsOctal(s[0])
    ensures 1 <= n <= 3 && n <= |s|
    ensures forall i :: 0 <= i < n ==> IsOctal(s[i])
  {
    if |s| >= 2 && IsOctal(s[1]) then (if |s| >= 3 && IsOctal(s[2]) then 3 else 2) else 1
  }

  function OctalValue(s: string): (n: nat)
    requires forall i :: 0 <= i < |s| ==> IsOctal(s[i])
    decreases |s|
  {
    if |s| == 0 then 0
    else
      assert IsOctal(s[|s| - 1]);
      OctalValue(s[..|s| - 1]) * 8 + ((s[|s| - 1] as int) - ('0' as int))
  }

  /** `\xHH` written with two lower-case hex digits decodes to that byte. */
  lemma HexEscapeDecodes(b: byte, rest: string)
    ensures StringEscapeDecode("\\x" + Hex2(b) + rest) ==
      (if StringEscapeDecode(rest).Some? then Some([b] + StringEscapeDecode(rest).value) else None)
  {
    var s := "\\x" + Hex2(b) + rest;
    HexValueOfHexDigit(b / 16);
    HexValueOfHexDigit(b % 16);
    assert s[2] == HexDigit(b / 16) && s[3] == HexDigit(b % 16);
    assert EscapeHead(s) == Some(([b], 4));
    assert s[4..] == rest;
  }

  /** Decoding distributes over concatenation when the first part ends on an escape boundary. */
  lemma {:induction false} StringEscapeAppend(a: string, b: string)
    requires StringEscapeDecode(a).Some? && StringEscapeDecode(b).Some?
    requires Complete(a)
    ensures StringEscapeDecode(a + b) == Some(StringEscapeDecode(a).value + StringEscapeDecode(b).value)
    decreases |a|
  {
    if |a| == 0 {
      assert a + b == b;
      assert StringEscapeDecode(a).value + StringEscapeDecode(b).value == StringEscapeDecode(b).value;
    } else {
      var x, k := AppendStep(a, b);
      var u := StringEscapeDecode(a[k..]).value;
      var v := StringEscapeDecode(b).value;
      assert StringEscapeDecode(a[k..] + b) == Some(u + v) by {
        StringEscapeAppend(a[k..], b);
      }
      assert x + (u + v) == (x + u) + v;
    }
  }

  /** The first escape of complete text `a` is the first escape of `a + b` too. */
  lemma AppendStep(a: string, b: string) returns (x: seq<byte>, k: nat)
    requires |a| > 0 && StringEscapeDecode(a).Some? && Complete(a)
    ensures 1 <= k <= |a| && Complete(a[k..]) && (a + b)[k..] == a[k..] + b
    ensures StringEscapeDecode(a[k..]).Some?
    ensures StringEscapeDecode(a) == Some(x + StringEscapeDecode(a[k..]).value)
    ensures StringEscapeDecode(a + b) ==
      if StringEscapeDecode(a[k..] + b).Some? then Some(x + StringEscapeDecode(a[k..] + b).value) else None
  {
    EscapeHeadPrefix(a, b);
    x, k := EscapeHead(a).value.0, EscapeHead(a).value.1;
    DecodeStep(a);
    DecodeStep(a + b);
    assert (a + b)[k..] == a[k..] + b;
  }

  /** One step of decoding: the first escape, then the rest. */
  lemma DecodeStep(s: string)
    requires |s| > 0 && EscapeHead(s).Some?
    ensures var (x, k) := EscapeHead(s).value;
      StringEscapeDecode(s) ==
        if StringEscapeDecode(s[k..]).Some? then Some(x + StringEscapeDecode(s[k..]).value) else None
  {
  }

  /** The first escape of complete text is recognised from its own characters. */
  lemma EscapeHeadPrefix(a: string, b: string)
    requires |a| > 0 && Complete(a) && EscapeHead(a).Some?
    ensures EscapeHead(a + b) == EscapeHead(a)
    ensures Complete(a[EscapeHead(a).value.1..])
  {
    var s := a + b;
    assert s[0] == a[0];
    if a[0] != '\\' {
    } else if a[1] == 'x' {
      HexHeadPrefix(a, b);
    } else {
      assert s[1] == a[1];
      SimpleHeadPrefix(a, b);
    }
  }

  lemma HexHeadPrefix(a: string, b: string)
    requires |a| >= 4 && a[0] == '\\' && a[1] == 'x' && EscapeHead(a).Some?
    ensures EscapeHead(a + b) == EscapeHead(a)
  {
    var s := a + b;
    assert s[..4] == a[..4];
    assert s[0] == a[0] && s[1] == a[1] && s[2] == a[2] && s[3] == a[3];
  }

  lemma SimpleHeadPrefix(a: string, b: string)
    requires |a| >= 2 && a[0] == '\\' && (a + b)[1] == a[1]
    requires SimpleEscape(a[1])
    ensures EscapeHead(a + b) == EscapeHead(a)
  {
  }

  /** Escaped text that decodes the same whatever follows it: no octal escape (which could
      swallow following digits) and no bare backslash before an ordinary character. */
  predicate Complete(s: string)
    decreases |s|
  {
    if |s| == 0 then true
    else if s[0] != '\\' then Complete(s[1..])
    else if |s| == 1 then false
    else
      var c := s[1];
      if SimpleEscape(c) then Complete(s[2..])
      else if c == 'x' then |s| >= 4 && Complete(s[4..])
      else false
  }

  lemma {:induction false} CompleteAppend(a: string, b: string)
    requires Complete(a) && Complete(b)
    ensures Complete(a + b)
    decreases |a|
  {
    if |a| > 0 {
      var s := a + b;
      assert s[0] == a[0];
      if a[0] != '\\' {
        assert Complete(a[1..]);
        assert s[1..] == a[1..] + b;
        CompleteAppend(a[1..], b);
        assert Complete(s);
      } else {
        assert |a| >= 2;
        assert s[1] == a[1];
        var c := a[1];
        if c == 'x' {
          assert |a| >= 4 && Complete(a[4..]);
          assert s[4..] == a[4..] + b;
          CompleteAppend(a[4..], b);
          assert Complete(s);
        } else {
          assert Complete(a[2..]);
          assert s[2..] == a[2..] + b;
          CompleteAppend(a[2..], b);
          assert Complete(s);
        }
      }
    } else {
      assert a + b == b;
    }
  }
}
