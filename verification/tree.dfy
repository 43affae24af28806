/** The decoded XML document as the backend sees it through its element-tree library: an
    element has a tag, attributes, child elements in document order and its leading text.
    Parsing itself is not modelled; decoding functions start from this tree. */
module Tree {
  import opened Wrappers
  import opened Misc

  datatype Element = Element(tag: string, attrs: map<string, string>, children: seq<Element>, text: Option<string>)

  /** `e.get(key)`: the attribute's value, or None when it is absent. */
  function Get(e: Element, key: string): (r: Option<string>)
    ensures r.Some? <==> key in e.attrs
    ensures r.Some? ==> r.value == e.attrs[key]
  {
    if key in e.attrs then Some(e.attrs[key]) else None
  }

  /** `descend_one(e)`: the single child element; any other number of children fails the
      assertion. */
  function DescendOne(e: Element): (r: Result<Element, Fault>)
    ensures r.Ok? <==> |e.children| == 1
    ensures r.Ok? ==> r.value == e.children[0]
  {
    if |e.children| == 1 then Ok(e.children[0]) else Err(AssertionError)
  }

  /** `e.find(tag)`: the first child with that tag. */
  function Find(e: Element, tag: string): (r: Option<Element>)
    ensures r.Some? ==> r.value in e.children && r.value.tag == tag
    ensures r.None? <==> forall i :: 0 <= i < |e.children| ==> e.children[i].tag != tag
  {
    FindIn(e.children, tag)
  }

  function FindIn(es: seq<Element>, tag: string): (r: Option<Element>)
    ensures r.Some? ==> r.value in es && r.value.tag == tag
    ensures r.None? <==> forall i :: 0 <= i < |es| ==> es[i].tag != tag
    ensures |es| > 0 && es[0].tag == tag ==> r == Some(es[0])
    decreases |es|
  {
    if |es| == 0 then None
    else if es[0].tag == tag then Some(es[0])
    else FindIn(es[1..], tag)
  }

  /** `e.findall(tag)`: every child with that tag, in document order. */
  function FindAll(e: Element, tag: string): (r: seq<Element>)
  {
    FindAllIn(e.children, tag)
  }

  function FindAllIn(es: seq<Element>, tag: string): (r: seq<Element>)
    ensures |r| <= |es|
    ensures forall i :: 0 <= i < |r| ==> r[i] in es && r[i].tag == tag
    ensures (forall i :: 0 <= i < |es| ==> es[i].tag != tag) ==> r == []
    ensures (forall i :: 0 <= i < |es| ==> es[i].tag == tag) ==> r == es
    decreases |es|
  {
    if |es| == 0 then []
    else (if es[0].tag == tag then [es[0]] else []) + FindAllIn(es[1..], tag)
  }

  lemma {:induction false} FindAllInAppend(a: seq<Element>, b: seq<Element>, tag: string)
    ensures FindAllIn(a + b, tag) == FindAllIn(a, tag) + FindAllIn(b, tag)
    decreases |a|
  {
    if |a| == 0 {
      assert a + b == b;
    } else {
      assert (a + b)[1..] == a[1..] + b && (a + b)[0] == a[0];
      FindAllInAppend(a[1..], b, tag);
      var h := if a[0].tag == tag then [a[0]] else [];
      calc {
        FindAllIn(a + b, tag);
        h + FindAllIn(a[1..] + b, tag);
        h + (FindAllIn(a[1..], tag) + FindAllIn(b, tag));
        { assert h + (FindAllIn(a[1..], tag) + FindAllIn(b, tag)) == (h + FindAllIn(a[1..], tag)) + FindAllIn(b, tag); }
        FindAllIn(a, tag) + FindAllIn(b, tag);
      }
    }
  }

  lemma {:induction false} FindInAppend(a: seq<Element>, b: seq<Element>, tag: string)
    ensures FindIn(a + b, tag) == if FindIn(a, tag).Some? then FindIn(a, tag) else FindIn(b, tag)
    decreases |a|
  {
    if |a| == 0 {
      assert a + b == b;
    } else {
      assert (a + b)[1..] == a[1..] + b;
      FindInAppend(a[1..], b, tag);
    }
  }
}
