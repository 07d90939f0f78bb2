/** An already-parsed XML document and the `ElementTree` lookups the
    converter uses: `find`, `findtext`, `findall` on direct children and
    `find("a/b")` through one level. */
module Xml {
  import opened Options

  /** An element: its tag, its text (None when the element has none) and
      its children in document order. */
  datatype Element = Element(tag: string, text: Option<string>, children: seq<Element>)

  /** The first element of `cs` with tag `tag`. */
  function FirstWithTag(cs: seq<Element>, tag: string): (r: Option<Element>)
    ensures r.None? <==> forall k :: 0 <= k < |cs| ==> cs[k].tag != tag
    ensures r.Some? ==> exists k :: 0 <= k < |cs| && cs[k] == r.value && cs[k].tag == tag
                                    && forall j :: 0 <= j < k ==> cs[j].tag != tag
    decreases |cs|
  {
    if |cs| == 0 then None
    else if cs[0].tag == tag then Some(cs[0])
    else
      var r := FirstWithTag(cs[1..], tag);
      assert forall k :: 1 <= k < |cs| ==> cs[k] == cs[1..][k - 1];
      r
  }

  /** `e.find(tag)`. */
  function Find(e: Element, tag: string): Option<Element> {
    FirstWithTag(e.children, tag)
  }

  /** `e.findtext(tag)`: None when there is no such child, otherwise its
      text, "" when it has none. */
  function FindText(e: Element, tag: string): (r: Option<string>)
    ensures r.None? <==> Find(e, tag).None?
  {
    match Find(e, tag)
    case None => None
    case Some(c) => Some(if c.text.Some? then c.text.value else "")
  }

  /** The elements of `cs` with tag `tag`, in order. */
  function WithTag(cs: seq<Element>, tag: string): (r: seq<Element>)
    ensures forall k :: 0 <= k < |r| ==> r[k].tag == tag && r[k] in cs
    ensures forall c :: c in cs && c.tag == tag ==> c in r
    decreases |cs|
  {
    if |cs| == 0 then []
    else (if cs[0].tag == tag then [cs[0]] else []) + WithTag(cs[1..], tag)
  }

  /** `e.findall(tag)`. */
  function FindAll(e: Element, tag: string): seq<Element> {
    WithTag(e.children, tag)
  }

  /** The first `inner` child of an `outer` element of `cs`, scanning the
      `outer` elements in document order. */
  function FirstUnder(cs: seq<Element>, outer: string, inner: string): Option<Element>
    decreases |cs|
  {
    if |cs| == 0 then None
    else if cs[0].tag == outer && Find(cs[0], inner).Some? then Find(cs[0], inner)
    else FirstUnder(cs[1..], outer, inner)
  }

  /** `e.find(outer + "/" + inner)`. */
  function FindPath(e: Element, outer: string, inner: string): Option<Element> {
    FirstUnder(e.children, outer, inner)
  }

  /** At most one child of `e` carries tag `tag`. */
  predicate AtMostOne(e: Element, tag: string) {
    forall i, j :: 0 <= i < j < |e.children| ==> !(e.children[i].tag == tag && e.children[j].tag == tag)
  }

  /** With a single `outer` child, the path lookup is the two-step lookup
      `e.find(outer).find(inner)`; with none, both find nothing. */
  lemma {:induction false} FindPathTwoStep(cs: seq<Element>, outer: string, inner: string)
    requires forall i, j :: 0 <= i < j < |cs| ==> !(cs[i].tag == outer && cs[j].tag == outer)
    ensures FirstUnder(cs, outer, inner) ==
              match FirstWithTag(cs, outer)
              case None => None
              case Some(o) => Find(o, inner)
    decreases |cs|
  {
    if |cs| > 0 && cs[0].tag != outer {
      FindPathTwoStep(cs[1..], outer, inner);
    } else if |cs| > 0 {
      assert forall k :: 1 <= k < |cs| ==> cs[k].tag != outer;
      FirstUnderNone(cs[1..], outer, inner);
    }
  }

  lemma {:induction false} FirstUnderNone(cs: seq<Element>, outer: string, inner: string)
    requires forall k :: 0 <= k < |cs| ==> cs[k].tag != outer
    ensures FirstUnder(cs, outer, inner).None?
    decreases |cs|
  {
    if |cs| > 0 {
      FirstUnderNone(cs[1..], outer, inner);
    }
  }
}
