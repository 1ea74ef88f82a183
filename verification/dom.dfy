/**
 * The output of the XML parser, taken as given data.
 *
 * A parsed document is the sequence of its top-level elements; every element
 * has a (qualified) tag name, an attribute map, its text content and its child
 * elements.  `getElementsByTagName` and `getAttribute` are modelled as the DOM
 * implementation used by the reader behaves: the first returns matching
 * descendants in document order (a document includes its root element, an
 * element excludes itself), the second returns "" for a missing attribute.
 */
module Dom {
  import opened Wrappers

  datatype Element = Element(
    tag: string,
    attrs: map<string, string>,
    text: string,
    children: seq<Element>)

  type Document = seq<Element>

  /** `element.getAttribute(name)`: the empty string when the attribute is absent. */
  function Attr(e: Element, name: string): string
  {
    if name in e.attrs then e.attrs[name] else ""
  }

  /** Every element of a forest in document order (pre-order, parents first). */
  function Descendants(nodes: seq<Element>): seq<Element>
    decreases nodes
  {
    if |nodes| == 0 then []
    else [nodes[0]] + Descendants(nodes[0].children) + Descendants(nodes[1..])
  }

  /** The elements of a flat sequence whose tag is `tag`, in their order. */
  function Matching(xs: seq<Element>, tag: string): (r: seq<Element>)
    ensures |r| <= |xs|
    ensures forall i :: 0 <= i < |r| ==> r[i].tag == tag
  {
    if |xs| == 0 then []
    else (if xs[0].tag == tag then [xs[0]] else []) + Matching(xs[1..], tag)
  }

  /**
   * `getElementsByTagName(tag)` over a forest: the tree walk of the DOM
   * implementation, collecting each matching node before its subtree and its
   * later siblings.
   */
  function ElementsByTag(nodes: seq<Element>, tag: string): seq<Element>
    decreases nodes
  {
    if |nodes| == 0 then []
    else
      (if nodes[0].tag == tag then [nodes[0]] else [])
      + ElementsByTag(nodes[0].children, tag)
      + ElementsByTag(nodes[1..], tag)
  }

  /** `getElementsByTagName(tag)[0]`: undefined when nothing matches. */
  function FirstByTag(nodes: seq<Element>, tag: string): Option<Element>
  {
    var all := ElementsByTag(nodes, tag);
    if |all| == 0 then None else Some(all[0])
  }

  lemma {:induction false} MatchingAppend(a: seq<Element>, b: seq<Element>, tag: string)
    ensures Matching(a + b, tag) == Matching(a, tag) + Matching(b, tag)
    decreases |a|
  {
    if |a| == 0 {
      assert a + b == b;
    } else {
      assert (a + b)[0] == a[0];
      assert (a + b)[1..] == a[1..] + b;
      MatchingAppend(a[1..], b, tag);
    }
  }

  /** The tree walk yields exactly the matching elements of the document order. */
  lemma {:induction false} ElementsByTagInDocumentOrder(nodes: seq<Element>, tag: string)
    ensures ElementsByTag(nodes, tag) == Matching(Descendants(nodes), tag)
    decreases nodes
  {
    if |nodes| > 0 {
      var head := nodes[0];
      var inner := Descendants(head.children);
      var rest := Descendants(nodes[1..]);
      ElementsByTagInDocumentOrder(head.children, tag);
      ElementsByTagInDocumentOrder(nodes[1..], tag);
      MatchingOfTree(head, inner, rest, tag);
    }
  }

  lemma MatchingOfTree(head: Element, inner: seq<Element>, rest: seq<Element>, tag: string)
    ensures Matching([head] + inner + rest, tag)
         == (if head.tag == tag then [head] else []) + Matching(inner, tag) + Matching(rest, tag)
  {
    MatchingAppend([head] + inner, rest, tag);
    MatchingAppend([head], inner, tag);
  }

  /** The first match of a sequence is its earliest element with that tag. */
  lemma {:induction false} MatchingEarliest(xs: seq<Element>, tag: string, k: nat)
    requires k < |xs| && xs[k].tag == tag
    requires forall j :: 0 <= j < k ==> xs[j].tag != tag
    ensures |Matching(xs, tag)| > 0 && Matching(xs, tag)[0] == xs[k]
  {
    if k > 0 {
      MatchingEarliest(xs[1..], tag, k - 1);
    }
  }

  /** No match at all exactly when no element of the sequence carries the tag. */
  lemma {:induction false} MatchingEmpty(xs: seq<Element>, tag: string)
    ensures |Matching(xs, tag)| == 0 <==> forall k :: 0 <= k < |xs| ==> xs[k].tag != tag
  {
    if |xs| > 0 {
      MatchingEmpty(xs[1..], tag);
      assert forall k :: 1 <= k < |xs| ==> xs[k] == xs[1..][k - 1];
    }
  }

  /**
   * `getElementsByTagName(tag)[0]` is the earliest element in document order
   * that carries the tag; later elements with the same tag are never returned.
   */
  lemma FirstByTagIsEarliest(nodes: seq<Element>, tag: string, k: nat)
    requires k < |Descendants(nodes)| && Descendants(nodes)[k].tag == tag
    requires forall j :: 0 <= j < k ==> Descendants(nodes)[j].tag != tag
    ensures FirstByTag(nodes, tag) == Some(Descendants(nodes)[k])
  {
    ElementsByTagInDocumentOrder(nodes, tag);
    MatchingEarliest(Descendants(nodes), tag, k);
  }

  /** `getElementsByTagName(tag)[0]` is undefined exactly when no element carries the tag. */
  lemma FirstByTagAbsent(nodes: seq<Element>, tag: string)
    ensures FirstByTag(nodes, tag).None? <==>
            forall k :: 0 <= k < |Descendants(nodes)| ==> Descendants(nodes)[k].tag != tag
  {
    ElementsByTagInDocumentOrder(nodes, tag);
    MatchingEmpty(Descendants(nodes), tag);
  }
}
