/** The part of the W3C DOM the reader uses on a parsed package document:
    `getElementsByTagName(...).item(0)`, `getChildNodes`, `getTextContent` and
    attribute lookup. A parsed document is a tree of element, text and comment
    nodes; parsing itself is not modelled. */
module Xml {
  import opened Lang

  datatype Node =
    | Element(tag: string, attrs: map<string, string>, children: seq<Node>)
    | Text(data: string)
    | Comment(data: string)

  /** The elements of `n` and its descendants, in document order (pre-order). */
  function ElementsOf(n: Node): (r: seq<Node>)
    ensures forall k :: 0 <= k < |r| ==> r[k].Element?
    ensures n.Element? ==> |r| > 0 && r[0] == n
    ensures !n.Element? ==> r == []
    decreases n, 1
  {
    if n.Element? then [n] + Elements(n.children) else []
  }

  /** The elements of a list of sibling nodes and their descendants, in document order. */
  function Elements(ns: seq<Node>): (r: seq<Node>)
    ensures forall k :: 0 <= k < |r| ==> r[k].Element?
    decreases ns, 0
  {
    if |ns| == 0 then [] else ElementsOf(ns[0]) + Elements(ns[1..])
  }

  /** `e.getElementsByTagName(tag)` on an element: its descendants (not itself)
      with that tag, in document order. */
  function DescendantsByTag(e: Node, tag: string): seq<Node>
    requires e.Element?
  {
    ByTag(Elements(e.children), tag)
  }

  /** `doc.getElementsByTagName(tag)` on a document: the document element is
      included. */
  function DocumentByTag(root: Node, tag: string): seq<Node> {
    ByTag(ElementsOf(root), tag)
  }

  /** Some element of `es` carries `tag`. */
  predicate HasTag(es: seq<Node>, tag: string) {
    exists k :: 0 <= k < |es| && es[k].Element? && es[k].tag == tag
  }

  /** `es[k]` is the first element of `es` carrying `tag`. */
  predicate FirstWithTag(es: seq<Node>, tag: string, k: int) {
    && 0 <= k < |es| && es[k].Element? && es[k].tag == tag
    && forall j :: 0 <= j < k ==> !(es[j].Element? && es[j].tag == tag)
  }

  /** The elements of `es` carrying `tag`, in order. */
  function ByTag(es: seq<Node>, tag: string): (r: seq<Node>)
    requires forall k :: 0 <= k < |es| ==> es[k].Element?
    ensures |r| <= |es|
    ensures forall k :: 0 <= k < |r| ==> r[k].Element? && r[k].tag == tag && r[k] in es
    ensures HasTag(es, tag) <==> |r| > 0
    ensures |r| > 0 ==> exists k :: FirstWithTag(es, tag, k) && es[k] == r[0]
  {
    if |es| == 0 then []
    else if es[0].tag == tag then
      assert FirstWithTag(es, tag, 0);
      [es[0]] + ByTag(es[1..], tag)
    else
      FirstWithTagShift(es, tag);
      ByTag(es[1..], tag)
  }

  /** Past a first element that does not carry `tag`, the first one carrying it
      moves one place back. */
  lemma FirstWithTagShift(es: seq<Node>, tag: string)
    requires |es| > 0 && !(es[0].Element? && es[0].tag == tag)
    ensures HasTag(es, tag) <==> HasTag(es[1..], tag)
    ensures forall k :: FirstWithTag(es[1..], tag, k) ==> FirstWithTag(es, tag, k + 1)
  {
    if HasTag(es, tag) {
      var k :| 0 <= k < |es| && es[k].Element? && es[k].tag == tag;
      assert es[1..][k - 1] == es[k];
    }
    forall k | FirstWithTag(es[1..], tag, k)
      ensures FirstWithTag(es, tag, k + 1)
    {
      assert forall j :: 1 <= j < k + 1 ==> es[j] == es[1..][j - 1];
    }
  }

  /** `list.item(0)`: the first node of a list, or null for an empty list. */
  function First(list: seq<Node>): (r: Nullable<Node>)
    ensures r.Null? <==> |list| == 0
    ensures r.NonNull? ==> r.value == list[0]
  {
    if |list| == 0 then Null else NonNull(list[0])
  }

  /** `getTextContent`: the text of every descendant text node, concatenated in
      document order; comments contribute nothing. */
  function TextContent(n: Node): string
    decreases n, 1
  {
    match n
    case Element(_, _, children) => TextContents(children)
    case Text(data) => data
    case Comment(data) => data
  }

  /** The text content of a list of children: comments are skipped. */
  function TextContents(ns: seq<Node>): string
    decreases ns, 0
  {
    if |ns| == 0 then ""
    else (if ns[0].Comment? then "" else TextContent(ns[0])) + TextContents(ns[1..])
  }

  /** `getAttributes().getNamedItem(name).getTextContent()`: the attribute's value,
      or a null pointer dereference when the node is not an element (it has no
      attribute map) or lacks the attribute. */
  function Attribute(n: Node, name: string): (r: Outcome<string>)
    ensures r.Returns? <==> n.Element? && name in n.attrs
    ensures r.Returns? ==> r.value == n.attrs[name]
    ensures r.Throws? ==> r.error == NullPointer
  {
    if n.Element? && name in n.attrs then Returns(n.attrs[name]) else Throws(NullPointer)
  }

  /** The children of `ns` that are elements, in order (the nodes the loaders
      keep when they walk `getChildNodes`). */
  function ElementChildren(ns: seq<Node>): (r: seq<Node>)
    ensures |r| <= |ns|
    ensures forall k :: 0 <= k < |r| ==> r[k].Element? && r[k] in ns
    ensures forall k :: 0 <= k < |ns| && ns[k].Element? ==> ns[k] in r
  {
    if |ns| == 0 then []
    else if ns[0].Element? then [ns[0]] + ElementChildren(ns[1..])
    else ElementChildren(ns[1..])
  }

  // ---------------------------------------------------------------------------
  // Lemmas

  /** A single sibling contributes its own elements. */
  lemma ElementsOfSingle(n: Node)
    ensures Elements([n]) == ElementsOf(n)
  {
    assert [n][1..] == [];
  }

  /** The element children of one node: itself when it is an element, nothing
      otherwise. */
  lemma ElementChildrenSingle(n: Node)
    ensures ElementChildren([n]) == if n.Element? then [n] else []
  {
    assert [n][1..] == [];
  }

  /** The element children of concatenated siblings are those of each part, in
      the same order: together with `ElementChildrenSingle` this fixes both the
      order and the number of times each child is kept. */
  lemma {:induction false} ElementChildrenAppend(a: seq<Node>, b: seq<Node>)
    ensures ElementChildren(a + b) == ElementChildren(a) + ElementChildren(b)
  {
    if |a| == 0 {
      assert a + b == b;
    } else {
      assert (a + b)[1..] == a[1..] + b;
      ElementChildrenAppend(a[1..], b);
    }
  }

  /** Text content of concatenated siblings is the concatenation. */
  lemma {:induction false} TextContentsAppend(a: seq<Node>, b: seq<Node>)
    ensures TextContents(a + b) == TextContents(a) + TextContents(b)
  {
    if |a| == 0 {
      assert a + b == b;
    } else {
      assert (a + b)[1..] == a[1..] + b;
      TextContentsAppend(a[1..], b);
    }
  }

  /** An element with one text child has that text as its content. */
  lemma TextOfLeaf(tag: string, attrs: map<string, string>, data: string)
    ensures TextContent(Element(tag, attrs, [Text(data)])) == data
  {
    assert [Text(data)][1..] == [];
    assert TextContents([Text(data)]) == data + "";
  }
}
