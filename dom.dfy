/** The host page's DOM as the content script sees it: a snapshot taken at the
    start of a pass. Element identity, attributes, light-DOM children, an
    optional attached shadow root, and what reading an iframe's document gives.
    CSS selector matching is abstract: an element records which of the
    script's fixed selectors it satisfies. */
module Dom {

  datatype Option<+T> = None | Some(value: T)

  /** The selectors content.js passes to querySelectorAll. */
  datatype Selector =
    | DetailButton    // input[type="button"].detail[title="..."]
    | ContinueButton  // input[type="button"]#btnContinue.button[name=..][value=..][onclick="onNewClick()"]
    | RadioInput      // input[type="radio"][id^="rb"]
    | IFrame          // iframe
    | Universal       // *

  /** What `iframe.contentDocument || iframe.contentWindow.document` yields:
      a document, a falsy value, or an exception (cross-origin access). */
  datatype FrameAccess = Loaded(doc: Root) | NoDocument | Throws

  /** A document or a shadow root: the sequence of its top-level elements. */
  datatype Root = Root(nodes: seq<Node>)

  /** An element. `key` is its object identity (two distinct elements may
      agree on every attribute); `frame` is consulted only for elements the
      script found with the `iframe` selector. */
  datatype Node = Node(
    key: nat,
    id: string,
    onclick: Option<string>,
    matches: set<Selector>,
    children: seq<Node>,
    shadow: Option<Root>,
    frame: FrameAccess)

  predicate Matches(n: Node, sel: Selector)
  {
    sel == Universal || sel in n.matches
  }

  /** Light-DOM descendants of a forest in document (pre-)order. Shadow trees
      and iframe documents are not entered, as with querySelectorAll. */
  function Descendants(f: seq<Node>): seq<Node>
    decreases f
  {
    if f == [] then [] else [f[0]] + Descendants(f[0].children) + Descendants(f[1..])
  }

  /** The elements of `s` that match `sel`, in the order of `s`. */
  function Select(sel: Selector, s: seq<Node>): (r: seq<Node>)
    ensures |r| <= |s|
    ensures forall n :: n in r <==> n in s && Matches(n, sel)
  {
    if s == [] then []
    else (if Matches(s[0], sel) then [s[0]] else []) + Select(sel, s[1..])
  }

  /** `root.querySelectorAll(sel)`: the matching light-DOM descendants of
      `root` in document order. */
  function Query(sel: Selector, root: Root): (r: seq<Node>)
    ensures forall n :: n in r <==> n in Descendants(root.nodes) && Matches(n, sel)
  {
    Select(sel, Descendants(root.nodes))
  }

  // Sizes: a termination measure for recursion through shadow roots and
  // iframe documents, which are nested inside the elements that host them.

  function NodeSize(n: Node): nat
    decreases n
  {
    1 + ForestSize(n.children)
      + (match n.shadow case Some(r) => RootSize(r) case None => 0)
      + (match n.frame case Loaded(d) => RootSize(d) case _ => 0)
  }

  function RootSize(r: Root): nat
    decreases r
  {
    ForestSize(r.nodes)
  }

  function ForestSize(f: seq<Node>): nat
    decreases f
  {
    if f == [] then 0 else NodeSize(f[0]) + ForestSize(f[1..])
  }

  lemma {:induction false} DescendantSize(f: seq<Node>, d: Node)
    requires d in Descendants(f)
    ensures NodeSize(d) <= ForestSize(f)
    decreases f
  {
    if d != f[0] {
      if d in Descendants(f[0].children) {
        DescendantSize(f[0].children, d);
      } else {
        DescendantSize(f[1..], d);
      }
    }
  }

  /** A shadow root hosted by a descendant is smaller than the root. */
  lemma ShadowBelow(root: Root, h: Node)
    requires h in Descendants(root.nodes) && h.shadow.Some?
    ensures RootSize(h.shadow.value) < RootSize(root)
  {
    DescendantSize(root.nodes, h);
  }

  /** A document loaded in a descendant iframe is smaller than the root. */
  lemma FrameBelow(root: Root, h: Node)
    requires h in Descendants(root.nodes) && h.frame.Loaded?
    ensures RootSize(h.frame.doc) < RootSize(root)
  {
    DescendantSize(root.nodes, h);
  }
}
