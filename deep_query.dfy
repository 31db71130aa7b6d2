/** querySelectorAllDeep: a selector search that also descends into the
    shadow roots attached to descendants, in the order content.js builds it. */
module DeepQuery {
  import opened Dom

  /** The root's light-DOM matches, followed, for every light-DOM descendant
      in document order that hosts a shadow root, by the deep matches inside
      that shadow root. */
  function QuerySelectorAllDeep(sel: Selector, root: Root): (r: seq<Node>)
    decreases RootSize(root), 1
  {
    Query(sel, root) + ShadowMatches(sel, root, Query(Universal, root))
  }

  /** The loop over `root.querySelectorAll('*')`: each host's deep matches,
      concatenated in the order of `hosts`. */
  function ShadowMatches(sel: Selector, ghost root: Root, hosts: seq<Node>): (r: seq<Node>)
    requires forall h :: h in hosts ==> h in Descendants(root.nodes)
    decreases RootSize(root), 0, |hosts|
  {
    if hosts == [] then []
    else
      var rest := ShadowMatches(sel, root, hosts[1..]);
      match hosts[0].shadow
      case None => rest
      case Some(s) =>
        ShadowBelow(root, hosts[0]);
        QuerySelectorAllDeep(sel, s) + rest
  }

  /** Reference semantics: the elements of the composed tree below a forest,
      reached through children and attached shadow roots (not iframes). */
  ghost function DeepNodes(f: seq<Node>): set<Node>
    decreases f
  {
    if f == [] then {}
    else
      {f[0]} + DeepNodes(f[0].children)
        + (match f[0].shadow case Some(s) => DeepNodes(s.nodes) case None => {})
        + DeepNodes(f[1..])
  }

  /** An element of the composed tree is a light-DOM descendant or lies in
      the composed tree of a shadow root hosted by one. */
  lemma {:induction false} DeepNodesByHost(f: seq<Node>)
    ensures forall x :: x in DeepNodes(f) <==>
      x in Descendants(f) ||
      exists h :: h in Descendants(f) && h.shadow.Some? && x in DeepNodes(h.shadow.value.nodes)
    decreases f
  {
    if f != [] {
      DeepNodesByHost(f[0].children);
      DeepNodesByHost(f[1..]);
      var d := Descendants(f);
      assert d == [f[0]] + Descendants(f[0].children) + Descendants(f[1..]);
      forall x | x in DeepNodes(f)
        ensures x in d || exists h :: h in d && h.shadow.Some? && x in DeepNodes(h.shadow.value.nodes)
      {
        if f[0].shadow.Some? && x in DeepNodes(f[0].shadow.value.nodes) {
          assert f[0] in d;
        }
      }
      forall x, h | h in d && h.shadow.Some? && x in DeepNodes(h.shadow.value.nodes)
        ensures x in DeepNodes(f)
      {
        if h != f[0] && h !in Descendants(f[0].children) {
          assert h in Descendants(f[1..]);
        }
      }
    }
  }

  /** The deep query returns exactly the elements of the composed tree that
      match the selector. */
  lemma {:induction false} DeepQueryMembers(sel: Selector, root: Root)
    ensures forall x :: x in QuerySelectorAllDeep(sel, root) <==>
      x in DeepNodes(root.nodes) && Matches(x, sel)
    decreases RootSize(root), 1
  {
    var hosts := Query(Universal, root);
    ShadowMatchesMembers(sel, root, hosts);
    DeepNodesByHost(root.nodes);
  }

  lemma {:induction false} ShadowMatchesMembers(sel: Selector, root: Root, hosts: seq<Node>)
    requires forall h :: h in hosts ==> h in Descendants(root.nodes)
    ensures forall x :: x in ShadowMatches(sel, root, hosts) <==>
      Matches(x, sel) &&
      exists h :: h in hosts && h.shadow.Some? && x in DeepNodes(h.shadow.value.nodes)
    decreases RootSize(root), 0, |hosts|
  {
    if hosts != [] {
      ShadowMatchesMembers(sel, root, hosts[1..]);
      if hosts[0].shadow.Some? {
        ShadowBelow(root, hosts[0]);
        DeepQueryMembers(sel, hosts[0].shadow.value);
      }
      forall x, h | Matches(x, sel) && h in hosts && h.shadow.Some? && x in DeepNodes(h.shadow.value.nodes)
        ensures x in ShadowMatches(sel, root, hosts)
      {
        if h != hosts[0] {
          assert h in hosts[1..];
        }
      }
    }
  }

  /** The result is empty exactly when nothing in the composed tree matches. */
  lemma DeepQueryEmpty(sel: Selector, root: Root)
    ensures QuerySelectorAllDeep(sel, root) == [] <==>
      forall x :: x in DeepNodes(root.nodes) ==> !Matches(x, sel)
  {
    DeepQueryMembers(sel, root);
    var r := QuerySelectorAllDeep(sel, root);
    if r != [] {
      assert r[0] in r;
    }
  }

  /** A root with no light-DOM match and no shadow host yields nothing. */
  lemma NoMatchNoHostIsEmpty(sel: Selector, root: Root)
    requires Query(sel, root) == []
    requires forall h :: h in Descendants(root.nodes) ==> h.shadow.None?
    ensures QuerySelectorAllDeep(sel, root) == []
  {
    NoHostsNoMatches(sel, root, Query(Universal, root));
  }

  lemma {:induction false} NoHostsNoMatches(sel: Selector, root: Root, hosts: seq<Node>)
    requires forall h :: h in hosts ==> h in Descendants(root.nodes) && h.shadow.None?
    ensures ShadowMatches(sel, root, hosts) == []
    decreases |hosts|
  {
    if hosts != [] {
      NoHostsNoMatches(sel, root, hosts[1..]);
    }
  }

  /** Ordering across hosts: splitting the host list splits the result, so
      every match found under an earlier host precedes those of later hosts. */
  lemma {:induction false} ShadowMatchesAppend(sel: Selector, root: Root, a: seq<Node>, b: seq<Node>)
    requires forall h :: h in a + b ==> h in Descendants(root.nodes)
    ensures ShadowMatches(sel, root, a + b) == ShadowMatches(sel, root, a) + ShadowMatches(sel, root, b)
    decreases |a|
  {
    if a != [] {
      assert (a + b)[1..] == a[1..] + b;
      ShadowMatchesAppend(sel, root, a[1..], b);
    } else {
      assert a + b == b;
    }
  }
}
