/** The `Tree` of the branch decoder: an arena of node texts addressed by
    index, a child list per node (`edges`), a parent per node
    (`rev_edges`) and the counter of ring-closure numbers handed out so far
    (`rc_digit`). */
module ArenaTree {
  import opened Lexicon

  datatype Tree = Tree(nodes: seq<string>, edges: map<nat, seq<nat>>, parent: map<nat, nat>, rcDigit: nat)

  const Empty := Tree([], map[], map[], 0)

  /** The children of `n` in the order they were added (a
      `defaultdict(list)` lookup). */
  function Children(t: Tree, n: nat): seq<nat>
  {
    if n in t.edges then t.edges[n] else []
  }

  /** Every edge runs from a smaller index to a larger one below `bound`. */
  predicate EdgesBelow(edges: map<nat, seq<nat>>, bound: int)
  {
    forall p, k :: p in edges && 0 <= k < |edges[p]| ==> p < edges[p][k] < bound
  }

  /** Every parent is a smaller index than its child, below `bound`. */
  predicate ParentsBelow(parent: map<nat, nat>, bound: int)
  {
    forall c :: c in parent ==> parent[c] < c < bound
  }

  /** The parent map is the inverse of the child lists. */
  predicate Inverse(edges: map<nat, seq<nat>>, parent: map<nat, nat>)
  {
    forall p, k :: p in edges && 0 <= k < |edges[p]| ==> edges[p][k] in parent && parent[edges[p][k]] == p
  }

  predicate Linked(edges: map<nat, seq<nat>>, parent: map<nat, nat>, bound: int)
  {
    EdgesBelow(edges, bound) && ParentsBelow(parent, bound) && Inverse(edges, parent)
  }

  /** The links of the tree stay inside the arena. */
  predicate Valid(t: Tree)
  {
    Linked(t.edges, t.parent, |t.nodes|)
  }

  /** Node texts and the counter may change and nodes may be added without
      disturbing the links. */
  lemma SameLinks(t: Tree, u: Tree)
    requires u.edges == t.edges && u.parent == t.parent && |t.nodes| <= |u.nodes|
    ensures Valid(t) ==> Valid(u)
  {
    if Valid(t) {
      LinkedGrows(t.edges, t.parent, |t.nodes|, |u.nodes|);
    }
  }

  /** Raising the bound keeps the links inside it. */
  lemma LinkedGrows(edges: map<nat, seq<nat>>, parent: map<nat, nat>, b1: int, b2: int)
    requires Linked(edges, parent, b1) && b1 <= b2
    ensures Linked(edges, parent, b2)
  {
    forall p, k | p in edges && 0 <= k < |edges[p]|
      ensures p < edges[p][k] < b2
    {
      assert p < edges[p][k] < b1;
    }
    forall c | c in parent
      ensures parent[c] < c < b2
    {
      assert parent[c] < c < b1;
    }
  }

  /** `add_node`: the text is appended and its index, the previous node
      count, returned. */
  function AddNode(t: Tree, text: string): (r: (Tree, nat))
    ensures r.1 == |t.nodes|
    ensures r.0.nodes == t.nodes + [text]
    ensures r.0.edges == t.edges && r.0.parent == t.parent && r.0.rcDigit == t.rcDigit
    ensures Valid(t) ==> Valid(r.0)
  {
    var r := t.(nodes := t.nodes + [text]);
    SameLinks(t, r);
    (r, |t.nodes|)
  }

  /** `add_edge`: `to` becomes the last child of `from` and `from` its
      parent. */
  function AddEdge(t: Tree, from: nat, to: nat): (r: Tree)
    requires Valid(t) && from < to < |t.nodes| && to !in t.parent
    ensures Valid(r)
    ensures Children(r, from) == Children(t, from) + [to]
    ensures forall n: nat :: n != from ==> Children(r, n) == Children(t, n)
    ensures r.parent == t.parent[to := from]
    ensures r.nodes == t.nodes && r.rcDigit == t.rcDigit
  {
    var r := t.(edges := t.edges[from := Children(t, from) + [to]], parent := t.parent[to := from]);
    LinkEdge(t.edges, t.parent, |t.nodes|, from, to);
    r
  }

  /** A new edge from an earlier node to a parentless later one keeps the
      links consistent. */
  lemma LinkEdge(edges: map<nat, seq<nat>>, parent: map<nat, nat>, bound: int, from: nat, to: nat)
    requires Linked(edges, parent, bound) && from < to < bound && to !in parent
    ensures
      var kids := if from in edges then edges[from] else [];
      Linked(edges[from := kids + [to]], parent[to := from], bound)
  {
    var kids := if from in edges then edges[from] else [];
    var e2 := edges[from := kids + [to]];
    var p2 := parent[to := from];
    forall p, k | p in e2 && 0 <= k < |e2[p]|
      ensures p < e2[p][k] < bound
      ensures e2[p][k] in p2 && p2[e2[p][k]] == p
    {
      if p == from && k == |kids| {
        assert e2[p][k] == to;
      } else {
        var c := e2[p][k];
        assert p in edges && k < |edges[p]| && c == edges[p][k];
        assert p < c < bound && c in parent && parent[c] == p;
        assert c != to;
      }
    }
    forall c | c in p2
      ensures p2[c] < c < bound
    {
      if c != to {
        assert c in parent && p2[c] == parent[c];
      }
    }
  }

  /** The number of parent links above `n`. */
  function AncestorCount(t: Tree, n: nat): nat
    requires Valid(t)
    decreases n
  {
    if n in t.parent then 1 + AncestorCount(t, t.parent[n]) else 0
  }

  /** Follow `k` parent links up from `n`; `None` when the chain is
      shorter. */
  function Walk(t: Tree, n: nat, k: nat): (r: Option<nat>)
    requires Valid(t) && n < |t.nodes|
    ensures r.Some? <==> k <= AncestorCount(t, n)
    ensures r.Some? ==> r.value <= n && AncestorCount(t, r.value) == AncestorCount(t, n) - k
    ensures r.Some? && 0 < k ==> r.value < n
    decreases k
  {
    if k == 0 then Some(n)
    else if n in t.parent then Walk(t, t.parent[n], k - 1)
    else None
  }

  /** The number of parent links `add_ring_closure` follows for ring
      size `rc`: `range(rc - 1)` is empty for `rc <= 1`. */
  function LinksFor(rc: int): nat
  {
    if rc <= 1 then 0 else rc - 1
  }

  /** `add_ring_closure`: walk `rc - 1` parent links up from `from`. If
      the chain is too short nothing changes and the result is `None` (the
      source returns False). Otherwise the next ring-closure number is
      taken and written after both ends: with the bond character at `from`
      (the closing atom), bare at the atom reached (the opening atom). */
  function AddRingClosure(t: Tree, from: nat, rc: int, bond: string): (r: Option<Tree>)
    requires Valid(t) && from < |t.nodes|
    ensures r.None? <==> AncestorCount(t, from) < LinksFor(rc)
    ensures r.Some? ==>
      var sym := FormatRingNumber(t.rcDigit + 1);
      var opening := Walk(t, from, LinksFor(rc)).value;
      && Valid(r.value)
      && r.value.rcDigit == t.rcDigit + 1
      && r.value.edges == t.edges && r.value.parent == t.parent
      && |r.value.nodes| == |t.nodes|
      && (opening != from ==> r.value.nodes[from] == t.nodes[from] + bond + sym
                              && r.value.nodes[opening] == t.nodes[opening] + sym)
      && (opening == from ==> r.value.nodes[from] == t.nodes[from] + bond + sym + sym)
      && (forall n :: 0 <= n < |t.nodes| && n != from && n != opening ==> r.value.nodes[n] == t.nodes[n])
  {
    match Walk(t, from, LinksFor(rc))
    case None => None
    case Some(opening) =>
      var sym := FormatRingNumber(t.rcDigit + 1);
      var nodes1 := t.nodes[from := t.nodes[from] + bond + sym];
      var nodes2 := nodes1[opening := nodes1[opening] + sym];
      var r := t.(nodes := nodes2, rcDigit := t.rcDigit + 1);
      SameLinks(t, r);
      assert opening != from ==> nodes2[from] == t.nodes[from] + bond + sym && nodes2[opening] == t.nodes[opening] + sym;
      assert opening == from ==> nodes2[from] == t.nodes[from] + bond + sym + sym;
      assert forall n :: 0 <= n < |t.nodes| && n != from && n != opening ==> nodes2[n] == t.nodes[n];
      Some(r)
  }

  /** The DFS of `to_smiles` from node `n`: the node's text, then every
      child but the last in parentheses, then the last child bare. */
  function Visit(t: Tree, n: nat): string
    requires Valid(t) && n < |t.nodes|
    decreases |t.nodes| - n, 1
  {
    var kids := Children(t, n);
    if |kids| == 0 then t.nodes[n]
    else if |kids| == 1 then t.nodes[n] + Visit(t, kids[0])
    else t.nodes[n] + Branches(t, n, kids[..|kids| - 1]) + Visit(t, kids[|kids| - 1])
  }

  /** The parenthesised children of `n`. */
  function Branches(t: Tree, n: nat, kids: seq<nat>): string
    requires Valid(t) && n < |t.nodes|
    requires forall k :: 0 <= k < |kids| ==> n < kids[k] < |t.nodes|
    decreases |t.nodes| - n, 0, |kids|
  {
    if |kids| == 0 then ""
    else Branches(t, n, kids[..|kids| - 1]) + "(" + Visit(t, kids[|kids| - 1]) + ")"
  }

  /** Below `bound`, every node but `top` has the same children in `r` as
      in `t`. */
  predicate SameChildrenBelow(t: Tree, r: Tree, bound: nat, top: nat)
  {
    forall p: nat :: p < bound && p != top ==> Children(r, p) == Children(t, p)
  }

  /** Every node from `lo` up to, not including, `hi` has the next one as
      its only child. */
  predicate ChainBetween(t: Tree, lo: nat, hi: int)
  {
    forall p: nat :: lo <= p < hi ==> Children(t, p) == [p + 1]
  }

  /** From node `lo` on, every node of `t` but the last has the next one as
      its only child. */
  predicate PathFrom(t: Tree, lo: nat)
  {
    ChainBetween(t, lo, |t.nodes| - 1)
  }

  /** The subtree at each `heads[j]` renders as `vs[j]`. */
  predicate Renders(t: Tree, heads: seq<nat>, vs: seq<string>)
  {
    && Valid(t) && |heads| == |vs|
    && forall j :: 0 <= j < |vs| ==> heads[j] < |t.nodes| && Visit(t, heads[j]) == vs[j]
  }

  /** Keeping the child lists below `b1` twice keeps them once. */
  lemma SameChildrenTrans(t: Tree, m: Tree, r: Tree, b1: nat, b2: nat, top: nat)
    requires SameChildrenBelow(t, m, b1, top) && SameChildrenBelow(m, r, b2, top) && b1 <= b2
    ensures SameChildrenBelow(t, r, b1, top)
  {
  }

  /** A chain survives in a tree that keeps the chain's child lists. */
  lemma ChainCarries(t: Tree, r: Tree, lo: nat, hi: int, bound: nat, top: nat)
    requires ChainBetween(t, lo, hi) && SameChildrenBelow(t, r, bound, top)
    requires hi <= bound && (top < lo || hi <= top)
    ensures ChainBetween(r, lo, hi)
  {
  }

  /** Subtrees that render as `vs` render alike in a tree that extends `t`
      after them and keeps their nodes' child lists. */
  lemma RendersCarry(t: Tree, r: Tree, top: nat, heads: seq<nat>, vs: seq<string>)
    requires Renders(t, heads, vs) && Valid(r) && t.nodes <= r.nodes
    requires SameChildrenBelow(t, r, |t.nodes|, top)
    requires forall j :: 0 <= j < |heads| ==> top < heads[j]
    ensures Renders(r, heads, vs)
  {
    forall j | 0 <= j < |vs|
      ensures heads[j] < |r.nodes| && Visit(r, heads[j]) == vs[j]
    {
      var h := heads[j];
      forall p | h <= p < |t.nodes|
        ensures r.nodes[p] == t.nodes[p] && Children(r, p) == Children(t, p)
      {
        assert r.nodes[..|t.nodes|] == t.nodes;
      }
      VisitFrame(t, r, h);
    }
  }

  /** One more subtree, rendering as `w`, at `h`. */
  lemma {:induction false} RendersSnoc(t: Tree, heads: seq<nat>, vs: seq<string>, h: nat, w: string)
    requires Renders(t, heads, vs) && h < |t.nodes| && Visit(t, h) == w
    ensures Renders(t, heads + [h], vs + [w])
  {
    var hs := heads + [h];
    var ws := vs + [w];
    forall j | 0 <= j < |ws|
      ensures hs[j] < |t.nodes| && Visit(t, hs[j]) == ws[j]
    {
      if j < |vs| {
        assert hs[j] == heads[j] && ws[j] == vs[j];
      }
    }
  }

  /** The last node of a valid tree has no children yet. */
  lemma LastChildless(t: Tree, n: nat)
    requires Valid(t) && |t.nodes| <= n + 1
    ensures Children(t, n) == []
  {
    ChildrenAbove(t, n);
  }

  /** The first child of `n` is a later node of the arena. */
  lemma ChildrenAbove(t: Tree, n: nat)
    requires Valid(t)
    ensures 0 < |Children(t, n)| ==> n < Children(t, n)[0] < |t.nodes|
  {
  }

  /** Every child of `n` is a later node of the arena. */
  lemma ChildrenAfter(t: Tree, n: nat, kids: seq<nat>, last: nat)
    requires Valid(t) && Children(t, n) == kids + [last]
    ensures n < last < |t.nodes|
    ensures forall j :: 0 <= j < |kids| ==> n < kids[j] < |t.nodes|
  {
    var all := kids + [last];
    assert all[|kids|] == last;
    forall j | 0 <= j < |kids|
      ensures n < kids[j] < |t.nodes|
    {
      assert all[j] == kids[j];
    }
  }

  /** The rendering from `n` reads only `n` and later nodes: a tree that
      agrees with `t` on their texts and child lists renders `n` alike,
      whatever it adds after them. */
  lemma {:induction false} VisitFrame(t: Tree, u: Tree, n: nat)
    requires Valid(t) && Valid(u) && n < |t.nodes| <= |u.nodes|
    requires forall p :: n <= p < |t.nodes| ==> u.nodes[p] == t.nodes[p] && Children(u, p) == Children(t, p)
    ensures Visit(u, n) == Visit(t, n)
    decreases |t.nodes| - n, 1
  {
    var kids := Children(t, n);
    assert forall k :: 0 <= k < |kids| ==> n < kids[k] < |t.nodes|;
    if |kids| == 1 {
      VisitFrame(t, u, kids[0]);
    } else if 1 < |kids| {
      BranchesFrame(t, u, n, kids[..|kids| - 1]);
      VisitFrame(t, u, kids[|kids| - 1]);
    }
  }

  lemma {:induction false} BranchesFrame(t: Tree, u: Tree, n: nat, kids: seq<nat>)
    requires Valid(t) && Valid(u) && n < |t.nodes| <= |u.nodes|
    requires forall p :: n <= p < |t.nodes| ==> u.nodes[p] == t.nodes[p] && Children(u, p) == Children(t, p)
    requires forall k :: 0 <= k < |kids| ==> n < kids[k] < |t.nodes|
    ensures Branches(u, n, kids) == Branches(t, n, kids)
    decreases |t.nodes| - n, 0, |kids|
  {
    if 0 < |kids| {
      BranchesFrame(t, u, n, kids[..|kids| - 1]);
      VisitFrame(t, u, kids[|kids| - 1]);
    }
  }

  /** A node whose only child is the next one renders as its text followed
      by that child's rendering. */
  lemma VisitOnlyChild(t: Tree, n: nat)
    requires Valid(t) && n + 1 < |t.nodes| && Children(t, n) == [n + 1]
    ensures Visit(t, n) == t.nodes[n] + Visit(t, n + 1)
  {
  }

  /** Along a path where every node has the next one as its only child,
      the rendering is the path's texts in order followed by the rendering
      of its end. */
  lemma {:induction false} VisitChain(t: Tree, x: nat, y: nat)
    requires Valid(t) && x <= y < |t.nodes| && ChainBetween(t, x, y)
    ensures Visit(t, x) == Join(t.nodes[x..y]) + Visit(t, y)
    decreases y - x
  {
    if x == y {
      assert t.nodes[x..y] == [];
      EmptyPrefix(Visit(t, y));
    } else {
      VisitChain(t, x, y - 1);
      JoinSlice(t.nodes, x, y);
      VisitOnlyChild(t, y - 1);
      AppendAssoc(Join(t.nodes[x..y - 1]), t.nodes[y - 1], Visit(t, y));
    }
  }

  /** A path that runs to the last node renders as the concatenation of
      its texts. */
  lemma {:induction false} VisitPath(t: Tree, x: nat)
    requires Valid(t) && x < |t.nodes| && PathFrom(t, x)
    ensures Visit(t, x) == Join(t.nodes[x..])
  {
    var n := |t.nodes|;
    var y := n - 1;
    VisitChain(t, x, y);
    LastChildless(t, y);
    assert Visit(t, y) == t.nodes[y];
    JoinLast(t.nodes, x, y, n);
    assert t.nodes[x..] == t.nodes[x..n];
  }

  /** `to_smiles`: the DFS from node 0. */
  function ToSmiles(t: Tree): string
    requires Valid(t) && 0 < |t.nodes|
  {
    Visit(t, 0)
  }
}
