/** The star's arena tree is built stage by stage as described, and
    rendering it gives the star's SMILES back. */
module StarArena {
  import opened Lexicon
  import opened ArenaTree
  import opened StarShape
  import opened StarTrees

  /** The path for `w` adds one node per atom, holding that atom. */
  lemma {:induction false} ChainNodes(t: Tree, top: nat, w: string)
    requires Valid(t) && top < |t.nodes|
    ensures ChainTree(t, top, w).nodes == t.nodes + Singles(w)
    decreases |w|
  {
    if |w| == 0 {
      assert t.nodes + Singles(w) == t.nodes;
    } else {
      ChainNodes(Hang(t, top, [w[0]]), |t.nodes|, w[1..]);
      SinglesCons(w);
      AppendAssoc(t.nodes, [[w[0]]], Singles(w[1..]));
    }
  }

  /** One atom hung below `top` of `t` giving `t1`, then the rest of the
      path below it giving `r`: the path starts below `top`. */
  lemma ChainChildrenStep(t: Tree, t1: Tree, r: Tree, top: nat, tail: seq<nat>)
    requires Valid(t1) && Valid(r) && top < |t.nodes| && |t1.nodes| == |t.nodes| + 1 <= |r.nodes|
    requires Children(t1, top) == Children(t, top) + [|t.nodes|]
    requires SameChildrenBelow(t, t1, |t1.nodes|, top)
    requires Children(t1, |t.nodes|) == []
    requires Children(r, |t.nodes|) == Children(t1, |t.nodes|) + tail
    requires |t1.nodes| < |r.nodes| ==> tail == [|t1.nodes|]
    requires SameChildrenBelow(t1, r, |t1.nodes|, |t.nodes|)
    requires PathFrom(r, |t1.nodes|)
    ensures Children(r, top) == Children(t, top) + [|t.nodes|]
    ensures SameChildrenBelow(t, r, |t.nodes|, top)
    ensures PathFrom(r, |t.nodes|)
  {
    var n0 := |t.nodes|;
    forall p: nat | n0 <= p < |r.nodes| - 1
      ensures Children(r, p) == [p + 1]
    {
      if p == n0 {
        assert Children(r, n0) == [] + tail;
      }
    }
  }

  /** The path for `w` is hung below `top`, each new node the only child of
      the one before; no other earlier node gains a child. */
  lemma {:induction false} ChainChildren(t: Tree, top: nat, w: string)
    requires Valid(t) && top < |t.nodes|
    ensures
      var r := ChainTree(t, top, w);
      var n0 := |t.nodes|;
      && Children(r, top) == Children(t, top) + (if |w| == 0 then [] else [n0])
      && SameChildrenBelow(t, r, n0, top)
      && PathFrom(r, n0)
    decreases |w|
  {
    if |w| == 0 {
      assert Children(t, top) + [] == Children(t, top);
    } else {
      var n0 := |t.nodes|;
      var t1 := Hang(t, top, [w[0]]);
      var r := ChainTree(t1, n0, w[1..]);
      assert r == ChainTree(t, top, w);
      ChainChildren(t1, n0, w[1..]);
      LastChildless(t1, n0);
      ChainChildrenStep(t, t1, r, top, if |w[1..]| == 0 then [] else [|t1.nodes|]);
    }
  }

  /** The branches add their atoms as nodes, in order. */
  lemma {:induction false} TwigsNodes(t: Tree, top: nat, vs: seq<string>)
    requires Valid(t) && top < |t.nodes|
    ensures TwigsTree(t, top, vs).nodes == t.nodes + Singles(Join(vs))
    decreases |vs|
  {
    if |vs| == 0 {
      assert t.nodes + Singles(Join(vs)) == t.nodes;
    } else {
      var init := vs[..|vs| - 1];
      var v := vs[|vs| - 1];
      TwigsNodes(t, top, init);
      ChainNodes(TwigsTree(t, top, init), top, v);
      SinglesAppend(Join(init), v);
      AppendAssoc(t.nodes, Singles(Join(init)), Singles(v));
    }
  }

  /** The branches start with `vs`'s first atoms, numbered on from `n0`. */
  lemma {:induction false} HeadsSnoc(n0: nat, vs: seq<string>, m: nat)
    requires 0 < |vs| && m == n0 + |Join(vs[..|vs| - 1])|
    ensures Heads(n0, vs) == Heads(n0, vs[..|vs| - 1]) + [m]
  {
  }

  /** The first atom of each branch becomes the next child of `top`. */
  lemma {:induction false} TwigsChildrenTop(t: Tree, top: nat, vs: seq<string>)
    requires Valid(t) && top < |t.nodes| && Twigs(vs)
    ensures Children(TwigsTree(t, top, vs), top) == Children(t, top) + Heads(|t.nodes|, vs)
    decreases |vs|
  {
    if |vs| == 0 {
      assert Children(t, top) + Heads(|t.nodes|, vs) == Children(t, top);
    } else {
      var init := vs[..|vs| - 1];
      var before := TwigsTree(t, top, init);
      assert |before.nodes| == |t.nodes| + |Join(init)|;
      assert Twigs(init);
      TwigsChildrenTop(t, top, init);
      HeadsSnoc(|t.nodes|, vs, |before.nodes|);
      assert TwigsTree(t, top, vs) == ChainTree(before, top, vs[|vs| - 1]);
      ChainChildren(before, top, vs[|vs| - 1]);
      AppendAssoc(Children(t, top), Heads(|t.nodes|, init), [|before.nodes|]);
    }
  }

  /** No earlier node other than `top` gains a child. */
  lemma {:induction false} TwigsChildrenOther(t: Tree, top: nat, vs: seq<string>)
    requires Valid(t) && top < |t.nodes|
    ensures SameChildrenBelow(t, TwigsTree(t, top, vs), |t.nodes|, top)
    decreases |vs|
  {
    if 0 < |vs| {
      var init := vs[..|vs| - 1];
      var before := TwigsTree(t, top, init);
      TwigsChildrenOther(t, top, init);
      ChainChildren(before, top, vs[|vs| - 1]);
      SameChildrenTrans(t, before, ChainTree(before, top, vs[|vs| - 1]), |t.nodes|, |before.nodes|, top);
    }
  }

  /** A path added at the end of the arena renders as its atoms. */
  lemma {:induction false} NewPathRenders(before: Tree, r: Tree, v: string)
    requires Valid(r) && 0 < |v| && r.nodes == before.nodes + Singles(v)
    requires PathFrom(r, |before.nodes|)
    ensures Visit(r, |before.nodes|) == v
  {
    VisitPath(r, |before.nodes|);
    assert r.nodes[|before.nodes|..] == Singles(v);
    JoinSingles(v);
  }

  /** The branches hung so far keep rendering as before once the path for
      `v` is hung after them, and that path renders as `v`. */
  lemma TwigsVisitsStep(before: Tree, r: Tree, top: nat, heads: seq<nat>, init: seq<string>, v: string)
    requires Renders(before, heads, init) && Valid(r) && 0 < |v|
    requires r.nodes == before.nodes + Singles(v)
    requires SameChildrenBelow(before, r, |before.nodes|, top)
    requires PathFrom(r, |before.nodes|)
    requires forall j :: 0 <= j < |heads| ==> top < heads[j]
    ensures Renders(r, heads + [|before.nodes|], init + [v])
  {
    assert before.nodes <= r.nodes;
    RendersCarry(before, r, top, heads, init);
    NewPathRenders(before, r, v);
    RendersSnoc(r, heads, init, |before.nodes|, v);
  }

  /** Each branch's path renders as the branch. */
  lemma {:induction false} TwigsVisits(t: Tree, top: nat, vs: seq<string>)
    requires Valid(t) && top < |t.nodes| && Twigs(vs)
    ensures Renders(TwigsTree(t, top, vs), Heads(|t.nodes|, vs), vs)
    decreases |vs|
  {
    if |vs| == 0 {
      assert Heads(|t.nodes|, vs) == [];
    } else {
      var n0 := |t.nodes|;
      var init := vs[..|vs| - 1];
      var v := vs[|vs| - 1];
      assert Twigs(init) && 0 < |v|;
      TwigsVisits(t, top, init);
      var before := TwigsTree(t, top, init);
      HeadsSnoc(n0, vs, |before.nodes|);
      TwigsVisitsSnoc(before, ChainTree(before, top, v), top, Heads(n0, init), vs, init, v);
    }
  }

  /** Hanging the path for one branch more keeps the branches hung so far
      rendering as before, and the new path renders as the branch. */
  lemma TwigsVisitsSnoc(before: Tree, r: Tree, top: nat, heads: seq<nat>, vs: seq<string>, init: seq<string>, v: string)
    requires 0 < |vs| && init == vs[..|vs| - 1] && v == vs[|vs| - 1]
    requires Valid(before) && top < |before.nodes| && 0 < |v|
    requires r == ChainTree(before, top, v)
    requires Renders(before, heads, init)
    requires forall j :: 0 <= j < |heads| ==> top < heads[j]
    ensures Renders(r, heads + [|before.nodes|], vs)
  {
    ChainChildren(before, top, v);
    ChainNodes(before, top, v);
    TwigsVisitsStep(before, r, top, heads, init, v);
    assert vs == init + [v];
  }

  /** The stem of the star is a path from the root holding `u`'s atoms. */
  lemma {:induction false} StemTree(u: string, top: nat, stem: Tree)
    requires top + 1 == |u|
    requires stem == ChainTree(Tree([[u[0]]], map[], map[], 0), 0, u[1..])
    ensures StemFacts(stem, u, top)
  {
    var root := Tree([[u[0]]], map[], map[], 0);
    assert |stem.nodes| == |u|;
    assert Children(root, 0) == [];
    SinglesCons(u);
    ChainNodes(root, 0, u[1..]);
    ChainChildren(root, 0, u[1..]);
    LastChildless(stem, top);
  }

  /** What hanging the branches below the last node `top` of `stem` adds. */
  lemma {:induction false} TwigsStage(stem: Tree, vs: seq<string>, top: nat, twigs: Tree)
    requires Valid(stem) && top + 1 == |stem.nodes| && Twigs(vs)
    requires twigs == TwigsTree(stem, top, vs)
    ensures TwigsFacts(stem, twigs, vs, top)
  {
    TwigsNodes(stem, top, vs);
    TwigsChildrenTop(stem, top, vs);
    TwigsChildrenOther(stem, top, vs);
    TwigsVisits(stem, top, vs);
  }

  /** What hanging `z` below node `top` of `twigs` adds. */
  lemma {:induction false} ChainStage(twigs: Tree, top: nat, z: string, t: Tree)
    requires Valid(twigs) && top < |twigs.nodes| && 0 < |z|
    requires t == ChainTree(twigs, top, z)
    ensures ChainFacts(twigs, t, top, z)
  {
    ChainNodes(twigs, top, z);
    ChainChildren(twigs, top, z);
  }

  /** The stem's chain and the branches survive the later stages. */
  lemma {:induction false} StarTreeCarry(u: string, vs: seq<string>, z: string, stem: Tree, twigs: Tree, t: Tree, top: nat)
    requires StemFacts(stem, u, top) && TwigsFacts(stem, twigs, vs, top) && ChainFacts(twigs, t, top, z)
    ensures ChainBetween(t, 0, top) && Renders(t, Heads(|stem.nodes|, vs), vs)
  {
    ChainCarries(stem, twigs, 0, top, |stem.nodes|, top);
    ChainCarries(twigs, t, 0, top, |twigs.nodes|, top);
    assert twigs.nodes <= t.nodes;
    RendersCarry(twigs, t, top, Heads(|stem.nodes|, vs), vs);
  }

  /** The stem, then the branches, then `z`, each stage described by what
      it adds, make up the star tree. */
  lemma {:induction false} StarTreeAssemble(u: string, vs: seq<string>, z: string, stem: Tree, twigs: Tree, t: Tree, top: nat)
    requires StemFacts(stem, u, top) && TwigsFacts(stem, twigs, vs, top) && ChainFacts(twigs, t, top, z)
    ensures StarTree(t, u, vs, z, top, Heads(|stem.nodes|, vs), Join(vs), |twigs.nodes|)
  {
    assert |twigs.nodes| == |u| + |Join(vs)|;
    ChildrenSettle(Children(stem, top), Children(twigs, top), Children(t, top), Heads(|stem.nodes|, vs), |twigs.nodes|);
    NodesSettle(stem.nodes, twigs.nodes, t.nodes, Singles(u), Singles(Join(vs)), Singles(z));
    StarTreeCarry(u, vs, z, stem, twigs, t, top);
  }

  /** The children the stem's last atom ends with: none of its own, then
      the branches' heads, then the head of `z`. */
  lemma ChildrenSettle(c0: seq<nat>, c1: seq<nat>, c2: seq<nat>, heads: seq<nat>, x: nat)
    requires c0 == [] && c1 == c0 + heads && c2 == c1 + [x]
    ensures c2 == heads + [x]
  {
    assert c0 + heads == heads;
  }

  /** The nodes of the three stages, one after the other. */
  lemma NodesSettle(n0: seq<string>, n1: seq<string>, n2: seq<string>, a: seq<string>, b: seq<string>, c: seq<string>)
    requires n0 == a && n1 == n0 + b && n2 == n1 + c
    ensures n2 == a + b + c
  {
  }


  /** Where the stem, its last atom and `z` sit among the star's nodes. */
  lemma StarTreeParts(nodes: seq<string>, u: string, mid: string, z: string, top: nat, nz: nat)
    requires top + 1 == |u| && nz == |u| + |mid| && nodes == Singles(u) + Singles(mid) + Singles(z)
    ensures nz <= |nodes|
    ensures nodes[0..top] == Singles(u[..top])
    ensures nodes[top] == [u[top]]
    ensures nodes[nz..] == Singles(z)
  {
  }

  lemma LastSplit(u: string, p: string, z: string, top: nat)
    requires top + 1 == |u|
    ensures u[..top] + ([u[top]] + p + z) == u + p + z
  {
    assert u == u[..top] + [u[top]];
  }

  /** Children that render as the branches `vs` are written as
      `(v1)(v2)...`. */
  lemma {:induction false} BranchesRender(t: Tree, n: nat, kids: seq<nat>, vs: seq<string>)
    requires n < |t.nodes| && Renders(t, kids, vs)
    requires forall j :: 0 <= j < |kids| ==> n < kids[j]
    ensures forall j :: 0 <= j < |kids| ==> n < kids[j] < |t.nodes|
    ensures Branches(t, n, kids) == Parenthesised(vs)
    decreases |kids|
  {
    if 0 < |kids| {
      var m := |kids| - 1;
      assert Renders(t, kids[..m], vs[..m]) by {
        forall j | 0 <= j < m
          ensures kids[..m][j] < |t.nodes| && Visit(t, kids[..m][j]) == vs[..m][j]
        {
          assert kids[..m][j] == kids[j] && vs[..m][j] == vs[j];
        }
      }
      BranchesRender(t, n, kids[..m], vs[..m]);
    }
  }

  /** A node whose children render as `v1`, ..., `vk` and, last, `z`
      renders as its own text, then `(v1)...(vk)`, then `z`. */
  lemma {:induction false} ParentRenders(t: Tree, n: nat, kids: seq<nat>, last: nat, vs: seq<string>, z: string)
    requires n < |t.nodes| && last < |t.nodes| && Children(t, n) == kids + [last]
    requires Renders(t, kids, vs) && Visit(t, last) == z
    ensures Visit(t, n) == t.nodes[n] + Parenthesised(vs) + z
  {
    ChildrenAfter(t, n, kids, last);
    var all := kids + [last];
    if |kids| == 0 {
      assert all == [last];
      assert vs == [];
    } else {
      assert all[..|all| - 1] == kids;
      BranchesRender(t, n, kids, vs);
    }
  }

  /** The star tree renders as `u(v1)...(vk)z`: the stem's path in order,
      every branch but the last child of its last atom in parentheses and
      `z`, the last child, bare. */
  lemma {:induction false} StarTreeRenders(t: Tree, u: string, vs: seq<string>, z: string, top: nat, heads: seq<nat>, mid: string, nz: nat)
    requires StarTree(t, u, vs, z, top, heads, mid, nz) && 0 < |z|
    ensures 0 < |t.nodes| && ToSmiles(t) == StarSmiles(u, vs, z)
  {
    StarTreeParts(t.nodes, u, mid, z, top, nz);
    JoinSingles(u[..top]);
    JoinSingles(z);
    VisitPath(t, nz);
    ParentRenders(t, top, heads, nz, vs, z);
    VisitChain(t, 0, top);
    LastSplit(u, Parenthesised(vs), z, top);
  }

  /** The tree of `u(v1)...(vk)z`, built stage by stage, renders as that
      SMILES. */
  lemma StarTreeSmiles(u: string, vs: seq<string>, z: string)
    requires Star(u, vs, z)
    ensures 0 < |StarTreeOf(u, vs, z).nodes| && ToSmiles(StarTreeOf(u, vs, z)) == StarSmiles(u, vs, z)
  {
    var top := |u| - 1;
    var stem := ChainTree(Tree([[u[0]]], map[], map[], 0), 0, u[1..]);
    StemTree(u, top, stem);
    var twigs := TwigsTree(stem, top, vs);
    TwigsStage(stem, vs, top, twigs);
    var t := ChainTree(twigs, top, z);
    assert t == StarTreeOf(u, vs, z);
    ChainStage(twigs, top, z, t);
    StarTreeAssemble(u, vs, z, stem, twigs, t, top);
    StarTreeRenders(t, u, vs, z, top, Heads(|stem.nodes|, vs), Join(vs), |twigs.nodes|);
  }
}
