/** The arena tree the branch decoder builds for `u(v1)...(vk)z`: the stem
    `u` as a path from the root, then each branch and `z` as a path hung
    below the stem's last atom, and the facts each stage of building it
    establishes. */
module StarTrees {
  import opened Lexicon
  import opened ArenaTree

  /** `add_node` followed by `add_edge` from `top`. */
  function Hang(t: Tree, top: nat, text: string): (r: Tree)
    requires Valid(t) && top < |t.nodes|
    ensures Valid(r) && r.nodes == t.nodes + [text] && r.rcDigit == t.rcDigit
    ensures Children(r, top) == Children(t, top) + [|t.nodes|]
    ensures SameChildrenBelow(t, r, |r.nodes|, top)
  {
    var (t1, idx) := AddNode(t, text);
    assert idx !in t1.parent;
    AddEdge(t1, top, idx)
  }

  /** The first node of each branch, for branches whose nodes are numbered
      from `n0` on. */
  function Heads(n0: nat, vs: seq<string>): (r: seq<nat>)
    ensures |r| == |vs|
    ensures forall j :: 0 <= j < |vs| ==> n0 <= r[j]
  {
    if |vs| == 0 then [] else Heads(n0, vs[..|vs| - 1]) + [n0 + |Join(vs[..|vs| - 1])|]
  }

  /** The tree after the atoms of `w` are hung below `top`, each below
      the one before. */
  function ChainTree(t: Tree, top: nat, w: string): (r: Tree)
    requires Valid(t) && top < |t.nodes|
    ensures Valid(r) && |r.nodes| == |t.nodes| + |w| && r.rcDigit == t.rcDigit
    decreases |w|
  {
    if |w| == 0 then t else ChainTree(Hang(t, top, [w[0]]), |t.nodes|, w[1..])
  }

  /** The tree after each branch of `vs` is hung below `top` as a path. */
  function TwigsTree(t: Tree, top: nat, vs: seq<string>): (r: Tree)
    requires Valid(t) && top < |t.nodes|
    ensures Valid(r) && |r.nodes| == |t.nodes| + |Join(vs)|
    decreases |vs|
  {
    if |vs| == 0 then t else ChainTree(TwigsTree(t, top, vs[..|vs| - 1]), top, vs[|vs| - 1])
  }

  /** The tree of `u(v1)...(vk)z`: the stem as a path from the root, then
      the branches and `z` as paths below the stem's last atom. */
  function StarTreeOf(u: string, vs: seq<string>, z: string): (r: Tree)
    requires 0 < |u|
  {
    var stem := ChainTree(Tree([[u[0]]], map[], map[], 0), 0, u[1..]);
    var top := |u| - 1;
    ChainTree(TwigsTree(stem, top, vs), top, z)
  }

  /** `stem` is a path from the root holding the atoms of `u`, ending at
      `top`. */
  predicate StemFacts(stem: Tree, u: string, top: nat)
  {
    && Valid(stem) && top + 1 == |u|
    && stem.nodes == Singles(u)
    && ChainBetween(stem, 0, top)
    && Children(stem, top) == []
  }

  /** `twigs` is `stem` with the branches `vs` hung below its last node
      `top`. */
  predicate TwigsFacts(stem: Tree, twigs: Tree, vs: seq<string>, top: nat)
  {
    && Valid(twigs) && top + 1 == |stem.nodes|
    && twigs.nodes == stem.nodes + Singles(Join(vs))
    && Children(twigs, top) == Children(stem, top) + Heads(|stem.nodes|, vs)
    && SameChildrenBelow(stem, twigs, |stem.nodes|, top)
    && Renders(twigs, Heads(|stem.nodes|, vs), vs)
  }

  /** `t` is `twigs` with the path for `z` hung below `top`. */
  predicate ChainFacts(twigs: Tree, t: Tree, top: nat, z: string)
  {
    && Valid(t)
    && t.nodes == twigs.nodes + Singles(z)
    && Children(t, top) == Children(twigs, top) + [|twigs.nodes|]
    && SameChildrenBelow(twigs, t, |twigs.nodes|, top)
    && PathFrom(t, |twigs.nodes|)
  }

  /** The tree the decoder builds for `u(v1)...(vk)z`, where `top` is the
      stem's last atom, `heads` the branches' first nodes, `mid` their
      atoms in a row and `nz` the node of `z`'s first atom: the stem as a
      path, the heads and then `nz` as the children of `top`, each branch
      rendering as itself and `z` as a path to the last node. */
  predicate StarTree(t: Tree, u: string, vs: seq<string>, z: string, top: nat, heads: seq<nat>, mid: string, nz: nat)
  {
    && Valid(t) && top + 1 == |u| && nz == |u| + |mid|
    && t.nodes == Singles(u) + Singles(mid) + Singles(z)
    && ChainBetween(t, 0, top)
    && Children(t, top) == heads + [nz]
    && Renders(t, heads, vs)
    && PathFrom(t, nz)
  }
}
