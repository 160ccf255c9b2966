/** The branch decoder on the DeepSMILES of `u(v1)...(vk)z`: every run of
    plain atoms becomes a path of the arena tree, every `)` run pops the
    branch it closes, and the rendering puts each branch but the last in
    parentheses. */
module StarDecode {
  import opened Lexicon
  import opened DecodeErrors
  import opened ArenaTree
  import opened BranchDecoder
  import opened StarShape
  import opened StarTrees
  import opened StarArena

  /** The atom new atoms are hung below. */
  function Top(st: BState): nat
    requires 0 < |st.stack|
  {
    st.stack[|st.stack| - 1]
  }

  /** The numbers `n0`, ..., `n0 + m - 1`. */
  function Upto(n0: nat, m: nat): (r: seq<nat>)
    ensures |r| == m && forall k :: 0 <= k < m ==> r[k] == n0 + k
  {
    if m == 0 then [] else Upto(n0, m - 1) + [n0 + m - 1]
  }

  /** One atom `c` hung below the top of the stack and pushed. */
  function Push(st: BState, c: char): (r: BState)
    requires Good(st) && 0 < |st.stack|
    ensures Good(r)
  {
    BState(st.i + 1, st.stack + [|st.tree.nodes|], Hang(st.tree, Top(st), [c]))
  }

  /** The decoder's state after the atoms of `w`: each pushed in turn. */
  function ChainState(st: BState, w: string): (r: BState)
    requires Good(st) && 0 < |st.stack|
    ensures Good(r) && r.i == st.i + |w| && |r.stack| == |st.stack| + |w|
  {
    var n0 := |st.tree.nodes|;
    var stack := st.stack + Upto(n0, |w|);
    assert forall k :: 0 <= k < |stack| ==> stack[k] < n0 + |w| by {
      forall k | 0 <= k < |stack|
        ensures stack[k] < n0 + |w|
      {
        if k < |st.stack| {
          assert stack[k] == st.stack[k];
        }
      }
    }
    assert forall a, b :: 0 <= a < b < |stack| ==> stack[a] < stack[b] by {
      forall a, b | 0 <= a < b < |stack|
        ensures stack[a] < stack[b]
      {
        if b < |st.stack| {
          assert stack[a] == st.stack[a] && stack[b] == st.stack[b];
        } else if a < |st.stack| {
          assert stack[a] == st.stack[a] && stack[b] == n0 + (b - |st.stack|);
        }
      }
    }
    BState(st.i + |w|, stack, ChainTree(st.tree, Top(st), w))
  }

  /** `m` atoms popped off the stack by `)`. */
  function Pop(st: BState, m: nat): (r: BState)
    requires Good(st) && m <= |st.stack|
    ensures Good(r)
  {
    st.(i := st.i + m, stack := st.stack[..|st.stack| - m])
  }

  /** The decoder's state after the branches `vs`: the tree grows, the
      stack is as before. */
  function TwigsState(st: BState, vs: seq<string>): (r: BState)
    requires Good(st) && 0 < |st.stack|
    ensures Good(r) && 0 < |r.stack|
  {
    BState(st.i + |Popped(vs)|, st.stack, TwigsTree(st.tree, Top(st), vs))
  }

  /** The root alone, holding the letter `c`. */
  function Root(c: char): (r: BState)
    ensures Good(r) && 0 < |r.stack|
  {
    BState(1, [0], Tree([[c]], map[], map[], 0))
  }

  /** The state the decoder reaches at the end of `u(v1)...(vk)z`. */
  function StarState(u: string, vs: seq<string>, z: string): BState
    requires 0 < |u|
  {
    ChainState(TwigsState(ChainState(Root(u[0]), u[1..]), vs), z)
  }

  /** What may follow a plain atom that spans one character: nothing, a
      `)`, another plain atom or, with ring decoding, a ring-size token. */
  predicate AtomEnds(ds: string, rings: bool, p: nat)
  {
    p < |ds| ==> ds[p] == ')' || PlainAtom(ds[p]) || (rings && IsRingSymbol(ds[p]))
  }

  /** A plain atom followed by what `AtomEnds` allows spans one character. */
  lemma PlainAtomSpan(ds: string, rings: bool, i: nat)
    requires i < |ds| && PlainAtom(ds[i])
    requires AtomEnds(ds, rings, i + 1)
    ensures AtomText(ds, i) == Ok(([ds[i]], i)) && AtomSpan(ds, rings, i) == Ok(i)
  {
    PlainAtomClass(ds[i]);
    CloseParenClass();
    if i + 1 < |ds| && PlainAtom(ds[i + 1]) {
      PlainAtomClass(ds[i + 1]);
    }
    assert !TwoLetterAtom(ds, i);
  }

  /** Such an atom, with no bond character before it, becomes one new node
      holding just its letter, hung below the top of the stack and pushed. */
  lemma PlainAtomDecode(ds: string, rings: bool, st: BState, i: nat)
    requires Good(st) && i == st.i && i < |ds| && 0 < |st.stack| && PlainAtom(ds[i])
    requires 0 < i ==> !IsBondChar(ds[i - 1])
    requires AtomEnds(ds, rings, i + 1)
    ensures Step(ds, rings, st) == Ok(Push(st, ds[i]))
  {
    PlainAtomSpan(ds, rings, i);
    PlainAtomClass(ds[i]);
    assert PrevBond(ds, i) + ds[i..i + 1] == [ds[i]] by {
      EmptyPrefix([ds[i]]);
    }
  }

  /** The first atom of the input becomes the root. */
  lemma FirstAtomDecode(ds: string, rings: bool)
    requires 0 < |ds| && PlainAtom(ds[0]) && AtomEnds(ds, rings, 1)
    ensures Step(ds, rings, Start) == Ok(Root(ds[0]))
  {
    PlainAtomSpan(ds, rings, 0);
    PlainAtomClass(ds[0]);
    assert PrevBond(ds, 0) + ds[0..1] == [ds[0]] by {
      EmptyPrefix([ds[0]]);
    }
    var noNodes: seq<string> := [];
    var noAtoms: seq<nat> := [];
    assert noNodes + [[ds[0]]] == [[ds[0]]];
    assert noAtoms + [0] == [0];
  }

  /** Decoding starts by turning the first atom into the root. */
  lemma FirstAtomRun(ds: string, rings: bool, root: BState)
    requires 0 < |ds| && PlainAtom(ds[0]) && root == Root(ds[0]) && AtomEnds(ds, rings, 1)
    ensures Run(ds, rings, Start) == Run(ds, rings, root)
  {
    FirstAtomDecode(ds, rings);
    RunStep(ds, rings, Start, root);
  }

  /** A `)` with an atom on the stack pops it. */
  lemma PopDecode(ds: string, rings: bool, st: BState)
    requires Good(st) && st.i < |ds| && 0 < |st.stack| && ds[st.i] == ')'
    ensures Step(ds, rings, st) == Ok(Pop(st, 1))
  {
  }

  lemma {:induction false} RunStep(ds: string, rings: bool, st: BState, st1: BState)
    requires Good(st) && st.i < |ds| && Step(ds, rings, st) == Ok(st1)
    ensures Run(ds, rings, st) == Run(ds, rings, st1)
  {
    assert Run(ds, rings, st) == Advance(ds, rings, st);
  }

  lemma UptoCons(n0: nat, m: nat)
    requires 0 < m
    ensures Upto(n0, m) == [n0] + Upto(n0 + 1, m - 1)
  {
  }

  /** Pushing the first atom of `w` and then the rest is pushing `w`. */
  lemma ChainStateCons(st: BState, w: string)
    requires Good(st) && 0 < |st.stack| && 0 < |w|
    ensures ChainState(Push(st, w[0]), w[1..]) == ChainState(st, w)
  {
    var n0 := |st.tree.nodes|;
    UptoCons(n0, |w|);
    AppendAssoc(st.stack, [n0], Upto(n0 + 1, |w| - 1));
  }

  /** Popping one atom and then `m - 1` more is popping `m`. */
  lemma PopPop(st: BState, m: nat)
    requires Good(st) && 0 < m <= |st.stack|
    ensures Pop(Pop(st, 1), m - 1) == Pop(st, m)
  {
    assert st.stack[..|st.stack| - 1][..|st.stack| - m] == st.stack[..|st.stack| - m];
  }

  /** Pushing a branch's atoms and popping them again leaves the stack as
      it was and the tree with the branch's path added. */
  lemma TwigsStateSnoc(st: BState, vs: seq<string>)
    requires Good(st) && 0 < |st.stack| && 0 < |vs|
    ensures
      var v := vs[|vs| - 1];
      var chained := ChainState(TwigsState(st, vs[..|vs| - 1]), v);
      && |v| <= |chained.stack|
      && Pop(chained, |v|) == TwigsState(st, vs)
  {
    var v := vs[|vs| - 1];
    var init := vs[..|vs| - 1];
    var before := TwigsState(st, init);
    var chained := ChainState(before, v);
    assert chained.stack[..|chained.stack| - |v|] == before.stack;
    assert Top(before) == Top(st);
    assert chained.tree == TwigsTree(st.tree, Top(st), vs);
    assert |Popped(vs)| == |Popped(init)| + |v| + |v|;
    assert chained.i + |v| == st.i + |Popped(vs)|;
  }

  /** Decoding a run `w` of plain atoms, from `start` to `end`, pushes
      them all. */
  lemma {:induction false} ChainRun(ds: string, rings: bool, st: BState, w: string, start: nat, end: nat)
    requires Good(st) && 0 < |st.stack| && PlainChain(w)
    requires start == st.i && end == start + |w| && end <= |ds| && ds[start..end] == w
    requires 0 < |w| && 0 < start ==> !IsBondChar(ds[start - 1])
    requires 0 < |w| ==> AtomEnds(ds, rings, end)
    ensures Run(ds, rings, st) == Run(ds, rings, ChainState(st, w))
    decreases |w|
  {
    if |w| == 0 {
      assert st.stack + Upto(|st.tree.nodes|, 0) == st.stack;
      assert ChainState(st, w) == st;
    } else {
      var next := start + 1;
      ChainHead(ds, rings, st, w, start, next, end);
      ChainStateCons(st, w);
      ChainRun(ds, rings, Push(st, w[0]), w[1..], next, end);
    }
  }

  /** The first atom of the run is pushed, and the rest of the run follows
      it with no bond character in between. */
  lemma ChainHead(ds: string, rings: bool, st: BState, w: string, start: nat, next: nat, end: nat)
    requires Good(st) && 0 < |st.stack| && PlainChain(w) && 0 < |w|
    requires start == st.i && next == start + 1 && end == start + |w| && end <= |ds| && ds[start..end] == w
    requires 0 < start ==> !IsBondChar(ds[start - 1])
    requires AtomEnds(ds, rings, end)
    ensures Run(ds, rings, st) == Run(ds, rings, Push(st, w[0]))
    ensures PlainChain(w[1..]) && ds[next..end] == w[1..] && !IsBondChar(ds[next - 1])
  {
    var rest := w[1..];
    SliceTail(ds, start, next, end, w);
    PlainAtomClass(w[0]);
    if 0 < |rest| {
      SliceTail(ds, next, next + 1, end, rest);
      assert PlainAtom(ds[next]);
    }
    assert ds[next - 1] == w[0];
    PlainAtomDecode(ds, rings, st, start);
    RunStep(ds, rings, st, Push(st, w[0]));
  }

  /** `m` closing parentheses, from `start` to `end`, pop `m` atoms and
      change nothing else. */
  lemma {:induction false} PopsRun(ds: string, rings: bool, st: BState, m: nat, start: nat, end: nat)
    requires Good(st) && m <= |st.stack| && start == st.i && end == start + m && end <= |ds|
    requires forall p :: start <= p < end ==> ds[p] == ')'
    ensures Run(ds, rings, st) == Run(ds, rings, Pop(st, m))
    decreases m
  {
    if m == 0 {
      assert st.stack[..|st.stack|] == st.stack;
      assert Pop(st, m) == st;
    } else {
      PopPop(st, m);
      PopDecode(ds, rings, st);
      PopsRun(ds, rings, Pop(st, 1), m - 1, start + 1, end);
      RunStep(ds, rings, st, Pop(st, 1));
    }
  }

  /** The window of one more branch `v` after the branches `init`: where
      each part sits, and what comes just before and after `v`. */
  lemma TwigsWindow(ds: string, i0: nat, i1: nat, i2: nat, end: nat, init: seq<string>, v: string)
    requires Twigs(init) && 0 < |v|
    requires i1 == i0 + |Popped(init)| && i2 == i1 + |v| && end == i2 + |v| && end <= |ds|
    requires ds[i0..end] == Popped(init) + v + Repeat(')', |v|)
    requires 0 < i0 ==> !IsBondChar(ds[i0 - 1])
    ensures ds[i0..i1] == Popped(init) && ds[i1..i2] == v
    ensures 0 < i1 ==> !IsBondChar(ds[i1 - 1])
    ensures ds[i2] == ')'
    ensures forall p :: i2 <= p < end ==> ds[p] == ')'
  {
    SliceThree(ds, i0, i1, i2, end, Popped(init), v, Repeat(')', |v|));
    if 0 < |init| {
      PoppedEnds(init);
      SliceLast(ds, i0, i1, Popped(init));
      CloseParenClass();
    }
    SliceRepeat(ds, i2, end, ')', |v|);
  }

  /** One branch `v` followed by its `)`s hangs `v` below the top of the
      stack and leaves the stack as it was. */
  lemma {:induction false} BranchRun(ds: string, rings: bool, st: BState, v: string, start: nat, i2: nat, end: nat)
    requires Good(st) && 0 < |st.stack| && 0 < |v| && PlainChain(v)
    requires start == st.i && i2 == start + |v| && end == i2 + |v| && end <= |ds| && ds[start..i2] == v
    requires 0 < start ==> !IsBondChar(ds[start - 1])
    requires ds[i2] == ')' && forall p :: i2 <= p < end ==> ds[p] == ')'
    ensures |v| <= |ChainState(st, v).stack|
    ensures Run(ds, rings, st) == Run(ds, rings, Pop(ChainState(st, v), |v|))
  {
    var chained := ChainState(st, v);
    ChainRun(ds, rings, st, v, start, i2);
    PopsRun(ds, rings, chained, |v|, i2, end);
  }

  /** Decoding the branches `vs` written DeepSMILES-style, from `start` to
      `end`, reaches the branches' state. */
  lemma {:induction false} TwigsRun(ds: string, rings: bool, st: BState, vs: seq<string>, start: nat, end: nat)
    requires Good(st) && 0 < |st.stack| && Twigs(vs)
    requires start == st.i && end == start + |Popped(vs)| && end <= |ds| && ds[start..end] == Popped(vs)
    requires 0 < start ==> !IsBondChar(ds[start - 1])
    ensures Run(ds, rings, st) == Run(ds, rings, TwigsState(st, vs))
    decreases |vs|
  {
    if |vs| == 0 {
      assert TwigsState(st, vs) == st;
    } else {
      var init := vs[..|vs| - 1];
      var v := vs[|vs| - 1];
      assert Twigs(init) && 0 < |v| && PlainChain(v);
      var before := TwigsState(st, init);
      var chained := ChainState(before, v);
      assert Popped(vs) == Popped(init) + v + Repeat(')', |v|);
      TwigsWindow(ds, start, before.i, chained.i, end, init, v);
      TwigsStateSnoc(st, vs);
      TwigsRun(ds, rings, st, init, start, before.i);
      BranchRun(ds, rings, before, v, before.i, chained.i, end);
    }
  }

  /** The state at the end of `u(v1)...(vk)z` holds the star's tree. */
  lemma StarStateTree(u: string, vs: seq<string>, z: string)
    requires 0 < |u|
    ensures StarState(u, vs, z).tree == StarTreeOf(u, vs, z)
  {
    var root := Root(u[0]);
    var stem := ChainState(root, u[1..]);
    assert Top(stem) == |u| - 1;
  }

  /** Where the stem, the branches and the continuation sit in the
      DeepSMILES of `u(v1)...(vk)z`, and what comes next to each. */
  lemma StarWindow(ds: string, u: string, vs: seq<string>, z: string, i1: nat, i2: nat, i3: nat, end: nat)
    requires Star(u, vs, z) && ds == u + Popped(vs) + z
    requires i1 == 1 && i2 == i1 + |u[1..]| && i3 == i2 + |Popped(vs)| && end == i3 + |z| && end == |ds|
    ensures 0 < |ds| && ds[0] == u[0] && PlainAtom(ds[0])
    ensures 1 < |ds| ==> ds[1] == ')' || PlainAtom(ds[1])
    ensures !IsBondChar(ds[i1 - 1]) && ds[i1..i2] == u[1..] && ds[i2..i3] == Popped(vs) && ds[i3..end] == z
    ensures i2 < |ds| && (ds[i2] == ')' || PlainAtom(ds[i2]))
    ensures !IsBondChar(ds[i2 - 1]) && !IsBondChar(ds[i3 - 1])
  {
    var mid := Popped(vs);
    assert ds[0..end] == u + mid + z;
    SliceThree(ds, 0, i2, i3, end, u, mid, z);
    SliceTail(ds, 0, 1, i2, u);
    SliceLast(ds, 0, i2, u);
    SliceTail(ds, i3, i3 + 1, end, z);
    PlainAtomClass(u[0]);
    PlainAtomClass(u[|u| - 1]);
    assert PlainAtom(z[0]);
    if 0 < |vs| {
      PoppedEnds(vs);
      SliceTail(ds, i2, i2 + 1, i3, mid);
      SliceLast(ds, i2, i3, mid);
      assert PlainAtom(vs[0][0]);
      CloseParenClass();
    }
    if 1 < |u| {
      SliceTail(ds, 1, 2, i2, u[1..]);
      assert PlainAtom(u[1]);
    }
  }

  /** Up to the end of the stem `u`, decoding builds the stem's path. */
  lemma {:induction false} StarRunHead(ds: string, rings: bool, u: string, vs: seq<string>, z: string, root: BState, stem: BState)
    requires Star(u, vs, z) && ds == StarDeep(u, vs, z)
    requires root == Root(u[0]) && stem == ChainState(root, u[1..])
    ensures Run(ds, rings, Start) == Run(ds, rings, stem)
  {
    var i3 := stem.i + |Popped(vs)|;
    StarWindow(ds, u, vs, z, root.i, stem.i, i3, i3 + |z|);
    StemRun(ds, rings, root, u[1..], stem.i);
  }

  /** Decoding a first atom and then the chain `w` after it builds the
      path for the first atom and `w`. */
  lemma StemRun(ds: string, rings: bool, root: BState, w: string, end: nat)
    requires 0 < |ds| && PlainAtom(ds[0]) && root == Root(ds[0]) && AtomEnds(ds, rings, 1)
    requires PlainChain(w) && end == 1 + |w| && end <= |ds| && ds[1..end] == w
    requires 0 < |w| ==> AtomEnds(ds, rings, end)
    ensures Run(ds, rings, Start) == Run(ds, rings, ChainState(root, w))
  {
    FirstAtomRun(ds, rings, root);
    PlainAtomClass(ds[0]);
    ChainRun(ds, rings, root, w, 1, end);
  }

  /** From the stem on, the branches and then the continuation `z` are
      decoded up to the end of the input. */
  lemma {:induction false} StarRunTail(ds: string, rings: bool, u: string, vs: seq<string>, z: string, stem: BState)
    requires Star(u, vs, z) && ds == StarDeep(u, vs, z)
    requires Good(stem) && 0 < |stem.stack| && stem.i == 1 + |u[1..]|
    ensures Run(ds, rings, stem) == Ok(ChainState(TwigsState(stem, vs), z))
  {
    var twigs := TwigsState(stem, vs);
    var last := ChainState(twigs, z);
    StarWindow(ds, u, vs, z, 1, stem.i, twigs.i, last.i);
    TwigsRun(ds, rings, stem, vs, stem.i, twigs.i);
    ChainRun(ds, rings, twigs, z, twigs.i, last.i);
  }

  /** Decoding the DeepSMILES of `u(v1)...(vk)z` ends in the star state. */
  lemma {:induction false} DecodeStarRun(u: string, vs: seq<string>, z: string, rings: bool)
    requires Star(u, vs, z)
    ensures Run(StarDeep(u, vs, z), rings, Start) == Ok(StarState(u, vs, z))
  {
    var ds := StarDeep(u, vs, z);
    var root := Root(u[0]);
    var stem := ChainState(root, u[1..]);
    StarRunHead(ds, rings, u, vs, z, root, stem);
    StarRunTail(ds, rings, u, vs, z, stem);
  }

  /** `decode_branches` turns the DeepSMILES of `u(v1)...(vk)z` back into
      that SMILES, with or without ring decoding. */
  lemma DecodeStar(u: string, vs: seq<string>, z: string, rings: bool)
    requires Star(u, vs, z)
    ensures DecodeBranches(StarDeep(u, vs, z), rings) == Ok(StarSmiles(u, vs, z))
  {
    StarTreeSmiles(u, vs, z);
    StarStateTree(u, vs, z);
    DecodeStarRun(u, vs, z, rings);
  }
}
