/** The branch decoder with ring decoding on the chain DeepSMILES `w`
    followed by a ring size: the atoms become a path from the root, and the
    ring-size token walks back `size - 1` parent links from the latest atom
    and writes ring-closure number 1 after both ends. The rendering is the
    SMILES chain the encoder started from. */
module RingBranch {
  import opened Lexicon
  import opened DecodeErrors
  import opened ArenaTree
  import opened BranchDecoder
  import opened StarShape
  import opened StarTrees
  import opened StarArena
  import opened StarDecode
  import RingDecoder
  import RingChain
  import Encoder
  import Decoder

  /** The decoder's state once the atoms of `w` are read. */
  function AtomsRead(w: string): (r: BState)
    requires 0 < |w|
    ensures Good(r) && 0 < |r.stack| && r.i == |w|
  {
    ChainState(Root(w[0]), w[1..])
  }

  /** The pieces of the chain with ring 1 after the last atom and after
      atom `j`. */
  function MarkedPieces(w: string, j: nat): seq<string>
    requires j < |w|
  {
    var x := RingChain.ClosedPieces(w);
    x[j := x[j] + "1"]
  }

  /** The tree once ring 1 is closed over the last `size` atoms. */
  function Closed(w: string, size: nat): Tree
    requires 1 <= size <= |w|
  {
    AtomsRead(w).tree.(nodes := MarkedPieces(w, |w| - size), rcDigit := 1)
  }

  /** The atoms of `w` make a path from the root, one node per atom, and
      no ring-closure number has been handed out. */
  lemma ChainShape(w: string)
    requires 0 < |w|
    ensures
      var t := AtomsRead(w).tree;
      && t.nodes == Singles(w) && t.rcDigit == 0 && ChainBetween(t, 0, |w| - 1)
  {
    var t0 := Root(w[0]).tree;
    var t := ChainTree(t0, 0, w[1..]);
    assert AtomsRead(w).tree == t;
    ChainNodes(t0, 0, w[1..]);
    SinglesCons(w);
    ChainChildren(t0, 0, w[1..]);
    assert Children(t0, 0) == [];
  }

  /** Along a path from the root, node `n` has `n` ancestors. */
  lemma {:induction false} PathAncestors(t: Tree, n: nat)
    requires Valid(t) && n < |t.nodes| && ChainBetween(t, 0, n)
    ensures AncestorCount(t, n) == n
    decreases n
  {
    if n == 0 {
      assert 0 !in t.parent;
    } else {
      assert Children(t, n - 1) == [n];
      assert n - 1 in t.edges && t.edges[n - 1][0] == n;
      assert n in t.parent && t.parent[n] == n - 1;
      PathAncestors(t, n - 1);
    }
  }

  /** On a path from the root, walking `k` links up from node `n` reaches
      node `n - k`. */
  lemma PathWalk(t: Tree, n: nat, k: nat)
    requires Valid(t) && n < |t.nodes| && ChainBetween(t, 0, n) && k <= n
    ensures AncestorCount(t, n) == n && Walk(t, n, k) == Some(n - k)
  {
    PathAncestors(t, n);
    var o := Walk(t, n, k).value;
    PathAncestors(t, o);
  }

  /** The walk a ring of size `size` makes from the end of such a path
      reaches node `n + 1 - size`. */
  lemma PathClosure(t: Tree, n: nat, size: nat)
    requires Valid(t) && n < |t.nodes| && ChainBetween(t, 0, n) && 1 <= size <= n + 1
    ensures AncestorCount(t, n) == n && Walk(t, n, LinksFor(size)) == Some(n + 1 - size)
  {
    assert LinksFor(size) == size - 1;
    PathWalk(t, n, size - 1);
  }

  /** The ring closure of size `size` from the last atom gives `Closed`. */
  lemma CloseChain(w: string, size: nat)
    requires 1 <= size <= |w|
    ensures AddRingClosure(AtomsRead(w).tree, |w| - 1, size, "") == Some(Closed(w, size))
  {
    var t := AtomsRead(w).tree;
    var n := |w|;
    var j := n - size;
    ChainShape(w);
    PathClosure(t, n - 1, size);
    RingChain.FormatOne();
    var r := AddRingClosure(t, n - 1, size, "").value;
    var m := MarkedPieces(w, j);
    forall p | 0 <= p < n
      ensures r.nodes[p] == m[p]
    {
      if p == n - 1 && p == j {
        assert r.nodes[p] == [w[p]] + "" + "1" + "1";
      } else if p == n - 1 {
        assert r.nodes[p] == [w[p]] + "" + "1";
      } else if p == j {
        assert r.nodes[p] == [w[p]] + "1";
      }
    }
    assert r.nodes == m;
  }

  /** The closed tree is still the path from the root. */
  lemma ClosedPath(w: string, size: nat)
    requires 1 <= size <= |w|
    ensures Valid(Closed(w, size)) && |Closed(w, size).nodes| == |w| && PathFrom(Closed(w, size), 0)
  {
    ChainShape(w);
    SamePath(AtomsRead(w).tree, Closed(w, size));
  }

  /** New node texts on the same links keep a path a path. */
  lemma SamePath(t: Tree, u: Tree)
    requires Valid(t) && PathFrom(t, 0)
    requires u.edges == t.edges && u.parent == t.parent && |u.nodes| == |t.nodes|
    ensures Valid(u) && PathFrom(u, 0)
  {
    SameLinks(t, u);
    forall p: nat | p < |u.nodes| - 1
      ensures Children(u, p) == [p + 1]
    {
      assert Children(u, p) == Children(t, p);
    }
  }

  /** Rendering the closed tree writes the SMILES chain. */
  lemma ClosedSmiles(w: string, size: nat)
    requires 1 <= size <= |w|
    ensures Valid(Closed(w, size)) && 0 < |Closed(w, size).nodes|
    ensures ToSmiles(Closed(w, size)) == RingChain.ChainSmiles(w, |w| - size)
  {
    var t := Closed(w, size);
    ClosedPath(w, size);
    VisitPath(t, 0);
    assert t.nodes[0..] == MarkedPieces(w, |w| - size);
    RingChain.JoinChainPieces(w, |w| - size);
  }

  /** The token read with the chain before it closes the ring, and the
      scan resumes after the token's last character `at`. */
  lemma CloseRingChain(ds: string, w: string, size: nat, at: nat, text: string)
    requires 1 <= size <= |w|
    ensures CloseRing(ds, AtomsRead(w), size, "", at, text) == Ok(BState(at + 1, AtomsRead(w).stack, Closed(w, size)))
  {
    ChainShape(w);
    PathClosure(AtomsRead(w).tree, |w| - 1, size);
    CloseChain(w, size);
  }

  /** A one-digit ring size. */
  lemma DigitToken(w: string, size: nat, st: BState)
    requires PlainChain(w) && 0 < |w| && size < 10 && Good(st) && st.i == |w|
    ensures
      var ds := RingChain.ChainDeep(w, size);
      && |ds| == |w| + 1
      && Step(ds, true, st) == CloseRing(ds, st, size, "", |w|, FormatRingNumber(size))
  {
    var t := FormatRingNumber(size);
    var ds := w + t;
    RingChain.TokenUnbonded(w, t);
    RingSymbolClass(t[0]);
    assert [ds[|w|]] == t;
  }

  /** A `%` token in ring mode is read by `PercentRingSize`. */
  lemma PercentStep(ds: string, st: BState, rc: nat, last: nat, bond: string)
    requires Good(st) && 0 < st.i < |ds| && ds[st.i] == '%'
    requires PercentRingSize(ds, st.i) == Ok((rc, last)) && bond == PrevBond(ds, st.i)
    ensures Step(ds, true, st) == CloseRing(ds, st, rc, bond, last, NatToDecimal(rc))
  {
    RingSymbolClass('%');
  }

  /** `%` and two digits ending the input: the source tries a third digit
      past the end and reads the same two again, so the token's last
      position is one past the input. */
  lemma PairPercent(ds: string, i: nat, digits: string, size: nat)
    requires i + 3 == |ds| && ds[i] == '%' && ds[i + 1..] == digits
    requires |digits| == 2 && AllDigits(digits) && DecimalValue(digits) == size
    ensures PercentRingSize(ds, i) == Ok((size, i + 3))
  {
    assert Slice(ds, i + 1, i + 3) == digits;
    assert Slice(ds, i + 1, i + 4) == digits;
  }

  /** `%(` and a numeral and the `)` that ends the input. */
  lemma ParenPercent(ds: string, i: nat, size: nat)
    requires i + 1 < |ds| && ds[i] == '%' && ds[i + 1] == '('
    requires Find(ds, ')', i + 2) == |ds| - 1 && ds[i + 2..|ds| - 1] == NatToDecimal(size)
    ensures PercentRingSize(ds, i) == Ok((size, |ds| - 1))
  {
  }

  /** A two-digit ring size. */
  lemma PairToken(w: string, size: nat, st: BState)
    requires PlainChain(w) && 0 < |w| && 10 <= size < 100 && Good(st) && st.i == |w|
    ensures
      var ds := RingChain.ChainDeep(w, size);
      && |ds| == |w| + 3
      && Step(ds, true, st) == CloseRing(ds, st, size, "", |w| + 3, NatToDecimal(size))
  {
    var t := FormatRingNumber(size);
    var ds := w + t;
    var i := |w|;
    RingChain.TokenUnbonded(w, t);
    assert ds[i + 1..] == t[1..];
    PairPercent(ds, i, t[1..], size);
    PercentStep(ds, st, size, i + 3, "");
  }

  /** The parenthesised ring size after `w` reads back as its number. */
  lemma ParenSize(w: string, size: nat, ds: string)
    requires ds == w + RingDecoder.ParenRingNumber(size)
    ensures |w| + 1 < |ds| && ds[|w|] == '%'
    ensures PercentRingSize(ds, |w|) == Ok((size, |ds| - 1))
  {
    RingDecoder.ParenTokenShape(w, size);
    RingDecoder.ParenTokenClose(w, size);
    ParenPercent(ds, |w|, size);
  }

  /** From 100 on, the encoder writes the ring size in parentheses. */
  lemma ParenDeep(w: string, size: nat)
    requires 100 <= size
    ensures RingChain.ChainDeep(w, size) == w + RingDecoder.ParenRingNumber(size)
  {
  }

  /** A `%(...)` ring size after the chain. */
  lemma ParenToken(w: string, size: nat, st: BState)
    requires PlainChain(w) && 0 < |w| && 100 <= size && Good(st) && st.i == |w|
    ensures
      var ds := RingChain.ChainDeep(w, size);
      && Step(ds, true, st) == CloseRing(ds, st, size, "", |ds| - 1, NatToDecimal(size))
  {
    var t := RingDecoder.ParenRingNumber(size);
    var ds := RingChain.ChainDeep(w, size);
    ParenDeep(w, size);
    ParenSize(w, size, ds);
    RingChain.TokenUnbonded(w, t);
    PercentStep(ds, st, size, |ds| - 1, "");
  }

  /** Where the scan stands after the token. */
  function TokenEnd(w: string, size: nat): nat
  {
    if 10 <= size < 100 then |w| + 4 else |RingChain.ChainDeep(w, size)|
  }

  /** The decoder's state at the end: the closed tree. */
  function ChainClosed(w: string, size: nat): BState
    requires 1 <= size <= |w|
  {
    BState(TokenEnd(w, size), AtomsRead(w).stack, Closed(w, size))
  }

  /** The token closes the ring, whatever its format. */
  lemma TokenStep(w: string, size: nat)
    requires PlainChain(w) && 1 <= size <= |w|
    ensures
      var ds := RingChain.ChainDeep(w, size);
      && AtomsRead(w).i < |ds| <= TokenEnd(w, size)
      && Step(ds, true, AtomsRead(w)) == Ok(ChainClosed(w, size))
  {
    var ds := RingChain.ChainDeep(w, size);
    var st := AtomsRead(w);
    if size < 10 {
      DigitToken(w, size, st);
      CloseRingChain(ds, w, size, |w|, FormatRingNumber(size));
    } else if size < 100 {
      PairToken(w, size, st);
      CloseRingChain(ds, w, size, |w| + 3, NatToDecimal(size));
    } else {
      ParenToken(w, size, st);
      CloseRingChain(ds, w, size, |ds| - 1, NatToDecimal(size));
    }
  }

  /** The atoms of the chain are read as a path from the root. */
  lemma {:induction false} AtomsRun(w: string, size: nat)
    requires PlainChain(w) && 1 <= size <= |w|
    ensures
      var ds := RingChain.ChainDeep(w, size);
      Run(ds, true, Start) == Run(ds, true, AtomsRead(w))
  {
    var t := FormatRingNumber(size);
    var ds := w + t;
    RingChain.TokenUnbonded(w, t);
    assert ds[..|w|] == w;
    assert ds[1..|w|] == w[1..];
    assert ds[0] == w[0];
    assert 1 < |w| ==> ds[1] == w[1];
    StemRun(ds, true, Root(w[0]), w[1..], |w|);
  }

  /** The decoder reads the whole chain. */
  lemma {:induction false} RunRingChain(w: string, size: nat)
    requires PlainChain(w) && 1 <= size <= |w|
    ensures Run(RingChain.ChainDeep(w, size), true, Start) == Ok(ChainClosed(w, size))
  {
    var ds := RingChain.ChainDeep(w, size);
    TokenStep(w, size);
    assert Run(ds, true, ChainClosed(w, size)) == Ok(ChainClosed(w, size));
    RunStep(ds, true, AtomsRead(w), ChainClosed(w, size));
    AtomsRun(w, size);
  }

  /** With both compactions on, the chain DeepSMILES with a ring size
      within the chain decodes to the SMILES chain with the ring opened
      `size - 1` atoms before the last: the same answer the ring-only
      decoder gives. */
  lemma {:induction false} DecodeBranchRingChain(w: string, size: nat)
    requires PlainChain(w) && 1 <= size <= |w|
    ensures Decoder.Decode(RingChain.ChainDeep(w, size), true, true) == Ok(RingChain.ChainSmiles(w, |w| - size))
    ensures Decoder.Decode(RingChain.ChainDeep(w, size), true, true)
         == Decoder.Decode(RingChain.ChainDeep(w, size), true, false)
  {
    RunRingChain(w, size);
    ClosedSmiles(w, size);
    RingChain.RingChainDeepRoundTrip(w, size);
  }

  /** The round trip of the SMILES chain with both compactions on. */
  lemma FullRingChainRoundTrip(w: string, k: nat)
    requires PlainChain(w) && k < |w|
    ensures Encoder.BracketsClosed(RingChain.ChainSmiles(w, k))
    ensures Encoder.Encode(RingChain.ChainSmiles(w, k), true, true) == Some(RingChain.ChainDeep(w, |w| - k))
    ensures Decoder.Decode(RingChain.ChainDeep(w, |w| - k), true, true) == Ok(RingChain.ChainSmiles(w, k))
  {
    RingChain.EncodeRingChain(w, k, true);
    DecodeBranchRingChain(w, |w| - k);
    assert |w| - (|w| - k) == k;
  }

  /** `CCCCC5` decodes to `C1CCCC1` with both compactions on. */
  lemma ExampleFiveRingBoth(smiles: string, deep: string)
    requires smiles == "C1CCCC1" && deep == "CCCCC5"
    ensures Decoder.Decode(deep, true, true) == Ok(smiles)
    ensures Encoder.Encode(smiles, true, true) == Some(deep)
  {
    RingChain.FiveRingTexts();
    FullRingChainRoundTrip("CCCCC", 0);
  }
}
