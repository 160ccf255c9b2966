/** The encoder in branch mode on `u(v1)...(vk)z`: every `(` opens a level,
    every atom is one output piece, and every `)` becomes one `)` per atom
    its branch held. No ring symbol occurs, so nothing is recorded for the
    stitching pass and the pieces are joined as they are. */
module StarEncode {
  import opened Lexicon
  import opened Stereo
  import opened Encoder
  import opened StarShape

  /** The output pieces the branches `vs` leave: each atom alone, then one
      piece of closing parentheses per branch. */
  function Pieces(vs: seq<string>): seq<string>
  {
    if |vs| == 0 then [] else Pieces(vs[..|vs| - 1]) + Singles(vs[|vs| - 1]) + [Repeat(')', |vs[|vs| - 1]|)]
  }

  /** The pieces join to the branches written DeepSMILES-style. */
  lemma {:induction false} JoinPieces(vs: seq<string>)
    ensures Join(Pieces(vs)) == Popped(vs)
    decreases |vs|
  {
    if 0 < |vs| {
      var init := vs[..|vs| - 1];
      var v := vs[|vs| - 1];
      var close := Repeat(')', |v|);
      JoinPieces(init);
      JoinAppend(Pieces(init) + Singles(v), [close]);
      JoinAppend(Pieces(init), Singles(v));
      JoinSingles(v);
      assert Join([close]) == close by {
        assert [close][..0] == [];
      }
    }
  }

  /** No `[` at all leaves no bracket atom open. */
  lemma UnbracketedClosed(s: string)
    requires Unbracketed(s)
    ensures BracketsClosed(s)
  {
  }

  /** The scan state after the atoms of `w` from `st`: one piece each,
      all counted at the innermost level. */
  function AtomsScanned(st: ScanState, w: string, end: nat): ScanState
    requires 0 < |st.levels|
  {
    st.(i := end, ans := st.ans + Singles(w), levels := Bump(st.levels, |w|))
  }

  /** The atoms of `w`, from `start` to `end`, are scanned one piece each. */
  lemma AtomsScan(smi: string, rings: bool, st: ScanState, w: string, start: nat, end: nat)
    requires BracketsClosed(smi) && 0 < |st.levels| && PlainChain(w)
    requires start == st.i && end == start + |w| && end <= |smi| && smi[start..end] == w
    requires 0 < |w| && 0 < start ==> !IsBondChar(smi[start - 1])
    requires end < |smi| ==> smi[end] != 'l' && smi[end] != 'r'
    ensures Scan(smi, rings, true, st) == Scan(smi, rings, true, AtomsScanned(st, w, end))
  {
    forall p | st.i <= p < st.i + |w|
      ensures PlainAtom(smi[p])
    {
      assert smi[p] == w[p - start];
    }
    ScanAtoms(smi, rings, true, st, |w|);
    assert AfterAtoms(smi, st, |w|) == AtomsScanned(st, w, end);
  }

  /** A `(` opens a new, empty level and writes nothing. */
  lemma OpenScan(smi: string, rings: bool, st: ScanState)
    requires BracketsClosed(smi) && st.i < |smi| && smi[st.i] == '('
    ensures Scan(smi, rings, true, st) == Scan(smi, rings, true, st.(i := st.i + 1, levels := st.levels + [0]))
  {
    assert Step(smi, rings, true, st) == Some(OpenBranch(st, true));
    ScanFrom(smi, rings, true, st, OpenBranch(st, true));
  }

  /** A `)` closing a branch of `m` atoms writes `m` closing parentheses
      and drops the branch's level. */
  lemma CloseScan(smi: string, rings: bool, st: ScanState, levels: seq<nat>, m: nat)
    requires BracketsClosed(smi) && st.i < |smi| && smi[st.i] == ')' && st.levels == levels + [m]
    ensures Scan(smi, rings, true, st)
         == Scan(smi, rings, true, st.(i := st.i + 1, levels := levels, ans := st.ans + [Repeat(')', m)]))
  {
    assert st.levels[..|st.levels| - 1] == levels;
    ScanFrom(smi, rings, true, st, CloseBranch(st, true).value);
  }

  /** The scan state after the branches `vs` from `st`: the pieces are
      written and the levels are as before. */
  function TwigsScanned(st: ScanState, vs: seq<string>, end: nat): ScanState
  {
    st.(i := end, ans := st.ans + Pieces(vs))
  }

  /** One branch `(v)`, from `start` to `end`, writes its atoms and then
      `|v|` closing parentheses, and leaves the levels as they were. */
  lemma TwigScan(smi: string, rings: bool, st: ScanState, v: string, start: nat, i1: nat, i2: nat, end: nat)
    requires BracketsClosed(smi) && 0 < |st.levels| && 0 < |v| && PlainChain(v)
    requires start == st.i && i1 == start + 1 && i2 == i1 + |v| && end == i2 + 1 && end <= |smi|
    requires smi[start] == '(' && smi[i1..i2] == v && smi[i2] == ')'
    ensures Scan(smi, rings, true, st)
         == Scan(smi, rings, true, st.(i := end, ans := st.ans + Singles(v) + [Repeat(')', |v|)]))
  {
    var inner := st.(i := i1, levels := st.levels + [0]);
    var filled := AtomsScanned(inner, v, i2);
    assert filled.levels == st.levels + [|v|] by {
      assert (st.levels + [0])[..|st.levels|] == st.levels;
    }
    assert smi[i1 - 1] == '(';
    OpenScan(smi, rings, st);
    AtomsScan(smi, rings, inner, v, i1, i2);
    CloseScan(smi, rings, filled, st.levels, |v|);
  }

  /** Where the last branch `v` sits after the branches `init`. */
  lemma TwigWindow(smi: string, init: seq<string>, v: string, i0: nat, i1: nat, i2: nat, i3: nat, end: nat)
    requires i1 == i0 + |Parenthesised(init)| && i2 == i1 + 1 && i3 == i2 + |v| && end == i3 + 1 && end <= |smi|
    requires smi[i0..end] == Parenthesised(init) + "(" + v + ")"
    ensures smi[i0..i1] == Parenthesised(init) && smi[i1] == '(' && smi[i2..i3] == v && smi[i3] == ')'
  {
    SliceThree(smi, i0, i1, i3, end, Parenthesised(init), "(" + v, ")");
    SliceTail(smi, i1, i2, i3, "(" + v);
    assert ("(" + v)[1..] == v;
    assert smi[i3] == smi[i3..end][0];
  }

  /** The branches `vs`, written SMILES-style from `start` to `end`, are
      scanned into their pieces. */
  lemma {:induction false} TwigsScan(smi: string, rings: bool, st: ScanState, vs: seq<string>, start: nat, end: nat)
    requires BracketsClosed(smi) && 0 < |st.levels| && Twigs(vs)
    requires start == st.i && end == start + |Parenthesised(vs)| && end <= |smi|
    requires smi[start..end] == Parenthesised(vs)
    ensures Scan(smi, rings, true, st) == Scan(smi, rings, true, TwigsScanned(st, vs, end))
    decreases |vs|
  {
    if |vs| == 0 {
      assert TwigsScanned(st, vs, end) == st;
    } else {
      var init := vs[..|vs| - 1];
      var v := vs[|vs| - 1];
      assert Twigs(init) && 0 < |v| && PlainChain(v);
      var i1 := start + |Parenthesised(init)|;
      var before := TwigsScanned(st, init, i1);
      TwigWindow(smi, init, v, start, i1, i1 + 1, i1 + 1 + |v|, end);
      TwigsScan(smi, rings, st, init, start, i1);
      TwigScan(smi, rings, before, v, i1, i1 + 1, i1 + 1 + |v|, end);
      AppendAssoc(st.ans + Pieces(init), Singles(v), [Repeat(')', |v|)]);
      AppendAssoc(st.ans, Pieces(init) + Singles(v), [Repeat(')', |v|)]);
      AppendAssoc(st.ans, Pieces(init), Singles(v));
    }
  }

  /** Where the stem, the branches and the continuation sit in the SMILES
      of `u(v1)...(vk)z`, and what comes next to each. */
  lemma StarSmilesWindow(smi: string, u: string, vs: seq<string>, z: string, i1: nat, i2: nat, end: nat)
    requires Star(u, vs, z) && smi == StarSmiles(u, vs, z)
    requires i1 == |u| && i2 == i1 + |Parenthesised(vs)| && end == i2 + |z| && end == |smi|
    ensures smi[0..i1] == u && smi[i1..i2] == Parenthesised(vs) && smi[i2..end] == z
    ensures i1 < |smi| && smi[i1] != 'l' && smi[i1] != 'r'
    ensures !IsBondChar(smi[i2 - 1])
  {
    assert smi[0..end] == u + Parenthesised(vs) + z;
    SliceThree(smi, 0, i1, i2, end, u, Parenthesised(vs), z);
    SliceLast(smi, 0, i1, u);
    SliceTail(smi, i2, i2 + 1, end, z);
    PlainAtomClass(z[0]);
    PlainAtomClass(u[|u| - 1]);
    if 0 < |vs| {
      ParenthesisedEnds(vs);
      CloseParenClass();
      SliceTail(smi, i1, i1 + 1, i2, Parenthesised(vs));
      SliceLast(smi, i1, i2, Parenthesised(vs));
    }
  }

  /** Counting `m` more atoms on a single level holding `n`. */
  lemma BumpOne(n: nat, m: nat, k: nat)
    requires k == n + m
    ensures Bump([n], m) == [k]
  {
  }

  /** The scan state at the end of `u(v1)...(vk)z`: the stem's atoms, the
      branches' pieces and the continuation's atoms, all of the stem and
      the continuation counted on the one level, and nothing recorded. */
  function StarScanned(u: string, vs: seq<string>, z: string): ScanState
  {
    ScanState(|u| + |Parenthesised(vs)| + |z|, Singles(u) + Pieces(vs) + Singles(z), [|u| + |z|], map[], map[])
  }

  /** The stem `u` is scanned into one piece per atom. */
  lemma StarScanHead(smi: string, rings: bool, u: string, vs: seq<string>, z: string, stem: ScanState)
    requires Star(u, vs, z) && smi == StarSmiles(u, vs, z) && BracketsClosed(smi)
    requires stem == ScanState(|u|, Singles(u), [|u|], map[], map[])
    ensures Scan(smi, rings, true, Encoder.Start) == Scan(smi, rings, true, stem)
  {
    var i1 := |u|;
    var i2 := i1 + |Parenthesised(vs)|;
    StarSmilesWindow(smi, u, vs, z, i1, i2, i2 + |z|);
    assert Encoder.Start.levels == [0];
    BumpOne(0, |u|, |u|);
    assert AtomsScanned(Encoder.Start, u, i1) == stem;
    AtomsScan(smi, rings, Encoder.Start, u, 0, i1);
  }

  /** From the stem on, the branches and the continuation are scanned to
      the end of the input. */
  lemma StarScanTail(smi: string, rings: bool, u: string, vs: seq<string>, z: string, stem: ScanState)
    requires Star(u, vs, z) && smi == StarSmiles(u, vs, z) && BracketsClosed(smi)
    requires stem == ScanState(|u|, Singles(u), [|u|], map[], map[])
    ensures Scan(smi, rings, true, stem) == Some(StarScanned(u, vs, z))
  {
    var i1 := |u|;
    var i2 := i1 + |Parenthesised(vs)|;
    var end := i2 + |z|;
    StarSmilesWindow(smi, u, vs, z, i1, i2, end);
    var twigs := TwigsScanned(stem, vs, i2);
    var last := AtomsScanned(twigs, z, end);
    BumpOne(|u|, |z|, |u| + |z|);
    assert last == StarScanned(u, vs, z);
    TwigsScan(smi, rings, stem, vs, i1, i2);
    AtomsScan(smi, rings, twigs, z, i2, end);
  }

  /** The scan of `u(v1)...(vk)z` ends in the star's scan state. */
  lemma StarScan(u: string, vs: seq<string>, z: string, rings: bool)
    requires Star(u, vs, z)
    ensures BracketsClosed(StarSmiles(u, vs, z))
    ensures Scan(StarSmiles(u, vs, z), rings, true, Encoder.Start) == Some(StarScanned(u, vs, z))
  {
    var smi := StarSmiles(u, vs, z);
    StarUnbracketed(u, vs, z);
    UnbracketedClosed(smi);
    var stem := ScanState(|u|, Singles(u), [|u|], map[], map[]);
    StarScanHead(smi, rings, u, vs, z, stem);
    StarScanTail(smi, rings, u, vs, z, stem);
  }

  /** `encode` with branch compaction, with or without ring compaction,
      turns `u(v1)...(vk)z` into `u v1)..) v2)..) ... z`. */
  lemma EncodeStar(u: string, vs: seq<string>, z: string, rings: bool)
    requires Star(u, vs, z)
    ensures BracketsClosed(StarSmiles(u, vs, z))
    ensures Encode(StarSmiles(u, vs, z), rings, true) == Some(StarDeep(u, vs, z))
  {
    StarScan(u, vs, z, rings);
    var ans := Singles(u) + Pieces(vs) + Singles(z);
    assert forall k :: 0 <= k < |ans| ==> Records(map[], k) == [];
    JoinAppend(Singles(u) + Pieces(vs), Singles(z));
    JoinAppend(Singles(u), Pieces(vs));
    JoinSingles(u);
    JoinSingles(z);
    JoinPieces(vs);
  }
}
