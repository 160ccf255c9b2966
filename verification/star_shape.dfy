/** SMILES made of chains of plain atoms with one layer of branches on one
    atom, `u(v1)(v2)...(vk)z`, and the DeepSMILES the branch compaction
    writes for them, `u v1)..) v2)..) ... z` with one `)` per atom of each
    branch. */
module StarShape {
  import opened Lexicon

  /** Every branch is a non-empty chain of plain atoms. */
  predicate Twigs(vs: seq<string>)
  {
    forall j :: 0 <= j < |vs| ==> 0 < |vs[j]| && PlainChain(vs[j])
  }

  /** A stem `u`, the branches `vs` on its last atom and a non-empty
      continuation `z`. */
  predicate Star(u: string, vs: seq<string>, z: string)
  {
    0 < |u| && PlainChain(u) && Twigs(vs) && 0 < |z| && PlainChain(z)
  }

  /** The branches SMILES-style, each in parentheses. */
  function Parenthesised(vs: seq<string>): string
  {
    if |vs| == 0 then "" else Parenthesised(vs[..|vs| - 1]) + "(" + vs[|vs| - 1] + ")"
  }

  /** The branches DeepSMILES-style, each followed by one `)` per atom. */
  function Popped(vs: seq<string>): string
  {
    if |vs| == 0 then "" else Popped(vs[..|vs| - 1]) + vs[|vs| - 1] + Repeat(')', |vs[|vs| - 1]|)
  }

  function StarSmiles(u: string, vs: seq<string>, z: string): string
  {
    u + Parenthesised(vs) + z
  }

  function StarDeep(u: string, vs: seq<string>, z: string): string
  {
    u + Popped(vs) + z
  }

  /** No `[` anywhere, so no bracket atom is left open. */
  predicate Unbracketed(s: string)
  {
    forall k :: 0 <= k < |s| ==> s[k] != '['
  }

  lemma CloseParenClass()
    ensures !IsBondChar(')') && !IsRingSymbol(')') && !PlainAtom(')')
  {
    assert BondChars == ['-', '=', '#', '$', ':', '\\', '/'];
  }

  /** A window of `ds` holding `a + b + c`, cut where each part ends. */
  lemma SliceThree(ds: string, i0: nat, i1: nat, i2: nat, i3: nat, a: string, b: string, c: string)
    requires i1 == i0 + |a| && i2 == i1 + |b| && i3 == i2 + |c| && i3 <= |ds|
    requires ds[i0..i3] == a + b + c
    ensures ds[i0..i1] == a && ds[i1..i2] == b && ds[i2..i3] == c
  {
    var ab := a + b;
    assert ds[i0..i2] == ds[i0..i3][..|ab|] == ab;
    assert ds[i2..i3] == ds[i0..i3][|ab|..] == c;
    assert ds[i0..i1] == ds[i0..i2][..|a|] == a;
    assert ds[i1..i2] == ds[i0..i2][|a|..] == b;
  }

  /** A non-empty window starts with `w`'s first character, and the rest
      of the window, from `j` on, holds the rest of `w`. */
  lemma SliceTail(ds: string, i: nat, j: nat, end: nat, w: string)
    requires j == i + 1 && i < end <= |ds| && ds[i..end] == w
    ensures 0 < |w| && ds[i] == w[0] && ds[j..end] == w[1..]
  {
    assert ds[i] == ds[i..end][0];
    assert ds[j..end] == ds[i..end][1..];
  }

  /** A non-empty window ends with `w`'s last character. */
  lemma SliceLast(ds: string, i: nat, end: nat, w: string)
    requires i < end <= |ds| && ds[i..end] == w
    ensures 0 < |w| && ds[end - 1] == w[|w| - 1]
  {
    assert ds[end - 1] == ds[i..end][|w| - 1];
  }

  /** A window holding `n` copies of `c` holds `c` everywhere. */
  lemma SliceRepeat(ds: string, i: nat, end: nat, c: char, n: nat)
    requires end == i + n && end <= |ds| && ds[i..end] == Repeat(c, n)
    ensures forall p :: i <= p < end ==> ds[p] == c
  {
    forall p | i <= p < end
      ensures ds[p] == c
    {
      assert ds[p] == ds[i..end][p - i];
    }
  }

  lemma SinglesAppend(a: string, b: string)
    ensures Singles(a + b) == Singles(a) + Singles(b)
  {
  }

  lemma SinglesCons(w: string)
    requires 0 < |w|
    ensures Singles(w) == [[w[0]]] + Singles(w[1..])
  {
  }

  lemma UnbracketedAppend(a: string, b: string)
    requires Unbracketed(a) && Unbracketed(b)
    ensures Unbracketed(a + b)
  {
    forall k | 0 <= k < |a + b|
      ensures (a + b)[k] != '['
    {
      if k < |a| {
        assert (a + b)[k] == a[k];
      } else {
        assert (a + b)[k] == b[k - |a|];
      }
    }
  }

  lemma PlainUnbracketed(w: string)
    requires PlainChain(w)
    ensures Unbracketed(w)
  {
    forall k | 0 <= k < |w|
      ensures w[k] != '['
    {
      PlainAtomClass(w[k]);
    }
  }

  /** The parenthesised branches hold no `[`. */
  lemma {:induction false} ParenthesisedUnbracketed(vs: seq<string>)
    requires Twigs(vs)
    ensures Unbracketed(Parenthesised(vs))
    decreases |vs|
  {
    if 0 < |vs| {
      var init := vs[..|vs| - 1];
      var v := vs[|vs| - 1];
      assert Twigs(init);
      ParenthesisedUnbracketed(init);
      PlainUnbracketed(v);
      UnbracketedAppend(Parenthesised(init), "(");
      UnbracketedAppend(Parenthesised(init) + "(", v);
      UnbracketedAppend(Parenthesised(init) + "(" + v, ")");
    }
  }

  lemma StarUnbracketed(u: string, vs: seq<string>, z: string)
    requires Star(u, vs, z)
    ensures Unbracketed(StarSmiles(u, vs, z))
  {
    PlainUnbracketed(u);
    PlainUnbracketed(z);
    ParenthesisedUnbracketed(vs);
    UnbracketedAppend(u, Parenthesised(vs));
    UnbracketedAppend(u + Parenthesised(vs), z);
  }

  /** With branches, the SMILES text after the stem starts with `(` and
      ends with `)`. */
  lemma {:induction false} ParenthesisedEnds(vs: seq<string>)
    requires 0 < |vs|
    ensures 0 < |Parenthesised(vs)| && Parenthesised(vs)[0] == '('
    ensures Parenthesised(vs)[|Parenthesised(vs)| - 1] == ')'
    decreases |vs|
  {
    if 1 < |vs| {
      ParenthesisedEnds(vs[..|vs| - 1]);
    }
  }

  /** With branches, the DeepSMILES text after the stem starts with the
      first branch's first atom and ends with `)`. */
  lemma {:induction false} PoppedEnds(vs: seq<string>)
    requires 0 < |vs| && Twigs(vs)
    ensures 0 < |Popped(vs)| && Popped(vs)[0] == vs[0][0]
    ensures Popped(vs)[|Popped(vs)| - 1] == ')'
    decreases |vs|
  {
    var init := vs[..|vs| - 1];
    var v := vs[|vs| - 1];
    assert Popped(vs) == Popped(init) + v + Repeat(')', |v|);
    if 0 < |init| {
      assert Twigs(init);
      PoppedEnds(init);
      assert init[0] == vs[0];
    }
  }
}
