/** A ring bond that carries a bond character at its opening only: the
    SMILES `w[..k+1] \1 w[k+1..] 1`. The encoder moves the bond to the
    closing end, where the ring is now read in the opposite direction, so
    the `\` becomes `/` and the DeepSMILES is `w` followed by `/` and the
    ring size `|w| - k`. */
module BondChain {
  import opened Lexicon
  import Stereo
  import Encoder
  import RingChain

  /** The SMILES chain `w` with ring bond 1 opened by `\1` after atom `k`
      and closed by `1` after the last atom. */
  function BondSmiles(w: string, k: nat): (s: string)
    requires k < |w|
    ensures |s| == |w| + 3
  {
    w[..k + 1] + "\\1" + w[k + 1..] + "1"
  }

  /** Its DeepSMILES form: the atoms, the flipped bond, the ring size. */
  function BondDeep(w: string, k: nat): string
    requires k < |w|
  {
    w + "/" + FormatRingNumber(|w| - k)
  }

  /** Where each character of the SMILES chain comes from. */
  lemma BondPlain(w: string, k: nat)
    requires PlainChain(w) && k < |w|
    ensures var s := BondSmiles(w, k);
      && (forall p :: 0 <= p < k + 1 ==> PlainAtom(s[p]))
      && (forall p :: k + 3 <= p < |w| + 2 ==> PlainAtom(s[p]))
      && s[k + 1] == '\\' && s[k + 2] == '1' && s[|w| + 2] == '1'
  {
    var s := BondSmiles(w, k);
    forall p | 0 <= p < k + 1
      ensures PlainAtom(s[p])
    {
      assert s[p] == w[p];
    }
    forall p | k + 3 <= p < |w| + 2
      ensures PlainAtom(s[p])
    {
      assert s[p] == w[p - 2];
    }
  }

  lemma BondBrackets(w: string, k: nat)
    requires PlainChain(w) && k < |w|
    ensures Encoder.BracketsClosed(BondSmiles(w, k))
  {
    var s := BondSmiles(w, k);
    BondPlain(w, k);
    forall p | 0 <= p < |s|
      ensures s[p] != '['
    {
      if p <= k || k + 3 <= p < |w| + 2 {
        PlainAtomClass(s[p]);
      }
    }
  }

  /** The opening of ring 1 as the encoder remembers it: at depth `k + 1`,
      with the bond `\`, after piece `k`, at position `k + 2`. */
  function BondOpening(k: nat): Encoder.Opening
  {
    Encoder.Opening(k + 1, "\\", k, k + 2)
  }

  /** The scan state after the atoms `0..k`, before the `\`. */
  function BeforeBond(w: string, k: nat): Encoder.ScanState
    requires k < |w|
  {
    Encoder.ScanState(k + 1, Singles(w[..k + 1]), [k + 1], map[], map[])
  }

  /** The scan state after the opening `1`. */
  function AfterRing(w: string, k: nat): Encoder.ScanState
    requires k < |w|
  {
    BeforeBond(w, k).(i := k + 3, openings := map["1" := BondOpening(k)])
  }

  /** The scan state before the closing `1`. */
  function BeforeEnd(w: string, k: nat): Encoder.ScanState
  {
    Encoder.ScanState(|w| + 2, Singles(w), [|w|], map["1" := BondOpening(k)], map[])
  }

  /** The scan state after the closing `1`: the last piece carries `/`
      and the ring size. */
  function AfterEnd(w: string, k: nat): Encoder.ScanState
    requires k < |w|
  {
    BeforeEnd(w, k).(i := |w| + 3, openings := map["1" := BondOpening(k)] - {"1"},
                     info := Encoder.AddRecord(map[], |w| - 1, Stereo.Close(|w| + 2, "/" + FormatRingNumber(|w| - k))))
  }

  /** The atoms `0..k` are read from the start. */
  lemma {:induction false} BondHead(w: string, k: nat, branches: bool)
    requires PlainChain(w) && k < |w|
    ensures Encoder.BracketsClosed(BondSmiles(w, k))
    ensures Encoder.Scan(BondSmiles(w, k), true, branches, Encoder.Start)
         == Encoder.Scan(BondSmiles(w, k), true, branches, BeforeBond(w, k))
  {
    var s := BondSmiles(w, k);
    BondBrackets(w, k);
    BondPlain(w, k);
    Encoder.AfterAtomsFromStart(s, k + 1);
    assert s[..k + 1] == w[..k + 1];
    Encoder.ScanAtoms(s, true, branches, Encoder.Start, k + 1);
  }

  /** The `\` is skipped and the `1` after it opens ring 1 with that bond
      character. */
  lemma BondOpen(w: string, k: nat, branches: bool)
    requires PlainChain(w) && k < |w|
    ensures Encoder.BracketsClosed(BondSmiles(w, k))
    ensures Encoder.Scan(BondSmiles(w, k), true, branches, BeforeBond(w, k))
         == Encoder.Scan(BondSmiles(w, k), true, branches, AfterRing(w, k))
  {
    var s := BondSmiles(w, k);
    var st := BeforeBond(w, k);
    var st1 := st.(i := k + 2);
    BondBrackets(w, k);
    BondPlain(w, k);
    assert IsBondChar(s[k + 1]) by {
      assert BondChars == ['-', '=', '#', '$', ':', '\\', '/'];
    }
    assert Encoder.Step(s, true, branches, st) == Some(st1);
    OpenStep(w, k, branches);
    Encoder.ScanFrom(s, true, branches, st1, AfterRing(w, k));
    Encoder.ScanFrom(s, true, branches, st, st1);
  }

  /** The `1` at `k + 2` is a first mention, remembered with the `\`
      before it. */
  lemma OpenStep(w: string, k: nat, branches: bool)
    requires PlainChain(w) && k < |w|
    ensures Encoder.BracketsClosed(BondSmiles(w, k))
    ensures Encoder.Step(BondSmiles(w, k), true, branches, BeforeBond(w, k).(i := k + 2)) == Some(AfterRing(w, k))
  {
    var s := BondSmiles(w, k);
    var st1 := BeforeBond(w, k).(i := k + 2);
    BondBrackets(w, k);
    BondPlain(w, k);
    RingSymbolClass(s[k + 2]);
    assert PrevBond(s, k + 2) == "\\" by {
      assert BondChars == ['-', '=', '#', '$', ':', '\\', '/'];
    }
    assert Encoder.Depth(st1.levels) == k + 1 by {
      assert st1.levels == [k + 1];
      assert [k + 1][..0] == [];
    }
    Encoder.RingMentionOpens(s, st1, "1");
    Encoder.RingStep(s, branches, st1);
  }

  /** Then the atoms after the opening, up to the closing `1`. */
  lemma {:induction false} BondTail(w: string, k: nat, branches: bool)
    requires PlainChain(w) && k < |w|
    ensures Encoder.BracketsClosed(BondSmiles(w, k))
    ensures Encoder.Scan(BondSmiles(w, k), true, branches, AfterRing(w, k))
         == Encoder.Scan(BondSmiles(w, k), true, branches, BeforeEnd(w, k))
  {
    var s := BondSmiles(w, k);
    BondBrackets(w, k);
    BondPlain(w, k);
    RingSymbolClass(s[k + 2]);
    TailState(w, k);
    Encoder.ScanAtoms(s, true, branches, AfterRing(w, k), |w| - k - 1);
  }

  lemma TailState(w: string, k: nat)
    requires k < |w|
    ensures Encoder.AfterAtoms(BondSmiles(w, k), AfterRing(w, k), |w| - k - 1) == BeforeEnd(w, k)
  {
    assert BondSmiles(w, k)[k + 3..|w| + 2] == w[k + 1..];
    assert Singles(w[..k + 1]) + Singles(w[k + 1..]) == Singles(w);
    RingChain.TailLevels(|w|, k);
  }

  /** The closing `1` has no bond character of its own. */
  lemma EndUnbonded(w: string, k: nat)
    requires PlainChain(w) && k < |w|
    ensures PrevBond(BondSmiles(w, k), |w| + 2) == ""
  {
    var s := BondSmiles(w, k);
    BondPlain(w, k);
    if k < |w| - 1 {
      PlainAtomClass(s[|w| + 1]);
    } else {
      RingSymbolClass(s[|w| + 1]);
    }
  }

  /** The closing `1` takes the opening's `\`, flipped to `/`, and the
      ring size `|w| - k`. */
  lemma EndToken(w: string, k: nat)
    requires PlainChain(w) && k < |w|
    ensures Encoder.RingCloseToken(BondSmiles(w, k), BeforeEnd(w, k), BondOpening(k)) == "/" + FormatRingNumber(|w| - k)
  {
    EndUnbonded(w, k);
    assert Encoder.Depth(BeforeEnd(w, k).levels) == |w| by {
      assert BeforeEnd(w, k).levels == [|w|];
      assert [|w|][..0] == [];
    }
    assert Encoder.RingGap(BeforeEnd(w, k).levels, BondOpening(k)) == |w| - k;
  }

  /** The closing `1` is the second mention of ring 1. */
  lemma EndMention(w: string, k: nat)
    requires PlainChain(w) && k < |w|
    ensures Encoder.RingMention(BondSmiles(w, k), BeforeEnd(w, k))
         == Encoder.CloseMention(BeforeEnd(w, k), "1", BondOpening(k), |w| + 2, "/" + FormatRingNumber(|w| - k))
  {
    EndToken(w, k);
    EndMentionAt(BondSmiles(w, k), w, k, "/" + FormatRingNumber(|w| - k));
  }

  /** The same on any text with `1` at `|w| + 2`, whatever token it
      gives. */
  lemma EndMentionAt(smi: string, w: string, k: nat, token: string)
    requires |w| + 2 < |smi| && smi[|w| + 2] == '1'
    requires Encoder.RingCloseToken(smi, BeforeEnd(w, k), BondOpening(k)) == token
    ensures Encoder.RingMention(smi, BeforeEnd(w, k))
         == Encoder.CloseMention(BeforeEnd(w, k), "1", BondOpening(k), |w| + 2, token)
  {
    var st := BeforeEnd(w, k);
    assert IsRingSymbol(smi[|w| + 2]) && Encoder.RingSymbol(smi, |w| + 2) == "1";
    assert "1" in st.openings && st.openings["1"] == BondOpening(k);
    Encoder.RingMentionSecond(smi, st, "1", |w| + 2);
  }

  /** The opening atom holds no `@`, so only the closing record is added. */
  lemma EndRecords(w: string, k: nat)
    requires PlainChain(w) && k < |w|
    ensures Encoder.CloseMention(BeforeEnd(w, k), "1", BondOpening(k), |w| + 2, "/" + FormatRingNumber(|w| - k))
         == Some(AfterEnd(w, k))
  {
    var st := BeforeEnd(w, k);
    PlainAtomClass(w[k]);
    assert '@' !in st.ans[k];
    Encoder.CloseMentionPlain(st, "1", BondOpening(k), |w| + 2, "/" + FormatRingNumber(|w| - k), |w| + 3, |w| - 1, AfterEnd(w, k));
  }

  /** The closing `1` attaches `/` and the ring size to the last piece. */
  lemma BondEnd(w: string, k: nat, branches: bool)
    requires PlainChain(w) && k < |w|
    ensures Encoder.BracketsClosed(BondSmiles(w, k))
    ensures Encoder.Scan(BondSmiles(w, k), true, branches, BeforeEnd(w, k)) == Some(AfterEnd(w, k))
  {
    var s := BondSmiles(w, k);
    BondBrackets(w, k);
    BondPlain(w, k);
    RingSymbolClass(s[|w| + 2]);
    EndMention(w, k);
    EndRecords(w, k);
    Encoder.RingStep(s, branches, BeforeEnd(w, k));
    assert Encoder.Scan(s, true, branches, AfterEnd(w, k)) == Some(AfterEnd(w, k));
    Encoder.ScanFrom(s, true, branches, BeforeEnd(w, k), AfterEnd(w, k));
  }

  /** The whole scan: one piece per atom, `/` and the ring size recorded
      on the last one. */
  lemma {:induction false} ScanBondChain(w: string, k: nat, branches: bool)
    requires PlainChain(w) && k < |w|
    ensures Encoder.BracketsClosed(BondSmiles(w, k))
    ensures Encoder.Scan(BondSmiles(w, k), true, branches, Encoder.Start) == Some(AfterEnd(w, k))
  {
    BondEnd(w, k, branches);
    BondTail(w, k, branches);
    BondOpen(w, k, branches);
    BondHead(w, k, branches);
  }

  /** Ring compaction carries the opening's bond character across the
      ring: `\` at the opening is written as `/` before the ring size. */
  lemma {:induction false} EncodeBondChain(w: string, k: nat, branches: bool)
    requires PlainChain(w) && k < |w|
    ensures Encoder.BracketsClosed(BondSmiles(w, k))
    ensures Encoder.Encode(BondSmiles(w, k), true, branches) == Some(BondDeep(w, k))
  {
    ScanBondChain(w, k, branches);
    RingChain.StitchChain(w, |w| + 2, "/" + FormatRingNumber(|w| - k));
    assert w + ("/" + FormatRingNumber(|w| - k)) == BondDeep(w, k);
  }

  lemma FourRingTexts()
    ensures PlainChain("CCCC")
    ensures BondSmiles("CCCC", 0) == "C\\1CCC1"
    ensures BondDeep("CCCC", 0) == "CCCC/4"
  {
    var r := FormatRingNumber(4);
    assert r[0] == '4';
  }

  /** `C\1CCC1` is encoded as `CCCC/4`. */
  lemma ExampleBondedRing(smiles: string)
    requires smiles == "C\\1CCC1"
    ensures Encoder.BracketsClosed(smiles)
    ensures Encoder.Encode(smiles, true, false) == Some("CCCC/4")
  {
    FourRingTexts();
    EncodeBondChain("CCCC", 0, false);
  }
}
