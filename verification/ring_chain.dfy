/** Ring compaction on a chain of plain atoms closed by one ring: the
    SMILES `w[..k+1] 1 w[k+1..] 1` and the DeepSMILES `w` followed by the
    ring size `|w| - k`. The encoder turns the first into the second, the
    ring decoder turns the second back into the first, and the decoder's
    two failures (a ring larger than the path, a ring of size 0) are pinned
    down on the same shape. */
module RingChain {
  import opened Lexicon
  import opened DecodeErrors
  import Stereo
  import Encoder
  import RingDecoder
  import Decoder

  /** The SMILES chain `w` with ring bond 1 opened after atom `k` and
      closed after the last atom. */
  function ChainSmiles(w: string, k: nat): (s: string)
    requires k < |w|
    ensures |s| == |w| + 2
  {
    w[..k + 1] + "1" + w[k + 1..] + "1"
  }

  /** The SMILES chain holds plain atoms except for the two `1`s. */
  lemma ChainPlain(w: string, k: nat)
    requires PlainChain(w) && k < |w|
    ensures var s := ChainSmiles(w, k);
      && (forall p :: 0 <= p < k + 1 ==> PlainAtom(s[p]))
      && (forall p :: k + 2 <= p < |w| + 1 ==> PlainAtom(s[p]))
      && s[k + 1] == '1' && s[|w| + 1] == '1'
  {
    var s := ChainSmiles(w, k);
    forall p | 0 <= p < k + 1
      ensures PlainAtom(s[p])
    {
      assert s[p] == w[p];
    }
    forall p | k + 2 <= p < |w| + 1
      ensures PlainAtom(s[p])
    {
      assert s[p] == w[p - 1];
    }
  }

  /** The DeepSMILES form: the atoms, then the ring size. */
  function ChainDeep(w: string, size: nat): string
  {
    w + FormatRingNumber(size)
  }

  lemma FormatOne()
    ensures FormatRingNumber(1) == "1"
  {
    var r := FormatRingNumber(1);
    assert r[0] == '1';
  }

  /** The pieces the ring decoder has written when the ring token has been
      read: one per atom, the last carrying the closing number. With the
      opening number placed after atom `j` they join to the SMILES chain. */
  lemma JoinChainPieces(w: string, j: nat)
    requires j < |w|
    ensures
      var x := ClosedPieces(w);
      Join(x[j := x[j] + "1"]) == ChainSmiles(w, j)
  {
    var x := ClosedPieces(w);
    JoinUpdate(x, j, "1");
    if j == |w| - 1 {
      JoinLastMarked(w);
    } else {
      JoinBeforeMark(w, j);
      JoinFromMark(w, j);
    }
  }

  /** With the opening on the last atom, both numbers follow it. */
  lemma JoinLastMarked(w: string)
    requires 0 < |w|
    ensures
      var x := ClosedPieces(w);
      Join(x[..|w|]) + "1" + Join(x[|w|..]) == ChainSmiles(w, |w| - 1)
  {
    var n := |w|;
    var x := ClosedPieces(w);
    assert x[..n] == x;
    assert x[n..] == [];
    JoinSinglesMark(w, n - 1, "1");
    assert w[..n] == w && w[n..] == "";
  }

  /** The pieces up to the opening atom join to those atoms. */
  lemma JoinBeforeMark(w: string, j: nat)
    requires j < |w| - 1
    ensures Join(ClosedPieces(w)[..j + 1]) == w[..j + 1]
  {
    assert ClosedPieces(w)[..j + 1] == Singles(w[..j + 1]);
    JoinSingles(w[..j + 1]);
  }

  /** The pieces after the opening atom join to those atoms and the
      closing number. */
  lemma JoinFromMark(w: string, j: nat)
    requires j < |w| - 1
    ensures Join(ClosedPieces(w)[j + 1..]) == w[j + 1..] + "1"
  {
    var tail := w[j + 1..];
    assert ClosedPieces(w)[j + 1..] == Singles(tail)[|tail| - 1 := [tail[|tail| - 1]] + "1"];
    JoinSinglesMark(tail, |tail| - 1, "1");
    assert tail[..|tail|] == tail && tail[|tail|..] == "";
  }

  /** The ring decoder's state once the atoms of `w` have been read from
      `w + tail`: one piece per atom, all their indices on the one level. */
  lemma DecodeAtoms(w: string, tail: string)
    requires PlainChain(w) && 0 < |tail| && IsRingSymbol(tail[0])
    ensures
      var ds := w + tail;
      RingDecoder.Run(ds, RingDecoder.Start)
      == RingDecoder.Run(ds, AtomsRead(w))
  {
    var ds := w + tail;
    assert ds[|w|] == tail[0];
    assert forall p :: 0 <= p < |w| ==> ds[p] == w[p];
    RingSymbolClass(tail[0]);
    RingDecoder.RunAtoms(ds, RingDecoder.Start, |w|);
    RingDecoder.AfterAtomsFromStart(ds, |w|);
    assert ds[..|w|] == w;
  }

  /** A token for ring size `size` the ring decoder reads: the encoder's
      three-tier format, or `%(N)` for any size. */
  predicate SizeToken(t: string, size: nat)
  {
    t == FormatRingNumber(size) || t == RingDecoder.ParenRingNumber(size)
  }

  /** The ring decoder's state after the atoms of `w`. */
  function AtomsRead(w: string): RingDecoder.RState
  {
    RingDecoder.RState(|w|, [RingDecoder.Range(0, |w|)], Singles(w), map[], 1)
  }

  /** No bond character stands before a token that follows the atoms. */
  lemma TokenUnbonded(w: string, t: string)
    requires 0 < |w| && PlainAtom(w[|w| - 1]) && 0 < |t|
    ensures (w + t)[|w|] == t[0] && PrevBond(w + t, |w|) == ""
  {
    PlainAtomClass(w[|w| - 1]);
    assert (w + t)[|w| - 1] == w[|w| - 1];
  }

  /** The ring token of size `d` after the atoms of `w`, on the state
      `DecodeAtoms` reaches. */
  lemma DecodeToken(w: string, t: string, d: nat)
    requires 0 < |w| && PlainAtom(w[|w| - 1]) && 0 < |t| && IsRingSymbol(t[0])
    requires RingDecoder.RingSize(w + t, |w|) == Ok((d, |w + t| - 1))
    ensures RingDecoder.Good(AtomsRead(w)) && |w| < |w + t|
    ensures RingDecoder.Step(w + t, AtomsRead(w)) == RingDecoder.PlaceRing(w + t, AtomsRead(w), d, |w + t| - 1, "")
  {
    ChainGood(w);
    TokenUnbonded(w, t);
    RingDecoder.UnbondedTokenStep(w + t, AtomsRead(w), d, |w + t| - 1);
  }

  lemma ChainGood(w: string)
    ensures RingDecoder.Good(AtomsRead(w))
  {
  }

  /** The flattened levels of the chain: the atoms from the latest back. */
  lemma ChainFlattened(n: nat)
    ensures |RingDecoder.FlattenInReverse([RingDecoder.Range(0, n)])| == n
    ensures forall q :: 0 <= q < n ==> RingDecoder.FlattenInReverse([RingDecoder.Range(0, n)])[q] == n - 1 - q
  {
    var levels := [RingDecoder.Range(0, n)];
    assert levels[..0] == [];
    assert RingDecoder.FlattenInReverse(levels) == RingDecoder.Reverse(RingDecoder.Range(0, n)) + [];
  }

  /** The pieces of the chain once the ring token has been read: one per
      atom, the last carrying the closing number. */
  function ClosedPieces(w: string): seq<string>
    requires 0 < |w|
  {
    Singles(w)[|w| - 1 := [w[|w| - 1]] + "1"]
  }

  /** A ring size within the chain closes ring 1 on the latest atom and
      opens it on the atom `size - 1` steps back. */
  lemma PlaceInChain(w: string, t: string, size: nat)
    requires 1 <= size <= |w|
    ensures RingDecoder.Good(AtomsRead(w)) && 0 < |AtomsRead(w).ans|
    ensures RingDecoder.PlaceRing(w + t, AtomsRead(w), size, |w + t| - 1, "") == Ok(ChainRead(w, t, size))
  {
    var n := |w|;
    var st := AtomsRead(w);
    ChainFlattened(n);
    FormatOne();
    var placed := RingDecoder.PlaceRing(w + t, st, size, |w + t| - 1, "");
    assert RingDecoder.FlattenInReverse(st.levels)[size - 1] == n - size;
    assert Singles(w)[n - 1] + "" + "1" == [w[n - 1]] + "1";
    assert RingDecoder.ClosuresAt(map[], n - size) + "1" == "1";
    assert placed.value.ans == ClosedPieces(w);
    assert placed.value.closures == map[n - size := "1"];
  }

  /** The final pass over those pieces, with the opening number after
      atom `j`, writes the SMILES chain. */
  lemma FinishChain(w: string, j: nat)
    requires j < |w|
    ensures RingDecoder.Finish(ClosedPieces(w), map[j := "1"]) == ChainSmiles(w, j)
  {
    var x := ClosedPieces(w);
    RingDecoder.FinishIsJoin(x, map[j := "1"]);
    var d := RingDecoder.Decorated(x, map[j := "1"]);
    forall k | 0 <= k < |x|
      ensures d[k] == x[j := x[j] + "1"][k]
    {
      if k != j {
        assert RingDecoder.ClosuresAt(map[j := "1"], k) == "";
        assert x[k] + "" == x[k];
      }
    }
    assert d == x[j := x[j] + "1"];
    JoinChainPieces(w, j);
  }

  /** The ring decoder's state once the whole chain has been read. */
  function ChainRead(w: string, t: string, size: nat): RingDecoder.RState
    requires size <= |w| && 0 < |w|
  {
    AtomsRead(w).(i := |w + t|, ans := ClosedPieces(w), closures := map[|w| - size := "1"], next := 2)
  }

  /** The ring token places ring 1 on the chain. */
  lemma PlaceToken(w: string, t: string, size: nat)
    requires PlainChain(w) && SizeToken(t, size) && 1 <= size <= |w|
    ensures RingDecoder.Good(AtomsRead(w)) && |w| < |w + t|
    ensures RingDecoder.Step(w + t, AtomsRead(w)) == Ok(ChainRead(w, t, size))
  {
    RingDecoder.RingSizeOfToken(w, t, size);
    DecodeToken(w, t, size);
    PlaceInChain(w, t, size);
  }

  /** The ring decoder reads the whole chain. */
  lemma {:induction false} RunChain(w: string, t: string, size: nat)
    requires PlainChain(w) && SizeToken(t, size) && 1 <= size <= |w|
    ensures RingDecoder.Run(w + t, RingDecoder.Start) == Ok(ChainRead(w, t, size))
  {
    var ds := w + t;
    PlaceToken(w, t, size);
    assert RingDecoder.Run(ds, ChainRead(w, t, size)) == Ok(ChainRead(w, t, size));
    RingDecoder.RingSizeOfToken(w, t, size);
    // The facts about `Run` come last.
    RingDecoder.RunFrom(ds, AtomsRead(w), ChainRead(w, t, size));
    DecodeAtoms(w, t);
  }

  /** A ring size within the chain decodes to the SMILES chain with the
      ring opened `size - 1` atoms before the last. */
  lemma {:induction false} DecodeRingChain(w: string, t: string, size: nat)
    requires PlainChain(w) && SizeToken(t, size) && 1 <= size <= |w|
    ensures RingDecoder.DecodeOnlyRings(w + t) == Ok(ChainSmiles(w, |w| - size))
  {
    RunChain(w, t, size);
    FinishChain(w, |w| - size);
  }

  /** A ring size larger than the number of atoms has no partner: a decode
      error at the token's last character. */
  lemma {:induction false} DecodeRingChainTooLarge(w: string, t: string, size: nat)
    requires PlainChain(w) && SizeToken(t, size) && 0 < |w| < size
    ensures RingDecoder.DecodeOnlyRings(w + t) == Fail(DecodeError(w + t, |w + t| - 1, NoRingPartner + NatToDecimal(size)))
  {
    RingDecoder.RingSizeOfToken(w, t, size);
    DecodeAtoms(w, t);
    DecodeToken(w, t, size);
    ChainFlattened(|w|);
  }

  /** A ring of size 0 makes the source look up element -1 of the path,
      which raises a `ValueError` rather than a decode error. */
  lemma {:induction false} DecodeRingChainZero(w: string, t: string)
    requires PlainChain(w) && SizeToken(t, 0) && 0 < |w|
    ensures RingDecoder.DecodeOnlyRings(w + t) == Crash
  {
    RingDecoder.RingSizeOfToken(w, t, 0);
    DecodeAtoms(w, t);
    DecodeToken(w, t, 0);
  }

  lemma ChainBrackets(w: string, k: nat)
    requires PlainChain(w) && k < |w|
    ensures Encoder.BracketsClosed(ChainSmiles(w, k))
  {
    var s := ChainSmiles(w, k);
    forall p | 0 <= p < |s|
      ensures s[p] != '['
    {
      if p <= k {
        PlainAtomClass(w[p]);
      } else if k + 2 <= p <= |w| {
        PlainAtomClass(w[p - 1]);
      }
    }
  }

  /** The opening of ring 1 as the encoder remembers it: at depth `k + 1`,
      with no bond character, after piece `k`. */
  function ChainOpening(k: nat): Encoder.Opening
  {
    Encoder.Opening(k + 1, "", k, k + 1)
  }

  /** The scan state just before the opening `1`: one piece per atom of
      `w[..k + 1]`, all counted on the one level. */
  function BeforeOpen(w: string, k: nat): Encoder.ScanState
    requires k < |w|
  {
    Encoder.ScanState(k + 1, Singles(w[..k + 1]), [k + 1], map[], map[])
  }

  /** The scan state just after the opening `1`, which is remembered as
      `ChainOpening(k)`. */
  function AfterOpen(w: string, k: nat): Encoder.ScanState
    requires k < |w|
  {
    BeforeOpen(w, k).(i := k + 2, openings := map["1" := ChainOpening(k)])
  }

  /** The atoms `0..k` are read from the start. */
  lemma HeadAtoms(w: string, k: nat)
    requires k < |w|
    ensures Encoder.AfterAtoms(ChainSmiles(w, k), Encoder.Start, k + 1) == BeforeOpen(w, k)
  {
    var s := ChainSmiles(w, k);
    Encoder.AfterAtomsFromStart(s, k + 1);
    assert s[..k + 1] == w[..k + 1];
  }

  /** Before the opening `1` the scan is at depth `k + 1`. */
  lemma OpenDepth(w: string, k: nat)
    requires k < |w|
    ensures Encoder.Depth(BeforeOpen(w, k).levels) == k + 1
  {
    assert BeforeOpen(w, k).levels == [k + 1];
    assert [k + 1][..0] == [];
  }

  /** The opening `1` is the first mention of ring 1. */
  lemma EncodeOpen(w: string, k: nat, branches: bool)
    requires PlainChain(w) && k < |w|
    ensures Encoder.BracketsClosed(ChainSmiles(w, k))
    ensures Encoder.Step(ChainSmiles(w, k), true, branches, BeforeOpen(w, k)) == Some(AfterOpen(w, k))
  {
    var s := ChainSmiles(w, k);
    ChainBrackets(w, k);
    assert s[k + 1] == '1';
    RingSymbolClass(s[k + 1]);
    PlainAtomClass(s[k]);
    assert PrevBond(s, k + 1) == "";
    OpenDepth(w, k);
    Encoder.RingMentionOpens(s, BeforeOpen(w, k), "1");
    Encoder.RingStep(s, branches, BeforeOpen(w, k));
  }

  /** The encoder reads atoms `0..k` and then the opening `1`. */
  lemma {:induction false} EncodeHead(w: string, k: nat, branches: bool)
    requires PlainChain(w) && k < |w|
    ensures Encoder.BracketsClosed(ChainSmiles(w, k))
    ensures Encoder.Scan(ChainSmiles(w, k), true, branches, Encoder.Start)
         == Encoder.Scan(ChainSmiles(w, k), true, branches, AfterOpen(w, k))
  {
    var s := ChainSmiles(w, k);
    EncodeOpen(w, k, branches);
    HeadAtoms(w, k);
    ChainPlain(w, k);
    // The facts about `Scan` come last.
    Encoder.ScanFrom(s, true, branches, BeforeOpen(w, k), AfterOpen(w, k));
    Encoder.ScanAtoms(s, true, branches, Encoder.Start, k + 1);
  }

  /** Then the atoms after the opening, up to the closing `1`. */
  lemma {:induction false} EncodeTail(w: string, k: nat, branches: bool)
    requires PlainChain(w) && k < |w|
    ensures Encoder.BracketsClosed(ChainSmiles(w, k))
    ensures Encoder.Scan(ChainSmiles(w, k), true, branches, AfterOpen(w, k))
         == Encoder.Scan(ChainSmiles(w, k), true, branches, BeforeClose(w, k))
  {
    var s := ChainSmiles(w, k);
    ChainBrackets(w, k);
    TailState(w, k);
    ChainPlain(w, k);
    RingSymbolClass(s[k + 1]);
    // The facts about `Scan` come last.
    Encoder.ScanAtoms(s, true, branches, AfterOpen(w, k), |w| - k - 1);
  }

  /** The atoms after the opening bring the pieces to one per atom of `w`
      and the count on the one level to `|w|`. */
  lemma TailState(w: string, k: nat)
    requires k < |w|
    ensures Encoder.AfterAtoms(ChainSmiles(w, k), AfterOpen(w, k), |w| - k - 1) == BeforeClose(w, k)
  {
    TailPieces(w, k);
    TailLevels(|w|, k);
  }

  lemma TailPieces(w: string, k: nat)
    requires k < |w|
    ensures Singles(w[..k + 1]) + Singles(ChainSmiles(w, k)[k + 2..|w| + 1]) == Singles(w)
  {
    assert ChainSmiles(w, k)[k + 2..|w| + 1] == w[k + 1..];
  }

  lemma TailLevels(n: nat, k: nat)
    requires k < n
    ensures Encoder.Bump([k + 1], n - k - 1) == [n]
  {
    var lv: seq<nat> := [k + 1];
    assert lv[..0] == [];
  }

  /** The scan state just before the closing `1`. */
  function BeforeClose(w: string, k: nat): Encoder.ScanState
  {
    Encoder.ScanState(|w| + 1, Singles(w), [|w|], map["1" := ChainOpening(k)], map[])
  }

  /** The scan state just after the closing `1`: the ring is forgotten and
      the last piece carries the ring size `|w| - k`. */
  function AfterClose(w: string, k: nat): Encoder.ScanState
  {
    BeforeClose(w, k).(i := |w| + 2, openings := map["1" := ChainOpening(k)] - {"1"},
                       info := Encoder.AddRecord(map[], |w| - 1, Stereo.Close(|w| + 1, FormatRingNumber(|w| - k))))
  }

  /** No bond character stands before the closing `1`. */
  lemma CloseUnbonded(w: string, k: nat)
    requires PlainChain(w) && k < |w|
    ensures PrevBond(ChainSmiles(w, k), |w| + 1) == ""
  {
    var s := ChainSmiles(w, k);
    if k < |w| - 1 {
      PlainAtomClass(s[|w|]);
    } else {
      RingSymbolClass(s[|w|]);
    }
  }

  /** The closing `1` is a one-character ring symbol. */
  lemma CloseSymbol(w: string, k: nat)
    requires k < |w|
    ensures
      var s := ChainSmiles(w, k);
      IsRingSymbol(s[|w| + 1]) && s[|w| + 1] != '%' && Encoder.RingSymbol(s, |w| + 1) == "1" == [s[|w| + 1]]
  {
  }

  /** Before the closing `1` the scan is at depth `|w|`. */
  lemma CloseDepth(w: string, k: nat)
    ensures BeforeClose(w, k).i == |w| + 1 && Encoder.Depth(BeforeClose(w, k).levels) == |w|
  {
    assert BeforeClose(w, k).levels == [|w|];
    assert [|w|][..0] == [];
  }

  /** The closing `1` is the second mention of ring 1. */
  lemma CloseIsMention(w: string, k: nat)
    requires k < |w| && PrevBond(ChainSmiles(w, k), |w| + 1) == ""
    ensures Encoder.RingMention(ChainSmiles(w, k), BeforeClose(w, k))
         == Encoder.CloseMention(BeforeClose(w, k), "1", ChainOpening(k), |w| + 1, FormatRingNumber(|w| - k))
  {
    CloseSymbol(w, k);
    CloseMentionAt(ChainSmiles(w, k), w, k);
  }

  /** The same on any text with `1` right after the chain and no bond
      character before it. */
  lemma CloseMentionAt(smi: string, w: string, k: nat)
    requires k < |w| && |w| + 1 < |smi| && smi[|w| + 1] == '1' && PrevBond(smi, |w| + 1) == ""
    ensures Encoder.RingMention(smi, BeforeClose(w, k))
         == Encoder.CloseMention(BeforeClose(w, k), "1", ChainOpening(k), |w| + 1, FormatRingNumber(|w| - k))
  {
    var st := BeforeClose(w, k);
    var o := ChainOpening(k);
    var sym := "1";
    CloseDepth(w, k);
    assert sym in st.openings && st.openings[sym] == o;
    assert IsRingSymbol('1') && sym == [smi[|w| + 1]];
    Encoder.RingMentionCloses(smi, st, sym, o, |w| - k, |w| + 1);
  }

  /** The opening atom holds no `@`, so only the closing record is added. */
  lemma CloseRecords(w: string, k: nat)
    requires PlainChain(w) && k < |w|
    ensures Encoder.CloseMention(BeforeClose(w, k), "1", ChainOpening(k), |w| + 1, FormatRingNumber(|w| - k))
         == Some(AfterClose(w, k))
  {
    var st := BeforeClose(w, k);
    var token := FormatRingNumber(|w| - k);
    OpeningPiece(w, k);
    AfterCloseUpdates(w, k, token);
    Encoder.CloseMentionPlain(st, "1", ChainOpening(k), |w| + 1, token, |w| + 2, |w| - 1, AfterClose(w, k));
  }

  /** Before the closing `1` there is one piece per atom, and the opening
      atom's piece holds no `@`. */
  lemma OpeningPiece(w: string, k: nat)
    requires PlainChain(w) && k < |w|
    ensures |BeforeClose(w, k).ans| == |w| && '@' !in BeforeClose(w, k).ans[k]
  {
    PlainAtomClass(w[k]);
  }

  /** `AfterClose` is `BeforeClose` with the three fields the closing `1`
      changes. */
  lemma AfterCloseUpdates(w: string, k: nat, token: string)
    requires token == FormatRingNumber(|w| - k)
    ensures
      var st := BeforeClose(w, k);
      AfterClose(w, k) == st.(i := |w| + 2, openings := st.openings - {"1"},
                              info := Encoder.AddRecord(st.info, |w| - 1, Stereo.Close(|w| + 1, token)))
  {
  }

  /** The closing `1` attaches the ring size `|w| - k` to the last piece. */
  lemma EncodeClose(w: string, k: nat, branches: bool)
    requires PlainChain(w) && k < |w|
    ensures Encoder.BracketsClosed(ChainSmiles(w, k))
    ensures Encoder.Step(ChainSmiles(w, k), true, branches, BeforeClose(w, k)) == Some(AfterClose(w, k))
  {
    ChainBrackets(w, k);
    CloseUnbonded(w, k);
    CloseSymbol(w, k);
    CloseIsMention(w, k);
    CloseRecords(w, k);
    Encoder.RingStep(ChainSmiles(w, k), branches, BeforeClose(w, k));
  }

  /** The pieces before the last carry no records and are joined as they
      are. */
  lemma StitchChainPrefix(w: string, j: nat, token: string)
    requires 0 < |w|
    ensures Encoder.Stitch(Singles(w)[..|w| - 1], Encoder.AddRecord(map[], |w| - 1, Stereo.Close(j, token)))
         == Some(w[..|w| - 1])
  {
    var n := |w|;
    var info := Encoder.AddRecord(map[], n - 1, Stereo.Close(j, token));
    forall q | 0 <= q < n - 1
      ensures Encoder.Records(info, q) == []
    {
    }
    assert Singles(w)[..n - 1] == Singles(w[..n - 1]);
    JoinSingles(w[..n - 1]);
  }

  /** A plain atom with one closing record is followed by its token. */
  lemma StitchChainLast(x: char, j: nat, token: string)
    requires PlainAtom(x)
    ensures Encoder.StitchPiece([x], [Stereo.Close(j, token)]) == Some([x] + token)
  {
    PlainAtomClass(x);
    assert '@' !in [x];
    assert Encoder.CloseTokens([Stereo.Close(j, token)]) == token by {
      assert [Stereo.Close(j, token)][..0] == [];
    }
  }

  /** Stitching plain pieces whose only record is one closing record on
      the last piece appends that record's token. */
  lemma StitchChain(w: string, j: nat, token: string)
    requires PlainChain(w) && 0 < |w|
    ensures Encoder.Stitch(Singles(w), Encoder.AddRecord(map[], |w| - 1, Stereo.Close(j, token))) == Some(w + token)
  {
    var n := |w|;
    var info := Encoder.AddRecord(map[], n - 1, Stereo.Close(j, token));
    assert Encoder.Records(info, n - 1) == [Stereo.Close(j, token)];
    assert Singles(w)[n - 1] == [w[n - 1]];
    StitchChainPrefix(w, j, token);
    StitchChainLast(w[n - 1], j, token);
    Encoder.StitchSnoc(Singles(w), info, w[..n - 1], [w[n - 1]] + token);
    LastThenToken(w, token);
  }

  lemma LastThenToken(w: string, token: string)
    requires 0 < |w|
    ensures w[..|w| - 1] + ([w[|w| - 1]] + token) == w + token
  {
    assert w[..|w| - 1] + [w[|w| - 1]] == w;
  }

  /** The whole scan of the SMILES chain: one piece per atom, the ring
      size recorded on the last one. */
  lemma {:induction false} ScanChain(w: string, k: nat, branches: bool)
    requires PlainChain(w) && k < |w|
    ensures Encoder.BracketsClosed(ChainSmiles(w, k))
    ensures Encoder.Scan(ChainSmiles(w, k), true, branches, Encoder.Start) == Some(AfterClose(w, k))
  {
    var s := ChainSmiles(w, k);
    assert Encoder.Scan(s, true, branches, AfterClose(w, k)) == Some(AfterClose(w, k));
    EncodeClose(w, k, branches);
    Encoder.ScanFrom(s, true, branches, BeforeClose(w, k), AfterClose(w, k));
    EncodeTail(w, k, branches);
    EncodeHead(w, k, branches);
  }

  /** Ring compaction of the SMILES chain writes the atoms and then the ring
      size `|w| - k`, with or without branch compaction. */
  lemma {:induction false} EncodeRingChain(w: string, k: nat, branches: bool)
    requires PlainChain(w) && k < |w|
    ensures Encoder.BracketsClosed(ChainSmiles(w, k))
    ensures Encoder.Encode(ChainSmiles(w, k), true, branches) == Some(ChainDeep(w, |w| - k))
  {
    ScanChain(w, k, branches);
    StitchChain(w, |w| + 1, FormatRingNumber(|w| - k));
  }

  /** Encoding a SMILES chain and decoding the result gives it back. */
  lemma RingChainRoundTrip(w: string, k: nat)
    requires PlainChain(w) && k < |w|
    ensures Encoder.BracketsClosed(ChainSmiles(w, k))
    ensures Encoder.Encode(ChainSmiles(w, k), true, false) == Some(ChainDeep(w, |w| - k))
    ensures Decoder.Decode(ChainDeep(w, |w| - k), true, false) == Ok(ChainSmiles(w, k))
  {
    EncodeRingChain(w, k, false);
    DecodeRingChain(w, FormatRingNumber(|w| - k), |w| - k);
  }

  /** Decoding a DeepSMILES chain and encoding the result gives it back,
      for every ring size the chain can hold. */
  lemma RingChainDeepRoundTrip(w: string, size: nat)
    requires PlainChain(w) && 1 <= size <= |w|
    ensures Decoder.Decode(ChainDeep(w, size), true, false) == Ok(ChainSmiles(w, |w| - size))
    ensures Encoder.BracketsClosed(ChainSmiles(w, |w| - size))
    ensures Encoder.Encode(ChainSmiles(w, |w| - size), true, false) == Some(ChainDeep(w, size))
  {
    var k := |w| - size;
    assert |w| - k == size;
    DecodeRingChain(w, FormatRingNumber(size), size);
    EncodeRingChain(w, k, false);
  }

  /** The round trip of a chain whose ring spans all of it. */
  lemma WholeRingRoundTrip(w: string, smiles: string, deep: string)
    requires PlainChain(w) && 0 < |w| && smiles == ChainSmiles(w, 0) && deep == ChainDeep(w, |w|)
    ensures Encoder.BracketsClosed(smiles)
    ensures Encoder.Encode(smiles, true, false) == Some(deep)
    ensures Decoder.Decode(deep, true, false) == Ok(smiles)
  {
    RingChainRoundTrip(w, 0);
  }

  lemma FiveRingTexts()
    ensures PlainChain("CCCCC")
    ensures ChainSmiles("CCCCC", 0) == "C1CCCC1"
    ensures ChainDeep("CCCCC", 5) == "CCCCC5"
  {
  }

  /** `C1CCCC1` is written `CCCCC5` and read back. */
  lemma ExampleFiveRing(smiles: string, deep: string)
    requires smiles == "C1CCCC1" && deep == "CCCCC5"
    ensures Encoder.BracketsClosed(smiles)
    ensures Encoder.Encode(smiles, true, false) == Some(deep)
    ensures Decoder.Decode(deep, true, false) == Ok(smiles)
  {
    FiveRingTexts();
    WholeRingRoundTrip("CCCCC", smiles, deep);
  }

  lemma TenRingTexts()
    ensures PlainChain("CCCCCCCCCC")
    ensures ChainSmiles("CCCCCCCCCC", 0) == "C1CCCCCCCCC1"
    ensures ChainDeep("CCCCCCCCCC", 10) == "CCCCCCCCCC%10"
  {
    assert NatToDecimal(10) == "10";
  }

  /** A ring of ten atoms needs the two-digit form `%10`. */
  lemma ExampleTenRing(smiles: string, deep: string)
    requires smiles == "C1CCCCCCCCC1" && deep == "CCCCCCCCCC%10"
    ensures Encoder.BracketsClosed(smiles)
    ensures Encoder.Encode(smiles, true, false) == Some(deep)
    ensures Decoder.Decode(deep, true, false) == Ok(smiles)
  {
    TenRingTexts();
    WholeRingRoundTrip("CCCCCCCCCC", smiles, deep);
  }

  lemma FourRingTexts()
    ensures PlainChain("CCCC")
    ensures ChainSmiles("CCCC", 0) == "C1CCC1"
    ensures ChainDeep("CCCC", 4) == "CCCC4"
  {
  }

  /** `CCCC4` reads as `C1CCC1`. */
  lemma ExampleFourRing(deep: string)
    requires deep == "CCCC4"
    ensures Decoder.Decode(deep, true, false) == Ok("C1CCC1")
  {
    FourRingTexts();
    WholeRingRoundTrip("CCCC", "C1CCC1", deep);
  }

  /** A chain closed by a `%(N)` token decodes like one closed by the
      three-tier token. */
  lemma ParenRingDecodes(w: string, size: nat, deep: string, smiles: string)
    requires PlainChain(w) && 1 <= size <= |w|
    requires deep == w + RingDecoder.ParenRingNumber(size) && smiles == ChainSmiles(w, |w| - size)
    ensures Decoder.Decode(deep, true, false) == Ok(smiles)
  {
    DecodeRingChain(w, RingDecoder.ParenRingNumber(size), size);
  }

  lemma ParenRingTexts()
    ensures PlainChain("CCCCCCCCCC")
    ensures "CCCCCCCCCC" + RingDecoder.ParenRingNumber(10) == "CCCCCCCCCC%(10)"
    ensures "CCCCCCCCCC" + RingDecoder.ParenRingNumber(4) == "CCCCCCCCCC%(4)"
    ensures ChainSmiles("CCCCCCCCCC", 0) == "C1CCCCCCCCC1"
    ensures ChainSmiles("CCCCCCCCCC", 6) == "CCCCCCC1CCC1"
  {
    assert NatToDecimal(10) == "10";
    assert NatToDecimal(4) == "4";
  }

  /** The parenthesised form is read for any size, here 10 and 4. */
  lemma ExampleParenthesisedRings(ten: string, four: string)
    requires ten == "CCCCCCCCCC%(10)" && four == "CCCCCCCCCC%(4)"
    ensures Decoder.Decode(ten, true, false) == Ok("C1CCCCCCCCC1")
    ensures Decoder.Decode(four, true, false) == Ok("CCCCCCC1CCC1")
  {
    ParenRingTexts();
    ParenRingDecodes("CCCCCCCCCC", 10, ten, "C1CCCCCCCCC1");
    ParenRingDecodes("CCCCCCCCCC", 4, four, "CCCCCCC1CCC1");
  }

  /** `CC5` has no atom five back to open on; `CC0` crashes. */
  lemma ExampleBadSizes(tooLarge: string, zero: string)
    requires tooLarge == "CC5" && zero == "CC0"
    ensures Decoder.Decode(tooLarge, true, false) == Fail(DecodeError(tooLarge, 2, NoRingPartner + "5"))
    ensures Decoder.Decode(zero, true, false) == Crash
  {
    assert NatToDecimal(5) == "5";
    assert "CC" + FormatRingNumber(5) == tooLarge;
    assert "CC" + FormatRingNumber(0) == zero;
    DecodeRingChainTooLarge("CC", FormatRingNumber(5), 5);
    DecodeRingChainZero("CC", FormatRingNumber(0));
  }
}
