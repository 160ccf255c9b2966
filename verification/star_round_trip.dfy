/** The round trip for molecules of the shape `u(v1)...(vk)z`: chains of
    plain atoms with one layer of branches on one atom. Encoding with
    branch compaction and decoding again gives the SMILES back, with or
    without ring compaction, and the decoder accepts exactly what the
    encoder writes. */
module StarRoundTrip {
  import opened Lexicon
  import opened DecodeErrors
  import Encoder
  import Decoder
  import opened StarShape
  import opened StarDecode
  import opened StarEncode

  /** `decode(encode(s)) == s` on the star shape: the encoder writes
      `u v1)..) ... z`, and the decoder turns that back into
      `u(v1)...(vk)z`. */
  lemma StarRoundTrip(u: string, vs: seq<string>, z: string, rings: bool)
    requires Star(u, vs, z)
    ensures Encoder.BracketsClosed(StarSmiles(u, vs, z))
    ensures Encoder.Encode(StarSmiles(u, vs, z), rings, true) == Some(StarDeep(u, vs, z))
    ensures Decoder.Decode(StarDeep(u, vs, z), rings, true) == Ok(StarSmiles(u, vs, z))
  {
    EncodeStar(u, vs, z, rings);
    DecodeStar(u, vs, z, rings);
  }

  /** One branch more, written either way. */
  lemma Snoc(vs: seq<string>, v: string)
    ensures Parenthesised(vs + [v]) == Parenthesised(vs) + "(" + v + ")"
    ensures Popped(vs + [v]) == Popped(vs) + v + Repeat(')', |v|)
  {
    assert (vs + [v])[..|vs|] == vs;
  }

  /** The round trip on one molecule of the star shape, written out. */
  lemma Instance(smi: string, deep: string, u: string, vs: seq<string>, z: string, rings: bool)
    requires Star(u, vs, z) && StarSmiles(u, vs, z) == smi && StarDeep(u, vs, z) == deep
    ensures Encoder.BracketsClosed(smi)
    ensures Encoder.Encode(smi, rings, true) == Some(deep)
    ensures Decoder.Decode(deep, rings, true) == Ok(smi)
  {
    StarRoundTrip(u, vs, z, rings);
  }

  /** `C(O)C` and `CO)C`, in both directions and both ring modes. */
  lemma ExampleOneBranch(rings: bool)
    ensures Encoder.BracketsClosed("C(O)C")
    ensures Encoder.Encode("C(O)C", rings, true) == Some("CO)C")
    ensures Decoder.Decode("CO)C", rings, true) == Ok("C(O)C")
  {
    ShapeOneBranch();
    Instance("C(O)C", "CO)C", "C", ["O"], "C", rings);
  }

  lemma ShapeOneBranch()
    ensures Star("C", ["O"], "C")
    ensures StarSmiles("C", ["O"], "C") == "C(O)C" && StarDeep("C", ["O"], "C") == "CO)C"
  {
    assert PlainChain("C") && PlainChain("O");
    Snoc([], "O");
    assert Repeat(')', 1) == ")";
  }

  /** `C(OF)C` and `COF))C`: one `)` per atom of the branch. */
  lemma ExampleLongBranch(rings: bool)
    ensures Encoder.BracketsClosed("C(OF)C")
    ensures Encoder.Encode("C(OF)C", rings, true) == Some("COF))C")
    ensures Decoder.Decode("COF))C", rings, true) == Ok("C(OF)C")
  {
    ShapeLongBranch();
    Instance("C(OF)C", "COF))C", "C", ["OF"], "C", rings);
  }

  lemma ShapeLongBranch()
    ensures Star("C", ["OF"], "C")
    ensures StarSmiles("C", ["OF"], "C") == "C(OF)C" && StarDeep("C", ["OF"], "C") == "COF))C"
  {
    assert PlainChain("C") && PlainChain("OF");
    Snoc([], "OF");
    assert Repeat(')', 2) == "))";
  }

  /** `C(F)(F)C` and `CF)F)C`: two branches on one atom. */
  lemma ExampleTwoBranches(rings: bool)
    ensures Encoder.BracketsClosed("C(F)(F)C")
    ensures Encoder.Encode("C(F)(F)C", rings, true) == Some("CF)F)C")
    ensures Decoder.Decode("CF)F)C", rings, true) == Ok("C(F)(F)C")
  {
    ShapeTwoBranches();
    Instance("C(F)(F)C", "CF)F)C", "C", ["F", "F"], "C", rings);
  }

  lemma ShapeTwoBranches()
    ensures Star("C", ["F", "F"], "C")
    ensures StarSmiles("C", ["F", "F"], "C") == "C(F)(F)C" && StarDeep("C", ["F", "F"], "C") == "CF)F)C"
  {
    assert PlainChain("C") && PlainChain("F");
    Snoc([], "F");
    Snoc(["F"], "F");
    assert ["F"] + ["F"] == ["F", "F"];
    assert Repeat(')', 1) == ")";
  }

  /** `COC` has no branch and is its own DeepSMILES. */
  lemma ExampleNoBranch(rings: bool)
    ensures Encoder.BracketsClosed("COC")
    ensures Encoder.Encode("COC", rings, true) == Some("COC")
    ensures Decoder.Decode("COC", rings, true) == Ok("COC")
  {
    assert PlainChain("CO") && PlainChain("C");
    Instance("COC", "COC", "CO", [], "C", rings);
  }
}
