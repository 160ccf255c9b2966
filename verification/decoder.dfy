/** `decode`: the entry point that picks a decoder by the two compaction
    flags. */
module Decoder {
  import opened DecodeErrors
  import BranchDecoder
  import RingDecoder

  /** With both flags off the input is returned unchanged; with only ring
      compaction the ring decoder runs; with branch compaction the branch
      decoder runs and decodes ring-size tokens itself when `rings` is
      set. */
  function Decode(ds: string, rings: bool, branches: bool): (r: Outcome<string>)
    ensures !rings && !branches ==> r == Ok(ds)
    ensures rings && !branches ==> r == RingDecoder.DecodeOnlyRings(ds)
    ensures branches ==> r == BranchDecoder.DecodeBranches(ds, rings)
    ensures r.Fail? ==> r.error.input == ds && 0 <= r.error.idx <= |ds| + 1
    ensures r.Fail? && !branches ==> r.error.idx <= |ds|
  {
    if !rings && !branches then Ok(ds)
    else if !branches then RingDecoder.DecodeOnlyRings(ds)
    else BranchDecoder.DecodeBranches(ds, rings)
  }
}
