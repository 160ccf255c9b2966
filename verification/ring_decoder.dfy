/** `decode_only_rings`: one left-to-right scan of a DeepSMILES string in
    which only the ring-size tokens are compacted. Each token is replaced
    by a fresh ring-closure number written after the atom it follows and
    after the atom the ring size reaches back to along the path. */
module RingDecoder {
  import opened Lexicon
  import opened DecodeErrors
  import BranchDecoder

  /** The elements of `s` in reverse order. */
  function Reverse(s: seq<nat>): (r: seq<nat>)
    ensures |r| == |s|
    ensures forall k :: 0 <= k < |s| ==> r[k] == s[|s| - 1 - k]
  {
    if |s| == 0 then [] else [s[|s| - 1]] + Reverse(s[..|s| - 1])
  }

  /** The levels laid end to end. */
  function Concat(levels: seq<seq<nat>>): seq<nat>
  {
    if |levels| == 0 then [] else Concat(levels[..|levels| - 1]) + levels[|levels| - 1]
  }

  /** `flatten_in_reverse`: the innermost level first, each level from its
      last element back. */
  function FlattenInReverse(levels: seq<seq<nat>>): seq<nat>
  {
    if |levels| == 0 then []
    else
      Reverse(levels[|levels| - 1]) + FlattenInReverse(levels[..|levels| - 1])
  }

  lemma {:induction false} ReverseAppend(a: seq<nat>, b: seq<nat>)
    ensures Reverse(a + b) == Reverse(b) + Reverse(a)
  {
  }

  /** The generator yields exactly the flattened levels read backwards. */
  lemma {:induction false} FlattenInReverseIsReverse(levels: seq<seq<nat>>)
    ensures FlattenInReverse(levels) == Reverse(Concat(levels))
    decreases |levels|
  {
    if |levels| > 0 {
      var init := levels[..|levels| - 1];
      FlattenInReverseIsReverse(init);
      ReverseAppend(Concat(init), levels[|levels| - 1]);
    }
  }

  /** What `nth(iterable, n)` ends in: the element, `StopIteration` when
      the iterable is too short, or the `ValueError` `islice` raises for a
      negative index. */
  datatype Lookup = Found(value: nat) | Exhausted | BadIndex

  /** `nth`: skip `n` elements and take the next one. */
  function Nth(xs: seq<nat>, n: int): (r: Lookup)
    ensures r.BadIndex? <==> n < 0
    ensures r.Exhausted? <==> |xs| <= n
    ensures r.Found? ==> r.value == xs[n]
    decreases |xs|
  {
    if n < 0 then BadIndex
    else if |xs| == 0 then Exhausted
    else if n == 0 then Found(xs[0])
    else Nth(xs[1..], n - 1)
  }

  /** The scan state. `levels` holds, for each open nesting level, the
      output indices of the atoms written at that level (`smi_prev`);
      `closures` maps an output index to the ring-closure numbers placed
      on it from later tokens (`bondclosures`); `next` is the next
      ring-closure number. */
  datatype RState = RState(i: nat, levels: seq<seq<nat>>, ans: seq<string>, closures: map<nat, string>, next: nat)

  const Start := RState(0, [[]], [], map[], 1)

  /** The ring-closure numbers placed on output piece `k` so far. */
  function ClosuresAt(closures: map<nat, string>, k: nat): string
  {
    if k in closures then closures[k] else ""
  }

  /** Every output index the levels record belongs to a piece written. */
  predicate Good(st: RState)
  {
    forall l, k :: 0 <= l < |st.levels| && 0 <= k < |st.levels[l]| ==> st.levels[l][k] < |st.ans|
  }

  /** The ring size of the token at `i` and the position of its last
      character: one digit, `%` and the two characters after it (one at
      the very end), or the number inside `%(...)`. */
  function RingSize(ds: string, i: nat): (r: Outcome<(nat, nat)>)
    requires i < |ds| && IsRingSymbol(ds[i])
    ensures ds[i] != '%' ==> r == Ok((DigitValue(ds[i]), i))
    ensures ds[i] == '%' && i + 1 == |ds| ==> r.Crash?
    ensures ds[i] == '%' && i + 1 < |ds| && ds[i + 1] == '(' ==>
      var cb := Find(ds, ')', i + 2);
      && (cb == -1 ==> r == Fail(DecodeError(ds, i, UnclosedPercent)))
      && (cb != -1 && !(0 < |ds[i + 2..cb]| && AllDigits(ds[i + 2..cb])) ==> r.Crash?)
      && (cb != -1 && 0 < |ds[i + 2..cb]| && AllDigits(ds[i + 2..cb]) ==> r == Ok((DecimalValue(ds[i + 2..cb]), cb)))
    ensures ds[i] == '%' && i + 1 < |ds| && ds[i + 1] != '(' ==>
      && (r.Fail? <==> !DigitPairAt(ds, i + 1))
      && (r.Fail? ==> r.error == DecodeError(ds, i, PercentDigitsRings))
      && (r.Ok? ==> r.value == (DecimalValue(Slice(ds, i + 1, i + 3)), i + 2))
    ensures r.Ok? ==> i <= r.value.1 <= |ds|
  {
    if ds[i] != '%' then Ok((DigitValue(ds[i]), i))
    else if i + 1 == |ds| then Crash
    else if ds[i + 1] == '(' then
      var cb := Find(ds, ')', i + 2);
      if cb == -1 then Fail(DecodeError(ds, i, UnclosedPercent))
      else
        match ParseDecimal(ds[i + 2..cb])
        case None => Crash
        case Some(n) => Ok((n, cb))
    else
      ParseDigitPair(ds, i + 1);
      match ParseDecimal(Slice(ds, i + 1, i + 3))
      case None => Fail(DecodeError(ds, i, PercentDigitsRings))
      case Some(n) => Ok((n, i + 2))
  }

  /** `%(` and the decimal numeral of `d` and `)`: the parenthesised ring
      number, which the decoder reads for any `d`. */
  function ParenRingNumber(d: nat): string
  {
    "%(" + NatToDecimal(d) + ")"
  }

  /** The parenthesised token after `w`: `%(`, the numeral, `)`. */
  lemma {:induction false} ParenTokenShape(w: string, d: nat)
    ensures
      var ds := w + ParenRingNumber(d);
      var n := |w|;
      && |ds| == n + 3 + |NatToDecimal(d)|
      && ds[n] == '%' && ds[n + 1] == '(' && ds[|ds| - 1] == ')'
      && ds[n + 2..|ds| - 1] == NatToDecimal(d)
  {
    var ds := w + ParenRingNumber(d);
    assert ds[|w|..] == ParenRingNumber(d);
  }

  /** The first `)` after the `%(` is the token's last character. */
  lemma {:induction false} ParenTokenClose(w: string, d: nat)
    ensures
      var ds := w + ParenRingNumber(d);
      Find(ds, ')', |w| + 2) == |ds| - 1
  {
    var ds := w + ParenRingNumber(d);
    var n := |w|;
    var inner := NatToDecimal(d);
    ParenTokenShape(w, d);
    forall k | n + 2 <= k < |ds| - 1
      ensures ds[k] != ')'
    {
      assert ds[k] == ds[n + 2..|ds| - 1][k - n - 2] == inner[k - n - 2];
      assert IsDigit(inner[k - n - 2]);
    }
  }

  /** The parenthesised token reads back as its number. */
  lemma ParenTokenSize(w: string, d: nat)
    ensures
      var ds := w + ParenRingNumber(d);
      |w| < |ds| && IsRingSymbol(ds[|w|]) && RingSize(ds, |w|) == Ok((d, |ds| - 1))
  {
    ParenTokenShape(w, d);
    ParenTokenClose(w, d);
  }

  /** A ring number written after `w`, in any of the three formats or
      parenthesised, reads back as that number, and the token ends the
      input. */
  lemma RingSizeOfToken(w: string, t: string, d: nat)
    requires t == FormatRingNumber(d) || t == ParenRingNumber(d)
    ensures |w| < |w + t|
    ensures IsRingSymbol((w + t)[|w|])
    ensures RingSize(w + t, |w|) == Ok((d, |w + t| - 1))
  {
    var ds := w + t;
    var n := |w|;
    assert ds[n..] == t;
    if t == ParenRingNumber(d) || 100 <= d {
      assert t == ParenRingNumber(d);
      ParenTokenSize(w, d);
    } else if d < 10 {
    } else {
      assert ds[n + 1] == t[1..][0];
      assert ds[n + 2] == t[1..][1];
      assert Slice(ds, n + 1, n + 3) == t[1..];
    }
  }

  /** The ring closure a token of size `size` places from the latest
      piece: the next ring-closure number goes, after `bond`, onto the last
      output piece, and onto the atom `size - 1` steps back along the path
      (the latest atom first, then back through the enclosing levels).
      `last` is the token's last position, where a failure is reported. */
  function PlaceRing(ds: string, st: RState, size: nat, last: nat, bond: string): (r: Outcome<RState>)
    requires Good(st) && 0 < |st.ans|
    ensures r.Crash? <==> size == 0
    ensures r.Fail? <==> |FlattenInReverse(st.levels)| < size
    ensures r.Fail? ==> r.error == DecodeError(ds, last, NoRingPartner + NatToDecimal(size))
    ensures r.Ok? ==>
      && Good(r.value)
      && var sym := FormatRingNumber(st.next);
         var opening := FlattenInReverse(st.levels)[size - 1];
         r.value == st.(i := last + 1,
                        ans := st.ans[|st.ans| - 1 := st.ans[|st.ans| - 1] + bond + sym],
                        closures := st.closures[opening := ClosuresAt(st.closures, opening) + sym],
                        next := st.next + 1)
  {
    var sym := FormatRingNumber(st.next);
    match Nth(FlattenInReverse(st.levels), size - 1)
    case BadIndex => Crash
    case Exhausted => Fail(DecodeError(ds, last, NoRingPartner + NatToDecimal(size)))
    case Found(opening) =>
      Ok(st.(i := last + 1,
             ans := st.ans[|st.ans| - 1 := st.ans[|st.ans| - 1] + bond + sym],
             closures := st.closures[opening := ClosuresAt(st.closures, opening) + sym],
             next := st.next + 1))
  }

  /** A ring-size token: a decode error before any atom, otherwise the
      ring closure its size places. */
  function RingToken(ds: string, st: RState): (r: Outcome<RState>)
    requires st.i < |ds| && IsRingSymbol(ds[st.i]) && Good(st)
    ensures st.i == 0 || |st.ans| == 0 ==> r == Fail(DecodeError(ds, st.i, RingBeforeAtom))
    ensures 0 < st.i && 0 < |st.ans| && !RingSize(ds, st.i).Ok? ==>
      r == (if RingSize(ds, st.i).Crash? then Crash else Fail(RingSize(ds, st.i).error))
    ensures 0 < st.i && 0 < |st.ans| && RingSize(ds, st.i).Ok? ==>
      r == PlaceRing(ds, st, RingSize(ds, st.i).value.0, RingSize(ds, st.i).value.1, PrevBond(ds, st.i))
    ensures r.Ok? ==> Good(r.value) && st.i < r.value.i <= |ds| + 1
    ensures r.Fail? ==> r.error.input == ds && st.i <= r.error.idx <= |ds|
  {
    var i := st.i;
    if i == 0 || |st.ans| == 0 then Fail(DecodeError(ds, i, RingBeforeAtom))
    else
      match RingSize(ds, i)
      case Fail(e) => Fail(e)
      case Crash => Crash
      case Ok((size, last)) => PlaceRing(ds, st, size, last, PrevBond(ds, i))
  }

  /** A ring-size token after an atom whose size reads places that
      ring. */
  lemma RingTokenStep(ds: string, st: RState)
    requires Good(st) && st.i < |ds| && IsRingSymbol(ds[st.i]) && 0 < st.i && 0 < |st.ans|
    requires RingSize(ds, st.i).Ok?
    ensures Step(ds, st) == PlaceRing(ds, st, RingSize(ds, st.i).value.0, RingSize(ds, st.i).value.1, PrevBond(ds, st.i))
  {
    RingSymbolClass(ds[st.i]);
  }

  /** A ring-size token with no bond character before it places its ring
      with no bond. */
  lemma UnbondedTokenStep(ds: string, st: RState, d: nat, last: nat)
    requires Good(st) && 0 < st.i < |ds| && 0 < |st.ans| && IsRingSymbol(ds[st.i])
    requires PrevBond(ds, st.i) == "" && RingSize(ds, st.i) == Ok((d, last))
    ensures Step(ds, st) == PlaceRing(ds, st, d, last, "")
  {
    RingTokenStep(ds, st);
  }

  /** An atom: its output index is recorded at the innermost level, and
      it is written with the bond character before it. With no level left
      (after an unmatched `)`) the source indexes an empty list. */
  function AtomToken(ds: string, st: RState): (r: Outcome<RState>)
    requires st.i < |ds| && Good(st)
    ensures r.Crash? <==> |st.levels| == 0
    ensures r.Fail? <==> 0 < |st.levels| && BranchDecoder.AtomText(ds, st.i).Fail?
    ensures r.Fail? ==> r.error == DecodeError(ds, st.i, UnclosedBracket)
    ensures r.Ok? ==>
      var last := BranchDecoder.AtomText(ds, st.i).value.1;
      && BranchDecoder.AtomText(ds, st.i).Ok?
      && Good(r.value)
      && r.value.i == last + 1
      && r.value.ans == st.ans + [PrevBond(ds, st.i) + ds[st.i..last + 1]]
      && r.value.levels == st.levels[..|st.levels| - 1] + [st.levels[|st.levels| - 1] + [|st.ans|]]
      && r.value.closures == st.closures && r.value.next == st.next
  {
    if |st.levels| == 0 then Crash
    else
      var text := BranchDecoder.AtomText(ds, st.i);
      if !text.Ok? then Fail(DecodeError(ds, st.i, UnclosedBracket))
      else
        var last := text.value.1;
        var levels := st.levels[..|st.levels| - 1] + [st.levels[|st.levels| - 1] + [|st.ans|]];
        var r := st.(i := last + 1, ans := st.ans + [PrevBond(ds, st.i) + ds[st.i..last + 1]], levels := levels);
        assert Good(r) by {
          forall l, k | 0 <= l < |levels| && 0 <= k < |levels[l]|
            ensures levels[l][k] < |r.ans|
          {
            if l < |levels| - 1 {
              assert levels[l] == st.levels[l];
            }
          }
        }
        Ok(r)
  }

  /** One iteration of the scan loop. */
  function Step(ds: string, st: RState): (r: Outcome<RState>)
    requires st.i < |ds| && Good(st)
    ensures r.Ok? ==> Good(r.value) && st.i < r.value.i <= |ds| + 1
    ensures r.Fail? ==> r.error.input == ds && st.i <= r.error.idx <= |ds|
    ensures ds[st.i] == ')' ==> (r.Crash? <==> |st.levels| == 0)
    ensures ds[st.i] == ')' && r.Ok? ==> r.value.levels == st.levels[..|st.levels| - 1] && r.value.ans == st.ans + [")"]
    ensures ds[st.i] == '(' ==> r == Ok(st.(i := st.i + 1, levels := st.levels + [[]], ans := st.ans + ["("]))
  {
    var x := ds[st.i];
    if x == ')' then
      if |st.levels| == 0 then Crash
      else Ok(st.(i := st.i + 1, levels := st.levels[..|st.levels| - 1], ans := st.ans + [")"]))
    else if x == '(' then Ok(st.(i := st.i + 1, levels := st.levels + [[]], ans := st.ans + ["("]))
    else if IsBondChar(x) then Ok(st.(i := st.i + 1))
    else if IsRingSymbol(x) then RingToken(ds, st)
    else AtomToken(ds, st)
  }

  /** The scan loop from state `st`. */
  function Run(ds: string, st: RState): (r: Outcome<RState>)
    requires Good(st)
    ensures r.Ok? ==> Good(r.value)
    ensures r.Fail? ==> r.error.input == ds && st.i <= r.error.idx <= |ds|
    decreases |ds| - st.i
  {
    if |ds| <= st.i then Ok(st)
    else
      match Step(ds, st)
      case Ok(next) => Run(ds, next)
      case Fail(e) => Fail(e)
      case Crash => Crash
  }

  /** The indices `a`, `a + 1`, ..., `a + m - 1`. */
  function Range(a: nat, m: nat): (r: seq<nat>)
    ensures |r| == m
    ensures forall k :: 0 <= k < m ==> r[k] == a + k
  {
    seq(m, k requires 0 <= k < m => a + k)
  }

  /** The state after `m` plain atoms from `st`: one output piece each,
      their indices recorded at the innermost level. */
  function AfterAtoms(ds: string, st: RState, m: nat): (r: RState)
    requires Good(st) && st.i + m <= |ds| && 0 < |st.levels|
    ensures Good(r)
  {
    var top := |st.levels| - 1;
    var r := st.(i := st.i + m, ans := st.ans + Singles(ds[st.i..st.i + m]),
                 levels := st.levels[..top] + [st.levels[top] + Range(|st.ans|, m)]);
    assert forall l :: 0 <= l < top ==> r.levels[l] == st.levels[l];
    r
  }

  lemma AfterAtomsNext(ds: string, st: RState, m: nat)
    requires Good(st) && st.i + m <= |ds| && 0 < |st.levels| && 0 < m
    ensures AfterAtoms(ds, AfterAtoms(ds, st, 1), m - 1) == AfterAtoms(ds, st, m)
  {
    var top := |st.levels| - 1;
    var st1 := AfterAtoms(ds, st, 1);
    assert st1.ans + Singles(ds[st1.i..st1.i + (m - 1)]) == st.ans + Singles(ds[st.i..st.i + m]);
    assert st.levels[top] + Range(|st.ans|, 1) + Range(|st.ans| + 1, m - 1) == st.levels[top] + Range(|st.ans|, m);
    assert st1.levels[..top] == st.levels[..top];
  }

  /** From the start, `m` plain atoms leave one level holding `0..m-1`. */
  lemma AfterAtomsFromStart(ds: string, m: nat)
    requires m <= |ds|
    ensures AfterAtoms(ds, Start, m) == RState(m, [Range(0, m)], Singles(ds[..m]), map[], 1)
  {
    var lv: seq<seq<nat>> := [[]];
    assert Start.levels == lv;
    var empty: seq<nat> := [];
    assert lv[0] == empty;
    assert empty + Range(0, m) == Range(0, m);
    assert lv[..0] == [];
    assert lv[..0] + [lv[0] + Range(0, m)] == [Range(0, m)];
    assert [] + Singles(ds[0..m]) == Singles(ds[..m]);
  }

  lemma AfterNoAtoms(ds: string, st: RState)
    requires Good(st) && st.i <= |ds| && 0 < |st.levels|
    ensures AfterAtoms(ds, st, 0) == st
  {
    var top := |st.levels| - 1;
    assert st.ans + Singles(ds[st.i..st.i]) == st.ans;
    assert Range(|st.ans|, 0) == [];
    assert st.levels[top] + [] == st.levels[top];
    assert st.levels[..top] + [st.levels[top]] == st.levels;
  }

  /** A plain atom is read by `AtomToken`. */
  lemma PlainAtomIsToken(ds: string, st: RState)
    requires Good(st) && st.i < |ds| && PlainAtom(ds[st.i])
    ensures Step(ds, st) == AtomToken(ds, st)
  {
    PlainAtomClass(ds[st.i]);
  }

  /** A plain atom not followed by `l` or `r` is its own one-character
      text. */
  lemma PlainAtomText(ds: string, i: nat)
    requires i < |ds| && PlainAtom(ds[i])
    requires i + 1 < |ds| ==> ds[i + 1] != 'l' && ds[i + 1] != 'r'
    ensures BranchDecoder.AtomText(ds, i) == Ok(([ds[i]], i))
  {
    PlainAtomClass(ds[i]);
    assert !TwoLetterAtom(ds, i);
  }

  /** With no bond character before it, a plain atom's piece is the atom. */
  lemma PlainAtomPiece(ds: string, i: nat)
    requires i < |ds| && (0 < i ==> !IsBondChar(ds[i - 1]))
    ensures PrevBond(ds, i) + ds[i..i + 1] == [ds[i]]
  {
    assert PrevBond(ds, i) == "" && ds[i..i + 1] == [ds[i]];
    EmptyPrefix([ds[i]]);
  }

  /** One plain atom not followed by `l` or `r` is one output piece. */
  lemma PlainAtomStep(ds: string, st: RState)
    requires Good(st) && st.i < |ds| && 0 < |st.levels|
    requires PlainAtom(ds[st.i])
    requires 0 < st.i ==> !IsBondChar(ds[st.i - 1])
    requires st.i + 1 < |ds| ==> ds[st.i + 1] != 'l' && ds[st.i + 1] != 'r'
    ensures Step(ds, st) == Ok(AfterAtoms(ds, st, 1))
  {
    var after := AfterAtoms(ds, st, 1);
    assert after.i == st.i + 1 && after.closures == st.closures && after.next == st.next;
    assert after.ans == st.ans + [[ds[st.i]]] by {
      assert Singles(ds[st.i..st.i + 1]) == [[ds[st.i]]];
    }
    assert after.levels == st.levels[..|st.levels| - 1] + [st.levels[|st.levels| - 1] + [|st.ans|]] by {
      assert Range(|st.ans|, 1) == [|st.ans|];
    }
    PlainAtomText(ds, st.i);
    PlainAtomPiece(ds, st.i);
    assert AtomToken(ds, st) == Ok(after);
    PlainAtomIsToken(ds, st);
  }

  /** Running from a state whose next step is known continues from the
      state that step reaches. */
  lemma {:induction false} RunFrom(ds: string, st: RState, st1: RState)
    requires Good(st) && st.i < |ds|
    requires Step(ds, st) == Ok(st1)
    ensures Good(st1) && Run(ds, st) == Run(ds, st1)
  {
  }

  /** The first atom of such a run. */
  lemma {:induction false} RunAtomsHead(ds: string, st: RState, m: nat)
    requires Good(st) && st.i + m <= |ds| && 0 < |st.levels| && 0 < m
    requires forall p :: st.i <= p < st.i + m ==> PlainAtom(ds[p])
    requires 0 < st.i ==> !IsBondChar(ds[st.i - 1])
    requires st.i + m < |ds| ==> ds[st.i + m] != 'l' && ds[st.i + m] != 'r'
    ensures Run(ds, st) == Run(ds, AfterAtoms(ds, st, 1))
    ensures !IsBondChar(ds[st.i])
  {
    if 1 < m {
      PlainAtomClass(ds[st.i + 1]);
    }
    PlainAtomClass(ds[st.i]);
    PlainAtomStep(ds, st);
    RunFrom(ds, st, AfterAtoms(ds, st, 1));
  }

  /** A run of `m` plain atoms is read one atom per output piece. */
  lemma {:induction false} RunAtoms(ds: string, st: RState, m: nat)
    requires Good(st) && st.i + m <= |ds| && 0 < |st.levels|
    requires forall p :: st.i <= p < st.i + m ==> PlainAtom(ds[p])
    requires 0 < m && 0 < st.i ==> !IsBondChar(ds[st.i - 1])
    requires st.i + m < |ds| ==> ds[st.i + m] != 'l' && ds[st.i + m] != 'r'
    ensures Run(ds, st) == Run(ds, AfterAtoms(ds, st, m))
    decreases m
  {
    if m == 0 {
      AfterNoAtoms(ds, st);
    } else {
      // The facts about `Run` come last: with them in scope every other
      // obligation gets much more expensive.
      AfterAtomsNext(ds, st, m);
      PlainAtomClass(ds[st.i]);
      RunAtoms(ds, AfterAtoms(ds, st, 1), m - 1);
      RunAtomsHead(ds, st, m);
    }
  }

  /** The final pass: every output piece followed by the ring-closure
      numbers placed on it from later tokens. */
  function Finish(ans: seq<string>, closures: map<nat, string>): string
  {
    if |ans| == 0 then ""
    else Finish(ans[..|ans| - 1], closures) + ans[|ans| - 1] + ClosuresAt(closures, |ans| - 1)
  }

  /** Each output piece followed by the ring-closure numbers placed on
      it. */
  function Decorated(ans: seq<string>, closures: map<nat, string>): (r: seq<string>)
    ensures |r| == |ans|
    ensures forall k :: 0 <= k < |ans| ==> r[k] == ans[k] + ClosuresAt(closures, k)
  {
    seq(|ans|, k requires 0 <= k < |ans| => ans[k] + ClosuresAt(closures, k))
  }

  /** The final pass writes the decorated pieces one after another. */
  lemma {:induction false} FinishIsJoin(ans: seq<string>, closures: map<nat, string>)
    ensures Finish(ans, closures) == Join(Decorated(ans, closures))
    decreases |ans|
  {
    if 0 < |ans| {
      var init := ans[..|ans| - 1];
      FinishIsJoin(init, closures);
      assert Decorated(ans, closures)[..|ans| - 1] == Decorated(init, closures);
    }
  }

  /** `decode_only_rings`. */
  function DecodeOnlyRings(ds: string): (r: Outcome<string>)
    ensures r.Fail? ==> r.error.input == ds && 0 <= r.error.idx <= |ds|
    ensures 0 < |ds| && IsRingSymbol(ds[0]) ==> r == Fail(DecodeError(ds, 0, RingBeforeAtom))
  {
    match Run(ds, Start)
    case Ok(st) => Ok(Finish(st.ans, st.closures))
    case Fail(e) => Fail(e)
    case Crash => Crash
  }
}
