/** `decode_branches`: one left-to-right scan of a DeepSMILES string that
    builds the molecule as an arena tree. Every atom is hung below the atom
    on top of a stack, each `)` pops one atom, and each ring-size token
    walks up the tree from the latest atom to find its ring partner. The
    tree's depth-first rendering is the SMILES. */
module BranchDecoder {
  import opened Lexicon
  import opened DecodeErrors
  import opened ArenaTree

  /** The scan position, the stack of atoms new atoms attach to, and the
      tree built so far. The latest atom (`idx` in the source) is always the
      tree's last node. */
  datatype BState = BState(i: nat, stack: seq<nat>, tree: Tree)

  const Start := BState(0, [], Empty)

  /** The tree is well formed and the stack holds atoms of it, oldest
      first, so that every new edge runs from a smaller index to a larger
      one. */
  predicate Good(st: BState)
  {
    && Valid(st.tree)
    && (forall k :: 0 <= k < |st.stack| ==> st.stack[k] < |st.tree.nodes|)
    && (forall a, b :: 0 <= a < b < |st.stack| ==> st.stack[a] < st.stack[b])
  }

  /** The ring size written after `%` at position `i`, with the position of
      its last character: the number up to the first `)` after `%(`, or
      else two digits, extended to three when a third digit follows (a
      single digit is accepted at the very end). A non-number inside
      `%(...)` is a `ValueError` the source does not catch, and so is a `%`
      at the end of the input (`IndexError`). */
  function PercentRingSize(ds: string, i: nat): (r: Outcome<(nat, nat)>)
    requires i < |ds| && ds[i] == '%'
    ensures r.Crash? <==>
      || i + 1 == |ds|
      || (ds[i + 1] == '(' && Find(ds, ')', i + 2) != -1 && !AllDigitsNonEmpty(ds[i + 2..Find(ds, ')', i + 2)]))
    ensures r.Fail? ==> r.error.input == ds && r.error.idx == i
    ensures r.Fail? && ds[i + 1] == '(' ==> r.error.message == UnclosedPercent
    ensures r.Fail? && ds[i + 1] != '(' ==> r.error.message == PercentDigitsBranches
    ensures i + 1 < |ds| && ds[i + 1] != '(' ==>
      (r.Fail? <==> !DigitPairAt(ds, i + 1))
    ensures r.Ok? && ds[i + 1] == '(' ==>
      var e := r.value.1;
      && e == Find(ds, ')', i + 2) && AllDigits(ds[i + 2..e]) && r.value.0 == DecimalValue(ds[i + 2..e])
    ensures r.Ok? && ds[i + 1] != '(' ==>
      var e := r.value.1;
      && (e == i + 2 || e == i + 3) && e <= |ds| + 1
      && AllDigits(Slice(ds, i + 1, e + 1)) && r.value.0 == DecimalValue(Slice(ds, i + 1, e + 1))
      && (e == i + 2 && i + 3 < |ds| ==> !IsDigit(ds[i + 3]))
  {
    if i + 1 == |ds| then Crash
    else if ds[i + 1] == '(' then
      var cb := Find(ds, ')', i + 2);
      if cb == -1 then Fail(DecodeError(ds, i, UnclosedPercent))
      else
        match ParseDecimal(ds[i + 2..cb])
        case None => Crash
        case Some(n) => Ok((n, cb))
    else
      ParseDigitPair(ds, i + 1);
      match ParseDecimal(Slice(ds, i + 1, i + 3))
      case None => Fail(DecodeError(ds, i, PercentDigitsBranches))
      case Some(two) =>
        match ParseDecimal(Slice(ds, i + 1, i + 4))
        case Some(three) => Ok((three, i + 3))
        case None => Ok((two, i + 2))
  }

  predicate AllDigitsNonEmpty(s: string)
  {
    0 < |s| && AllDigits(s)
  }

  /** Without ring decoding, the ring symbols after an atom, and any bond
      character directly before a ring symbol, are glued onto the atom.
      The end of that run from position `j`; `None` where the source reads
      past the input (a bond character that ends it). */
  function RunEnd(ds: string, j: nat): (r: Option<nat>)
    requires j <= |ds|
    ensures r.Some? ==>
      && j <= r.value <= |ds|
      && (forall k :: j <= k < r.value ==> IsRingSymbol(ds[k]) || IsBondChar(ds[k]))
      && (r.value < |ds| ==> !IsRingSymbol(ds[r.value]))
      && (r.value < |ds| && IsBondChar(ds[r.value]) ==> r.value + 1 < |ds| && !IsRingSymbol(ds[r.value + 1]))
    ensures r.None? ==>
      && 0 < |ds| && IsBondChar(ds[|ds| - 1])
      && (forall k :: j <= k < |ds| ==> IsRingSymbol(ds[k]) || IsBondChar(ds[k]))
    decreases |ds| - j
  {
    if j == |ds| then Some(j)
    else if IsRingSymbol(ds[j]) then RunEnd(ds, j + 1)
    else if IsBondChar(ds[j]) then
      if j + 1 == |ds| then None
      else if IsRingSymbol(ds[j + 1]) then RunEnd(ds, j + 1)
      else Some(j)
    else Some(j)
  }

  /** A ring-size token `rc` read at the latest atom. `at` is the scan
      position after the token, where a failure is reported, and `sizeText`
      the size as the message spells it. With no atom yet, a walk of no
      steps writes into an empty node list (`IndexError`), and a longer
      one finds no parent. */
  function CloseRing(ds: string, st: BState, rc: nat, bond: string, at: nat, sizeText: string): (r: Outcome<BState>)
    requires Good(st)
    ensures r.Crash? <==> |st.tree.nodes| == 0 && LinksFor(rc) == 0
    ensures r.Fail? <==>
      if |st.tree.nodes| == 0 then 0 < LinksFor(rc)
      else AncestorCount(st.tree, |st.tree.nodes| - 1) < LinksFor(rc)
    ensures r.Fail? ==> r.error == DecodeError(ds, at, NoRingPartner + sizeText)
    ensures r.Ok? ==>
      && Good(r.value) && r.value.i == at + 1 && r.value.stack == st.stack
      && r.value.tree == AddRingClosure(st.tree, |st.tree.nodes| - 1, rc, bond).value
  {
    if |st.tree.nodes| == 0 then
      if LinksFor(rc) == 0 then Crash else Fail(DecodeError(ds, at, NoRingPartner + sizeText))
    else
      match AddRingClosure(st.tree, |st.tree.nodes| - 1, rc, bond)
      case None => Fail(DecodeError(ds, at, NoRingPartner + sizeText))
      case Some(t) => Ok(BState(at + 1, st.stack, t))
  }

  /** The text of the atom at `i` and the position of its last character:
      `Cl`/`Br`, a bracket atom up to the first `]`, or one character. */
  function AtomText(ds: string, i: nat): (r: Outcome<(string, nat)>)
    requires i < |ds|
    ensures r.Crash? == false
    ensures r.Fail? <==> !TwoLetterAtom(ds, i) && ds[i] == '[' && Find(ds, ']', i) == -1
    ensures r.Fail? ==> r.error == DecodeError(ds, i, UnclosedBracket)
    ensures r.Ok? ==> i <= r.value.1 < |ds| && r.value.0 == ds[i..r.value.1 + 1]
    ensures r.Ok? && TwoLetterAtom(ds, i) ==> r.value.1 == i + 1
    ensures r.Ok? && !TwoLetterAtom(ds, i) && ds[i] == '[' ==> r.value.1 == Find(ds, ']', i)
    ensures r.Ok? && !TwoLetterAtom(ds, i) && ds[i] != '[' ==> r.value.1 == i
  {
    if TwoLetterAtom(ds, i) then Ok((ds[i..i + 2], i + 1))
    else if ds[i] == '[' then
      var cb := Find(ds, ']', i);
      if cb == -1 then Fail(DecodeError(ds, i, UnclosedBracket)) else Ok((ds[i..cb + 1], cb))
    else Ok(([ds[i]], i))
  }

  /** The position of the last character an atom at `i` takes: its own
      text and, without ring decoding, the run of ring symbols glued onto
      it. */
  function AtomSpan(ds: string, rings: bool, i: nat): (r: Outcome<nat>)
    requires i < |ds|
    ensures r.Fail? <==> AtomText(ds, i).Fail?
    ensures r.Fail? ==> r.error == DecodeError(ds, i, UnclosedBracket)
    ensures r.Crash? ==> !rings
    ensures r.Ok? ==> i <= r.value < |ds|
    ensures r.Ok? && rings ==> AtomText(ds, i) == Ok((ds[i..r.value + 1], r.value))
    ensures r.Ok? && !rings ==>
      var last := AtomText(ds, i).value.1;
      && AtomText(ds, i).Ok? && last <= r.value
      && RunEnd(ds, last + 1).Some? && RunEnd(ds, last + 1).value == r.value + 1
  {
    var text := AtomText(ds, i);
    if !text.Ok? then Fail(DecodeError(ds, i, UnclosedBracket))
    else
      var last := text.value.1;
      if rings then Ok(last)
      else
        match RunEnd(ds, last + 1)
        case None => Crash
        case Some(e) => Ok(if e > last + 1 then e - 1 else last)
  }

  /** An atom: a new node holding the bond character before it and its
      text (plus, without ring decoding, the ring symbols after it), hung
      below the atom on top of the stack and pushed. */
  function AtomStep(ds: string, rings: bool, st: BState): (r: Outcome<BState>)
    requires st.i < |ds| && Good(st)
    ensures r.Ok? ==>
      && Good(r.value) && st.i < r.value.i <= |ds|
      && AtomSpan(ds, rings, st.i) == Ok(r.value.i - 1)
      && r.value.tree.nodes == st.tree.nodes + [PrevBond(ds, st.i) + ds[st.i..r.value.i]]
      && r.value.stack == st.stack + [|st.tree.nodes|]
      && r.value.tree.rcDigit == st.tree.rcDigit
      && (|st.stack| == 0 ==> r.value.tree.parent == st.tree.parent)
      && (|st.stack| > 0 ==> r.value.tree.parent == st.tree.parent[|st.tree.nodes| := st.stack[|st.stack| - 1]])
    ensures r.Fail? ==> r.error == DecodeError(ds, st.i, UnclosedBracket)
    ensures r.Crash? ==> !rings
  {
    match AtomSpan(ds, rings, st.i)
    case Fail(e) => Fail(e)
    case Crash => Crash
    case Ok(last) =>
      var (t1, idx) := AddNode(st.tree, PrevBond(ds, st.i) + ds[st.i..last + 1]);
      var t2 := if |st.stack| > 0 then AddEdge(t1, st.stack[|st.stack| - 1], idx) else t1;
      Ok(BState(last + 1, st.stack + [idx], t2))
  }

  /** One iteration of the scan loop. A `(` is not special here: it goes
      down the atom path, as in the source. */
  function Step(ds: string, rings: bool, st: BState): (r: Outcome<BState>)
    requires st.i < |ds| && Good(st)
    ensures r.Ok? ==> Good(r.value) && st.i < r.value.i
    ensures r.Ok? ==> |st.tree.nodes| <= |r.value.tree.nodes|
    ensures r.Fail? ==> r.error.input == ds && st.i <= r.error.idx <= |ds| + 1
    ensures ds[st.i] == ')' ==> (r.Fail? <==> |st.stack| == 0)
    ensures ds[st.i] == ')' && r.Ok? ==> r.value == st.(i := st.i + 1, stack := st.stack[..|st.stack| - 1])
    ensures ds[st.i] == ')' && r.Fail? ==> r.error == DecodeError(ds, st.i, TooManyClose)
    ensures st.i == 0 && IsDigit(ds[0]) ==> r == Fail(DecodeError(ds, 0, DigitFirst))
    ensures st.i == 0 && ds[0] == '%' ==> r == Fail(DecodeError(ds, 0, PercentFirst))
  {
    var i := st.i;
    var x := ds[i];
    if x == ')' then
      if |st.stack| == 0 then Fail(DecodeError(ds, i, TooManyClose))
      else Ok(st.(i := i + 1, stack := st.stack[..|st.stack| - 1]))
    else if IsBondChar(x) then Ok(st.(i := i + 1))
    else if x == '%' then
      if i == 0 then Fail(DecodeError(ds, i, PercentFirst))
      else
        match PercentRingSize(ds, i)
        case Fail(e) => Fail(e)
        case Crash => Crash
        case Ok((rc, last)) => CloseRing(ds, st, rc, PrevBond(ds, i), last, NatToDecimal(rc))
    else if IsDigit(x) then
      if i == 0 then Fail(DecodeError(ds, i, DigitFirst))
      else CloseRing(ds, st, DigitValue(x), PrevBond(ds, i), i, [x])
    else AtomStep(ds, rings, st)
  }

  /** The scan loop from state `st`. A `%` token can carry the position
      past the end of the input. */
  function Run(ds: string, rings: bool, st: BState): (r: Outcome<BState>)
    requires Good(st)
    ensures r.Ok? ==> Good(r.value) && |st.tree.nodes| <= |r.value.tree.nodes|
    ensures r.Fail? ==> r.error.input == ds && st.i <= r.error.idx <= |ds| + 1
    decreases |ds| - st.i, 1
  {
    if |ds| <= st.i then Ok(st) else Advance(ds, rings, st)
  }

  /** One iteration of the loop, then the rest of the scan. */
  function Advance(ds: string, rings: bool, st: BState): (r: Outcome<BState>)
    requires st.i < |ds| && Good(st)
    ensures r.Ok? ==> Good(r.value) && |st.tree.nodes| <= |r.value.tree.nodes|
    ensures r.Fail? ==> r.error.input == ds && st.i <= r.error.idx <= |ds| + 1
    decreases |ds| - st.i, 0
  {
    match Step(ds, rings, st)
    case Ok(next) => Run(ds, rings, next)
    case Fail(e) => Fail(e)
    case Crash => Crash
  }

  /** `decode_branches`: the scan, then the rendering of the tree. An
      input without atoms leaves the tree empty and the rendering indexes
      an empty list. */
  function DecodeBranches(ds: string, rings: bool): (r: Outcome<string>)
    ensures r.Fail? ==> r.error.input == ds && 0 <= r.error.idx <= |ds| + 1
    ensures |ds| == 0 ==> r.Crash?
    ensures 0 < |ds| && IsDigit(ds[0]) ==> r == Fail(DecodeError(ds, 0, DigitFirst))
    ensures 0 < |ds| && ds[0] == '%' ==> r == Fail(DecodeError(ds, 0, PercentFirst))
    ensures 0 < |ds| && ds[0] == ')' ==> r == Fail(DecodeError(ds, 0, TooManyClose))
  {
    assert 0 < |ds| ==> Run(ds, rings, Start) == Advance(ds, rings, Start);
    match Run(ds, rings, Start)
    case Fail(e) => Fail(e)
    case Crash => Crash
    case Ok(st) => if |st.tree.nodes| == 0 then Crash else Ok(ToSmiles(st.tree))
  }
}
