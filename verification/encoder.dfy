/** `encode`: one left-to-right scan of a SMILES string that drops branch
    parentheses in favour of runs of `)` and replaces each pair of ring
    digits by one ring-size token, followed by the stitching pass that
    places the ring-size tokens and corrects tetrahedral stereo marks. */
module Encoder {
  import opened Lexicon
  import opened Stereo

  /** What the scan remembers about the first mention of a ring symbol
      (an entry of `ringopenings`): the path depth there, the bond character
      written before it, the output piece it followed and its input
      position. */
  datatype Opening = Opening(depth: int, bond: string, ansIdx: int, symbolIdx: int)

  /** The scan state. `levels` holds, for every open nesting level, how
      many atoms were written directly at that level; the source keeps the
      atom numbers themselves, of which only the count is ever read.
      `info` maps an output piece to the ring-bond records attached to it
      (`symbolinfo`). */
  datatype ScanState = ScanState(
    i: nat,
    ans: seq<string>,
    levels: seq<nat>,
    openings: map<string, Opening>,
    info: map<int, seq<BondRecord>>)

  const Start := ScanState(0, [], [0], map[], map[])

  /** The length of the path from the first atom to the current one: the
      sum of the per-level counts. */
  function Depth(levels: seq<nat>): nat
  {
    if |levels| == 0 then 0 else Depth(levels[..|levels| - 1]) + levels[|levels| - 1]
  }

  /** Every `[` is followed somewhere by a `]`. Without it the source's
      `find` returns -1 and the scan restarts from the beginning forever. */
  predicate BracketsClosed(smi: string)
  {
    forall k :: 0 <= k < |smi| && smi[k] == '[' ==> Find(smi, ']', k) != -1
  }

  /** The records attached to output piece `k`, empty when there are none
      (a `defaultdict(list)` lookup). */
  function Records(info: map<int, seq<BondRecord>>, k: int): seq<BondRecord>
  {
    if k in info then info[k] else []
  }

  function AddRecord(info: map<int, seq<BondRecord>>, k: int, b: BondRecord): (r: map<int, seq<BondRecord>>)
    ensures Records(r, k) == Records(info, k) + [b]
    ensures forall j :: j != k ==> Records(r, j) == Records(info, j)
  {
    info[k := Records(info, k) + [b]]
  }

  /** The latest record on piece `k` is the closing record at `j`
      carrying `token`. */
  predicate EndsWithClose(info: map<int, seq<BondRecord>>, k: int, j: int, token: string)
  {
    0 < |Records(info, k)| && Records(info, k)[|Records(info, k)| - 1] == Close(j, token)
  }

  /** Python's `ans[k]`, where a negative `k` counts from the end. */
  function PyIndex(ans: seq<string>, k: int): (r: Option<string>)
    ensures r.Some? <==> -|ans| <= k < |ans|
    ensures 0 <= k < |ans| ==> r == Some(ans[k])
    ensures -|ans| <= k < 0 ==> r == Some(ans[|ans| + k])
  {
    if 0 <= k < |ans| then Some(ans[k])
    else if -|ans| <= k < 0 then Some(ans[|ans| + k])
    else None
  }

  /** The bond character a closing ring mention carries: its own when it
      has one, otherwise the opening's with `/` and `\` exchanged, since
      the bond is now read in the opposite direction. */
  function ClosingBond(closeBond: string, openBond: string): (r: string)
    ensures closeBond != "" ==> r == closeBond
    ensures closeBond == "" && openBond == "/" ==> r == "\\"
    ensures closeBond == "" && openBond == "\\" ==> r == "/"
    ensures closeBond == "" && openBond != "/" && openBond != "\\" ==> r == openBond
  {
    if closeBond != "" then closeBond
    else if openBond == "\\" then "/"
    else if openBond == "/" then "\\"
    else openBond
  }

  /** A `)`: the innermost level is popped; in branch mode it is written
      as one `)` per atom that level held, otherwise as a single `)`.
      Popping the outermost level leaves no level, and a later `)` then
      pops an empty list (`IndexError`). */
  function CloseBranch(st: ScanState, branches: bool): (r: Option<ScanState>)
    ensures r.None? <==> |st.levels| == 0
    ensures r.Some? ==>
      && r.value.i == st.i + 1
      && r.value.levels == st.levels[..|st.levels| - 1]
      && |r.value.ans| == |st.ans| + 1 && r.value.ans[..|st.ans|] == st.ans
      && r.value.openings == st.openings && r.value.info == st.info
    ensures r.Some? && branches ==> r.value.ans[|st.ans|] == Repeat(')', st.levels[|st.levels| - 1])
    ensures r.Some? && !branches ==> r.value.ans[|st.ans|] == ")"
  {
    if |st.levels| == 0 then None
    else
      var top := st.levels[|st.levels| - 1];
      var piece := if branches then Repeat(')', top) else ")";
      Some(st.(i := st.i + 1, levels := st.levels[..|st.levels| - 1], ans := st.ans + [piece]))
  }

  /** A `(`: a new, empty level; the parenthesis itself is written only
      outside branch mode. */
  function OpenBranch(st: ScanState, branches: bool): (r: ScanState)
    ensures r.i == st.i + 1 && r.levels == st.levels + [0]
    ensures branches ==> r.ans == st.ans
    ensures !branches ==> r.ans == st.ans + ["("]
    ensures r.openings == st.openings && r.info == st.info
  {
    st.(i := st.i + 1, levels := st.levels + [0], ans := if branches then st.ans else st.ans + ["("])
  }

  /** The ring symbol starting at `i` in ring mode: one digit, or `%`
      with the two characters after it (`smi[i:i+3]`, shorter at the end
      of the input). */
  function RingSymbol(smi: string, i: nat): (r: string)
    requires i < |smi|
    ensures smi[i] != '%' ==> r == [smi[i]]
    ensures smi[i] == '%' ==> r == Slice(smi, i, i + 3)
    ensures 0 < |r| <= 3 && r[0] == smi[i]
  {
    if smi[i] == '%' then Slice(smi, i, i + 3) else [smi[i]]
  }

  /** The position of the ring symbol's last character: the source skips
      two more after a `%`, whether or not they exist. */
  function RingSymbolEnd(smi: string, i: nat): nat
    requires i < |smi|
  {
    if smi[i] == '%' then i + 2 else i
  }

  /** The second mention of a ring symbol, which opened as `o`: the
      symbol is forgotten and the last output piece gets a closing record
      carrying `token`. When the opening followed a piece holding `@`,
      that piece gets an opening record too, for the stereo parity check.
      The source looks the opening piece up with Python indexing, so an
      opening before any output (index -1) refers to the latest piece. */
  function CloseMention(st: ScanState, sym: string, o: Opening, j: nat, token: string): (r: Option<ScanState>)
    ensures r.None? <==> !(-|st.ans| <= o.ansIdx < |st.ans|)
    ensures r.Some? ==>
      && r.value.i == j + 1 && r.value.ans == st.ans && r.value.levels == st.levels
      && r.value.openings == st.openings - {sym}
      && EndsWithClose(r.value.info, |st.ans| - 1, j, token)
  {
    match PyIndex(st.ans, o.ansIdx)
    case None => None
    case Some(openPiece) =>
      var info1 := if '@' in openPiece then AddRecord(st.info, o.ansIdx, Open(o.symbolIdx, j)) else st.info;
      var info2 := AddRecord(info1, |st.ans| - 1, Close(j, token));
      Some(st.(i := j + 1, openings := st.openings - {sym}, info := info2))
  }

  /** The ring-size token a second mention writes: the closing bond
      character, then the depth now minus the depth at the opening plus
      one. */
  function RingCloseToken(smi: string, st: ScanState, o: Opening): string
    requires st.i < |smi|
  {
    ClosingBond(PrevBond(smi, st.i), o.bond) + FormatRingNumber(RingGap(st.levels, o))
  }

  /** The ring size: the path depth now minus the depth at the opening,
      plus one. */
  function RingGap(levels: seq<nat>, o: Opening): int
  {
    Depth(levels) - o.depth + 1
  }

  /** A ring symbol in ring mode. Its first mention writes nothing and is
      remembered with the current depth. The second mention writes nothing
      either; it attaches to the last output piece the ring-size token:
      depth now minus depth at the opening plus one, after the closing bond
      character. */
  function RingMention(smi: string, st: ScanState): (r: Option<ScanState>)
    requires st.i < |smi| && IsRingSymbol(smi[st.i])
    ensures r.Some? ==> r.value.ans == st.ans && r.value.levels == st.levels
    ensures r.Some? ==> r.value.i == RingSymbolEnd(smi, st.i) + 1
    ensures RingSymbol(smi, st.i) !in st.openings ==>
      r == Some(st.(i := RingSymbolEnd(smi, st.i) + 1,
                    openings := st.openings[RingSymbol(smi, st.i) :=
                      Opening(Depth(st.levels), PrevBond(smi, st.i), |st.ans| - 1, RingSymbolEnd(smi, st.i))]))
    ensures RingSymbol(smi, st.i) in st.openings ==>
      var o := st.openings[RingSymbol(smi, st.i)];
      && (r.None? <==> !(-|st.ans| <= o.ansIdx < |st.ans|))
      && (r.Some? ==>
        && r.value.openings == st.openings - {RingSymbol(smi, st.i)}
        && EndsWithClose(r.value.info, |st.ans| - 1, RingSymbolEnd(smi, st.i),
                         RingCloseToken(smi, st, o)))
  {
    var sym := RingSymbol(smi, st.i);
    var j := RingSymbolEnd(smi, st.i);
    if sym in st.openings then
      CloseMention(st, sym, st.openings[sym], j, RingCloseToken(smi, st, st.openings[sym]))
    else
      var r := st.(i := j + 1, openings := st.openings[sym := Opening(Depth(st.levels), PrevBond(smi, st.i), |st.ans| - 1, j)]);
      Some(r)
  }

  /** The characters an atom occupies from `i` on: a bracket atom up to
      the first `]`, `Cl` or `Br`, or one character. */
  function AtomEnd(smi: string, i: nat): (e: nat)
    requires i < |smi|
    requires smi[i] == '[' ==> Find(smi, ']', i) != -1
    ensures i < e <= |smi|
    ensures smi[i] == '[' ==> e == Find(smi, ']', i) + 1 && smi[e - 1] == ']'
    ensures smi[i] != '[' && TwoLetterAtom(smi, i) ==> e == i + 2
    ensures smi[i] != '[' && !TwoLetterAtom(smi, i) ==> e == i + 1
  {
    if smi[i] == '[' then Find(smi, ']', i) + 1
    else if TwoLetterAtom(smi, i) then i + 2
    else i + 1
  }

  /** An atom: counted at the innermost level and written, with the bond
      character before it glued on, as one output piece. With no level
      left (after an unmatched `)`) the source indexes an empty list. */
  function AtomToken(smi: string, st: ScanState): (r: Option<ScanState>)
    requires st.i < |smi|
    requires smi[st.i] == '[' ==> Find(smi, ']', st.i) != -1
    ensures r.None? <==> |st.levels| == 0
    ensures r.Some? ==>
      && r.value.i == AtomEnd(smi, st.i)
      && r.value.ans == st.ans + [PrevBond(smi, st.i) + smi[st.i..AtomEnd(smi, st.i)]]
      && |r.value.levels| == |st.levels|
      && r.value.levels[..|st.levels| - 1] == st.levels[..|st.levels| - 1]
      && r.value.levels[|st.levels| - 1] == st.levels[|st.levels| - 1] + 1
      && r.value.openings == st.openings && r.value.info == st.info
  {
    if |st.levels| == 0 then None
    else
      var e := AtomEnd(smi, st.i);
      var top := st.levels[|st.levels| - 1];
      Some(st.(i := e,
               ans := st.ans + [PrevBond(smi, st.i) + smi[st.i..e]],
               levels := st.levels[..|st.levels| - 1] + [top + 1]))
  }

  /** One iteration of the scan loop. */
  function Step(smi: string, rings: bool, branches: bool, st: ScanState): (r: Option<ScanState>)
    requires st.i < |smi| && BracketsClosed(smi)
    ensures r.Some? ==> st.i < r.value.i
  {
    var x := smi[st.i];
    if x == ')' then CloseBranch(st, branches)
    else if x == '(' then Some(OpenBranch(st, branches))
    else if IsBondChar(x) then Some(st.(i := st.i + 1))
    else if IsRingSymbol(x) then
      if rings then RingMention(smi, st)
      else Some(st.(i := st.i + 1, ans := st.ans + [PrevBond(smi, st.i) + [x]]))
    else AtomToken(smi, st)
  }

  /** The scan loop, from state `st` to the end of the input. */
  function Scan(smi: string, rings: bool, branches: bool, st: ScanState): Option<ScanState>
    requires BracketsClosed(smi)
    decreases |smi| - st.i, 1
  {
    if |smi| <= st.i then Some(st) else ScanOn(smi, rings, branches, st)
  }

  /** One iteration of the loop, then the rest of the scan. */
  function ScanOn(smi: string, rings: bool, branches: bool, st: ScanState): Option<ScanState>
    requires BracketsClosed(smi) && st.i < |smi|
    decreases |smi| - st.i, 0
  {
    match Step(smi, rings, branches, st)
    case None => None
    case Some(next) => Scan(smi, rings, branches, next)
  }

  /** `levels` with `m` more atoms counted at the innermost level. */
  function Bump(levels: seq<nat>, m: nat): seq<nat>
    requires 0 < |levels|
  {
    levels[..|levels| - 1] + [levels[|levels| - 1] + m]
  }

  /** In ring mode a ring symbol is read by `RingMention`. */
  lemma RingStep(smi: string, branches: bool, st: ScanState)
    requires BracketsClosed(smi) && st.i < |smi| && IsRingSymbol(smi[st.i])
    ensures Step(smi, true, branches, st) == RingMention(smi, st)
  {
    RingSymbolClass(smi[st.i]);
  }

  /** A one-character ring symbol not yet open is remembered with the
      current depth, the bond character before it and the latest piece. */
  lemma RingMentionOpens(smi: string, st: ScanState, sym: string)
    requires st.i < |smi| && IsRingSymbol(smi[st.i]) && smi[st.i] != '%'
    requires sym == [smi[st.i]] && sym !in st.openings
    ensures RingMention(smi, st)
         == Some(st.(i := st.i + 1, openings := st.openings[sym := Opening(Depth(st.levels), PrevBond(smi, st.i), |st.ans| - 1, st.i)]))
  {
    assert RingSymbol(smi, st.i) == sym && RingSymbolEnd(smi, st.i) == st.i;
  }

  /** A one-character ring symbol already open as `o`, with no bond
      character at either end, is read by `CloseMention` with the ring size
      the two depths give. */
  lemma RingMentionCloses(smi: string, st: ScanState, sym: string, o: Opening, size: int, j: nat)
    requires j == st.i && j < |smi| && IsRingSymbol(smi[j]) && smi[j] != '%'
    requires sym == [smi[j]] && sym in st.openings && st.openings[sym] == o
    requires PrevBond(smi, j) == "" && o.bond == "" && size == Depth(st.levels) - o.depth + 1
    ensures RingMention(smi, st) == CloseMention(st, sym, o, j, FormatRingNumber(size))
  {
    assert RingSymbol(smi, st.i) == sym && RingSymbolEnd(smi, st.i) == st.i;
    RingMentionSecond(smi, st, sym, st.i);
    UnbondedToken(smi, st, o, size);
  }

  /** A ring symbol already open is read by `CloseMention`. */
  lemma RingMentionSecond(smi: string, st: ScanState, sym: string, j: nat)
    requires st.i < |smi| && IsRingSymbol(smi[st.i])
    requires sym == RingSymbol(smi, st.i) && j == RingSymbolEnd(smi, st.i) && sym in st.openings
    ensures RingMention(smi, st) == CloseMention(st, sym, st.openings[sym], j, RingCloseToken(smi, st, st.openings[sym]))
  {
  }

  /** With no bond character at either end the ring-size token is the
      bare ring size. */
  lemma UnbondedToken(smi: string, st: ScanState, o: Opening, size: int)
    requires st.i < |smi| && PrevBond(smi, st.i) == "" && o.bond == ""
    requires size == Depth(st.levels) - o.depth + 1
    ensures RingCloseToken(smi, st, o) == FormatRingNumber(size)
  {
    assert ClosingBond(PrevBond(smi, st.i), o.bond) == "";
    assert RingGap(st.levels, o) == size;
    EmptyPrefix(FormatRingNumber(size));
  }

  /** A closing mention whose opening piece holds no `@` adds only the
      closing record. */
  lemma CloseMentionPlain(st: ScanState, sym: string, o: Opening, j: nat, token: string, next: nat, last: int, r: ScanState)
    requires 0 <= o.ansIdx < |st.ans| && '@' !in st.ans[o.ansIdx]
    requires next == j + 1 && last == |st.ans| - 1
    requires r == st.(i := next, openings := st.openings - {sym}, info := AddRecord(st.info, last, Close(j, token)))
    ensures CloseMention(st, sym, o, j, token) == Some(r)
  {
  }

  /** One plain atom not followed by `l` or `r` is one output piece. */
  lemma PlainAtomStep(smi: string, rings: bool, branches: bool, st: ScanState)
    requires BracketsClosed(smi) && st.i < |smi| && 0 < |st.levels|
    requires PlainAtom(smi[st.i])
    requires 0 < st.i ==> !IsBondChar(smi[st.i - 1])
    requires st.i + 1 < |smi| ==> smi[st.i + 1] != 'l' && smi[st.i + 1] != 'r'
    ensures Step(smi, rings, branches, st)
         == Some(st.(i := st.i + 1, ans := st.ans + [[smi[st.i]]], levels := Bump(st.levels, 1)))
  {
    var x := smi[st.i];
    PlainAtomClass(x);
    assert !TwoLetterAtom(smi, st.i);
    assert PrevBond(smi, st.i) + smi[st.i..st.i + 1] == [x] by {
      assert PrevBond(smi, st.i) == "" && smi[st.i..st.i + 1] == [x];
      EmptyPrefix([x]);
    }
  }

  /** Scanning from before such an atom continues after it. */
  lemma PlainAtomScan(smi: string, rings: bool, branches: bool, st: ScanState)
    requires BracketsClosed(smi) && st.i < |smi| && 0 < |st.levels|
    requires PlainAtom(smi[st.i])
    requires 0 < st.i ==> !IsBondChar(smi[st.i - 1])
    requires st.i + 1 < |smi| ==> smi[st.i + 1] != 'l' && smi[st.i + 1] != 'r'
    ensures Scan(smi, rings, branches, st)
         == Scan(smi, rings, branches, st.(i := st.i + 1, ans := st.ans + [[smi[st.i]]], levels := Bump(st.levels, 1)))
  {
    PlainAtomStep(smi, rings, branches, st);
    ScanFrom(smi, rings, branches, st, st.(i := st.i + 1, ans := st.ans + [[smi[st.i]]], levels := Bump(st.levels, 1)));
  }

  /** The state after `m` plain atoms from `st`. */
  function AfterAtoms(smi: string, st: ScanState, m: nat): ScanState
    requires st.i + m <= |smi| && 0 < |st.levels|
  {
    st.(i := st.i + m, ans := st.ans + Singles(smi[st.i..st.i + m]), levels := Bump(st.levels, m))
  }

  lemma AfterAtomsNext(smi: string, st: ScanState, m: nat)
    requires st.i + m <= |smi| && 0 < |st.levels| && 0 < m
    ensures AfterAtoms(smi, st.(i := st.i + 1, ans := st.ans + [[smi[st.i]]], levels := Bump(st.levels, 1)), m - 1)
         == AfterAtoms(smi, st, m)
  {
    assert st.ans + [[smi[st.i]]] + Singles(smi[st.i + 1..st.i + m]) == st.ans + Singles(smi[st.i..st.i + m]);
    assert Bump(Bump(st.levels, 1), m - 1) == Bump(st.levels, m);
  }

  /** From the start, `m` plain atoms leave `m` pieces counted on the one
      level. */
  lemma AfterAtomsFromStart(smi: string, m: nat)
    requires m <= |smi|
    ensures AfterAtoms(smi, Start, m) == ScanState(m, Singles(smi[..m]), [m], map[], map[])
  {
    var lv: seq<nat> := [0];
    assert Start.levels == lv;
    assert lv[..0] == [];
    assert Bump(lv, m) == [m];
    assert [] + Singles(smi[0..m]) == Singles(smi[..m]);
  }

  /** Scanning from a state whose next step is known continues from the
      state that step reaches. */
  lemma {:induction false} ScanFrom(smi: string, rings: bool, branches: bool, st: ScanState, st1: ScanState)
    requires BracketsClosed(smi) && st.i < |smi|
    requires Step(smi, rings, branches, st) == Some(st1)
    ensures Scan(smi, rings, branches, st) == Scan(smi, rings, branches, st1)
  {
    assert Scan(smi, rings, branches, st) == ScanOn(smi, rings, branches, st);
  }

  /** A run of `m` plain atoms is scanned one atom per output piece, each
      counted at the innermost level, whatever the flags. */
  lemma {:induction false} ScanAtoms(smi: string, rings: bool, branches: bool, st: ScanState, m: nat)
    requires BracketsClosed(smi) && st.i + m <= |smi| && 0 < |st.levels|
    requires forall p :: st.i <= p < st.i + m ==> PlainAtom(smi[p])
    requires 0 < m && 0 < st.i ==> !IsBondChar(smi[st.i - 1])
    requires st.i + m < |smi| ==> smi[st.i + m] != 'l' && smi[st.i + m] != 'r'
    ensures Scan(smi, rings, branches, st) == Scan(smi, rings, branches, AfterAtoms(smi, st, m))
    decreases m
  {
    if m == 0 {
      assert st.ans + Singles(smi[st.i..st.i]) == st.ans;
      assert Bump(st.levels, 0) == st.levels;
      assert AfterAtoms(smi, st, m) == st;
    } else {
      var x := smi[st.i];
      var st1 := st.(i := st.i + 1, ans := st.ans + [[x]], levels := Bump(st.levels, 1));
      // The facts about `Scan` come last: with them in scope every other
      // obligation gets much more expensive.
      AfterAtomsNext(smi, st, m);
      assert !IsBondChar(x) by {
        PlainAtomClass(x);
      }
      if 1 < m {
        PlainAtomClass(smi[st.i + 1]);
      }
      ScanAtoms(smi, rings, branches, st1, m - 1);
      PlainAtomScan(smi, rings, branches, st);
    }
  }

  /** The concatenated ring-size tokens of the closing records, in the
      order they were recorded. */
  function CloseTokens(bcinfo: seq<BondRecord>): string
  {
    if |bcinfo| == 0 then ""
    else CloseTokens(bcinfo[..|bcinfo| - 1]) + (match bcinfo[|bcinfo| - 1] case Close(_, t) => t case Open(_, _) => "")
  }

  /** One output piece in the final string: with records attached, its
      stereo mark is flipped when the records say so and the ring-size
      tokens follow it. */
  function StitchPiece(x: string, bcinfo: seq<BondRecord>): (r: Option<string>)
    ensures |bcinfo| == 0 ==> r == Some(x)
    ensures 0 < |bcinfo| && !ShouldInvertStereo(bcinfo) ==> r == Some(x + CloseTokens(bcinfo))
    ensures 0 < |bcinfo| && ShouldInvertStereo(bcinfo) ==>
      && (r.None? <==> MarkerAtEnd(x))
      && (r.Some? ==> r.value == InvertStereo(x).value + CloseTokens(bcinfo))
    ensures '@' !in x ==> r == Some(if |bcinfo| == 0 then x else x + CloseTokens(bcinfo))
  {
    if |bcinfo| == 0 then Some(x)
    else
      InvertStereoNoMarks(x);
      var head := if ShouldInvertStereo(bcinfo) then InvertStereo(x) else Some(x);
      match head
      case None => None
      case Some(h) => Some(h + CloseTokens(bcinfo))
  }

  /** The stitching pass over the output pieces. */
  function Stitch(ans: seq<string>, info: map<int, seq<BondRecord>>): (r: Option<string>)
    ensures (forall k :: 0 <= k < |ans| ==> Records(info, k) == []) ==> r == Some(Join(ans))
  {
    if |ans| == 0 then Some("")
    else
      match Stitch(ans[..|ans| - 1], info)
      case None => None
      case Some(prefix) =>
        match StitchPiece(ans[|ans| - 1], Records(info, |ans| - 1))
        case None => None
        case Some(piece) => Some(prefix + piece)
  }

  /** Stitching appends the last piece, as stitched, to the stitched rest. */
  lemma StitchSnoc(ans: seq<string>, info: map<int, seq<BondRecord>>, prefix: string, piece: string)
    requires 0 < |ans|
    requires Stitch(ans[..|ans| - 1], info) == Some(prefix)
    requires StitchPiece(ans[|ans| - 1], Records(info, |ans| - 1)) == Some(piece)
    ensures Stitch(ans, info) == Some(prefix + piece)
  {
  }

  /** Stitching fails when the rest fails. */
  lemma StitchRestFails(ans: seq<string>, info: map<int, seq<BondRecord>>, last: nat)
    requires last + 1 == |ans| && Stitch(ans[..last], info).None?
    ensures Stitch(ans, info).None?
  {
  }

  /** Stitching fails when the last piece fails. */
  lemma StitchLastFails(ans: seq<string>, info: map<int, seq<BondRecord>>, last: nat)
    requires last + 1 == |ans| && StitchPiece(ans[last], Records(info, last)).None?
    ensures Stitch(ans, info).None?
  {
  }

  /** When every piece can be stitched, the pass writes the stitched
      pieces one after another, in order. */
  lemma {:induction false} StitchPieces(ans: seq<string>, info: map<int, seq<BondRecord>>, ps: seq<string>)
    requires |ps| == |ans|
    requires forall k :: 0 <= k < |ans| ==> StitchPiece(ans[k], Records(info, k)) == Some(ps[k])
    ensures Stitch(ans, info) == Some(Join(ps))
    decreases |ans|
  {
    if 0 < |ans| {
      var n := |ans|;
      var init := ans[..n - 1];
      var pinit := ps[..n - 1];
      assert forall k :: 0 <= k < n - 1 ==> init[k] == ans[k] && pinit[k] == ps[k];
      StitchPieces(init, info, pinit);
      StitchSnoc(ans, info, Join(pinit), ps[n - 1]);
    }
  }

  /** One piece that cannot be stitched (a lone `@` at its end when its
      stereo is to be flipped) makes the whole pass fail. */
  lemma {:induction false} StitchFails(ans: seq<string>, info: map<int, seq<BondRecord>>, k: nat)
    requires k < |ans| && StitchPiece(ans[k], Records(info, k)).None?
    ensures Stitch(ans, info).None?
    decreases |ans|
  {
    var last := |ans| - 1;
    if k < last {
      assert ans[..last][k] == ans[k];
      StitchFails(ans[..last], info, k);
      StitchRestFails(ans, info, last);
    } else {
      StitchLastFails(ans, info, last);
    }
  }

  /** `encode`. With both compactions off the input is returned as it is;
      otherwise the scan's output pieces are stitched together. `None`
      stands for the source's `IndexError` on unbalanced input. */
  function Encode(smi: string, rings: bool, branches: bool): (r: Option<string>)
    requires rings || branches ==> BracketsClosed(smi)
    ensures !rings && !branches ==> r == Some(smi)
  {
    if !rings && !branches then Some(smi)
    else
      match Scan(smi, rings, branches, Start)
      case None => None
      case Some(st) => Stitch(st.ans, st.info)
  }
}
