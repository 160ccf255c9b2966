/** The tetrahedral-stereo correction of the encoder: flipping `@`/`@@`
    and deciding, from the ring-bond records of one atom, whether the
    change of neighbour order is an odd permutation. */
module Stereo {
  import opened Lexicon

  function Prepend(p: string, r: Option<string>): Option<string>
  {
    match r
    case None => None
    case Some(t) => Some(p + t)
  }

  /** `invertStereo`: every lone `@` becomes `@@` and every `@@` becomes
      `@`. A lone `@` as the last character makes the source read past the
      end (`IndexError`), modelled as `None`. */
  function InvertStereo(s: string): (r: Option<string>)
    ensures r.None? <==> MarkerAtEnd(s)
    decreases |s|
  {
    if |s| == 0 then Some("")
    else if s[0] != '@' then Prepend([s[0]], InvertStereo(s[1..]))
    else if |s| == 1 then None
    else if s[1] == '@' then Prepend("@", InvertStereo(s[2..]))
    else Prepend("@@", InvertStereo(s[1..]))
  }

  /** The string ends in an unpaired `@`: scanning from the left and
      pairing `@@`, the last `@` has no successor. */
  predicate MarkerAtEnd(s: string)
    decreases |s|
  {
    if |s| == 0 then false
    else if s[0] != '@' then MarkerAtEnd(s[1..])
    else if |s| == 1 then true
    else if s[1] == '@' then MarkerAtEnd(s[2..])
    else MarkerAtEnd(s[1..])
  }

  /** Every `@` is followed by some character and no three `@` stand in a
      row: the shape of chirality marks inside bracket atoms. */
  predicate WellFormedMarks(s: string)
  {
    forall k :: 0 <= k < |s| && s[k] == '@' ==>
      k + 1 < |s| && (s[k + 1] == '@' ==> k + 2 < |s| && s[k + 2] != '@')
  }

  lemma WellFormedMarksSuffix(s: string, d: nat)
    requires WellFormedMarks(s) && d <= |s|
    ensures WellFormedMarks(s[d..])
  {
    var t := s[d..];
    forall k | 0 <= k < |t| && t[k] == '@'
      ensures k + 1 < |t| && (t[k + 1] == '@' ==> k + 2 < |t| && t[k + 2] != '@')
    {
      assert s[d + k] == '@';
    }
  }

  /** A fragment without `@` comes back unchanged. */
  lemma {:induction false} InvertStereoNoMarks(s: string)
    ensures '@' !in s ==> InvertStereo(s) == Some(s)
    decreases |s|
  {
    if |s| > 0 && '@' !in s {
      assert s[0] in s;
      assert forall k :: 0 <= k < |s[1..]| ==> s[1..][k] == s[k + 1];
      InvertStereoNoMarks(s[1..]);
      assert s == [s[0]] + s[1..];
    }
  }

  lemma {:induction false} InvertStereoKeepsFirst(s: string)
    requires 0 < |s| && s[0] != '@' && InvertStereo(s).Some?
    ensures 0 < |InvertStereo(s).value| && InvertStereo(s).value[0] == s[0]
  {
  }

  /** Flipping twice restores a well-formed fragment: `@` and `@@` are
      exchanged, never lost or merged. */
  lemma {:induction false} InvertStereoInvolution(s: string)
    requires WellFormedMarks(s)
    ensures InvertStereo(s).Some?
    ensures InvertStereo(InvertStereo(s).value) == Some(s)
    decreases |s|
  {
    if |s| == 0 {
    } else if s[0] != '@' {
      WellFormedMarksSuffix(s, 1);
      InvertStereoInvolution(s[1..]);
      InvolutionPlain(s);
    } else if s[1] == '@' {
      WellFormedMarksSuffix(s, 2);
      InvertStereoInvolution(s[2..]);
      InvolutionDouble(s);
    } else {
      WellFormedMarksSuffix(s, 1);
      InvertStereoInvolution(s[1..]);
      InvolutionSingle(s);
    }
  }

  lemma {:induction false} InvolutionPlain(s: string)
    requires 0 < |s| && s[0] != '@'
    requires InvertStereo(s[1..]).Some? && InvertStereo(InvertStereo(s[1..]).value) == Some(s[1..])
    ensures InvertStereo(s).Some? && InvertStereo(InvertStereo(s).value) == Some(s)
  {
    var t' := InvertStereo(s[1..]).value;
    var t := [s[0]] + t';
    InvertStereoPlain(s);
    assert InvertStereo(s) == Some(t);
    InvertStereoPlain(t);
    assert t[1..] == t';
    assert s == [s[0]] + s[1..];
  }

  lemma {:induction false} InvolutionDouble(s: string)
    requires 2 < |s| && s[0] == '@' && s[1] == '@' && s[2] != '@'
    requires InvertStereo(s[2..]).Some? && InvertStereo(InvertStereo(s[2..]).value) == Some(s[2..])
    ensures InvertStereo(s).Some? && InvertStereo(InvertStereo(s).value) == Some(s)
  {
    var rest := s[2..];
    assert rest[0] == s[2];
    var u := InvertStereo(rest).value;
    InvertStereoKeepsFirst(rest);
    InvertStereoPair(s);
    var t := "@" + u;
    assert InvertStereo(s) == Some(t);
    assert t[1..] == u && t[0] == '@' && t[1] == u[0];
    InvertStereoLone(t);
    assert InvertStereo(t) == Prepend("@@", Some(rest));
    assert s == "@@" + rest;
  }

  lemma {:induction false} InvolutionSingle(s: string)
    requires 1 < |s| && s[0] == '@' && s[1] != '@'
    requires InvertStereo(s[1..]).Some? && InvertStereo(InvertStereo(s[1..]).value) == Some(s[1..])
    ensures InvertStereo(s).Some? && InvertStereo(InvertStereo(s).value) == Some(s)
  {
    var rest := s[1..];
    var t' := InvertStereo(rest).value;
    InvertStereoKeepsFirst(rest);
    var t := "@@" + t';
    InvertStereoLone(s);
    assert InvertStereo(s) == Some(t);
    assert t[2..] == t' && t[0] == '@' && t[1] == '@';
    InvertStereoPair(t);
    assert s == "@" + rest;
  }

  lemma {:induction false} InvertStereoPlain(s: string)
    requires 0 < |s| && s[0] != '@'
    ensures InvertStereo(s) == Prepend([s[0]], InvertStereo(s[1..]))
  {
  }

  lemma {:induction false} InvertStereoPair(s: string)
    requires 1 < |s| && s[0] == '@' && s[1] == '@'
    ensures InvertStereo(s) == Prepend("@", InvertStereo(s[2..]))
  {
  }

  lemma {:induction false} InvertStereoLone(s: string)
    requires 1 < |s| && s[0] == '@' && s[1] != '@'
    ensures InvertStereo(s) == Prepend("@@", InvertStereo(s[1..]))
  {
  }

  lemma PrependTwice(a: string, b: string, r: Option<string>)
    ensures Prepend(a, Prepend(b, r)) == Prepend(a + b, r)
  {
    match r
    case None =>
    case Some(t) => assert a + (b + t) == a + b + t;
  }

  /** A prefix without `@` is copied as it stands, whatever follows it. */
  lemma {:induction false} InvertStereoCopies(p: string, q: string)
    requires '@' !in p
    ensures InvertStereo(p + q) == Prepend(p, InvertStereo(q))
    decreases |p|
  {
    if |p| == 0 {
      assert p + q == q;
      match InvertStereo(q)
      case None =>
      case Some(t) => EmptyPrefix(t);
    } else {
      var s := p + q;
      assert p[0] in p;
      assert forall k :: 0 <= k < |p[1..]| ==> p[1..][k] == p[k + 1];
      assert s[0] == p[0] && s[1..] == p[1..] + q;
      InvertStereoPlain(s);
      InvertStereoCopies(p[1..], q);
      PrependTwice([p[0]], p[1..], InvertStereo(q));
      assert [p[0]] + p[1..] == p;
    }
  }

  /** The first `@` after an `@`-free prefix, standing alone, becomes `@@`;
      the rest is inverted in turn. */
  lemma InvertStereoSingle(p: string, q: string)
    requires '@' !in p && 0 < |q| && q[0] != '@'
    ensures InvertStereo(p + "@" + q) == Prepend(p + "@@", InvertStereo(q))
  {
    var s := "@" + q;
    assert s[1..] == q && s[1] == q[0];
    InvertStereoLone(s);
    InvertStereoCopies(p, s);
    assert p + "@" + q == p + s;
    PrependTwice(p, "@@", InvertStereo(q));
  }

  /** The first `@@` after an `@`-free prefix becomes `@`, whatever
      follows it; the rest is inverted in turn. */
  lemma InvertStereoDouble(p: string, q: string)
    requires '@' !in p
    ensures InvertStereo(p + "@@" + q) == Prepend(p + "@", InvertStereo(q))
  {
    var s := "@@" + q;
    assert s[2..] == q;
    InvertStereoPair(s);
    InvertStereoCopies(p, s);
    assert p + "@@" + q == p + s;
    PrependTwice(p, "@", InvertStereo(q));
  }

  /** Doctests of `invertStereo`: `C` is unchanged. */
  lemma InvertStereoExampleC()
    ensures InvertStereo("C") == Some("C")
  {
    InvertStereoPlain("C");
    assert "C"[1..] == "";
    assert "C" + "" == "C";
  }

  lemma InvertStereoTail()
    ensures InvertStereo("]") == Some("]")
    ensures InvertStereo("H]") == Some("H]")
  {
    InvertStereoPlain("]");
    assert "]"[1..] == "" && "]" + "" == "]";
    InvertStereoPlain("H]");
    assert "H]"[1..] == "]" && "H" + "]" == "H]";
  }

  /** Doctests of `invertStereo`: `[C@@]` becomes `[C@]` and back. */
  lemma InvertStereoExampleBare()
    ensures InvertStereo("[C@@]") == Some("[C@]")
    ensures InvertStereo("[C@]") == Some("[C@@]")
  {
    InvertStereoTail();
    InvertStereoPair("@@]");
    assert "@@]"[2..] == "]" && "@" + "]" == "@]";
    InvertStereoLone("@]");
    assert "@]"[1..] == "]" && "@@" + "]" == "@@]";
    InvertStereoPlain("C@@]");
    assert "C@@]"[1..] == "@@]" && "C" + "@]" == "C@]";
    InvertStereoPlain("C@]");
    assert "C@]"[1..] == "@]" && "C" + "@@]" == "C@@]";
    InvertStereoPlain("[C@@]");
    assert "[C@@]"[1..] == "C@@]" && "[" + "C@]" == "[C@]";
    InvertStereoPlain("[C@]");
    assert "[C@]"[1..] == "C@]" && "[" + "C@@]" == "[C@@]";
  }

  /** Doctests of `invertStereo`: `[C@H]` becomes `[C@@H]` and back. */
  lemma InvertStereoExampleHydrogen()
    ensures InvertStereo("[C@H]") == Some("[C@@H]")
    ensures InvertStereo("[C@@H]") == Some("[C@H]")
  {
    HydrogenSingle();
    HydrogenDouble();
  }

  lemma HydrogenSingle()
    ensures InvertStereo("[C@H]") == Some("[C@@H]")
  {
    InvertStereoTail();
    InvertStereoLone("@H]");
    assert "@H]"[1..] == "H]" && "@@" + "H]" == "@@H]";
    InvertStereoPlain("C@H]");
    assert "C@H]"[1..] == "@H]" && "C" + "@@H]" == "C@@H]";
    InvertStereoPlain("[C@H]");
    assert "[C@H]"[1..] == "C@H]" && "[" + "C@@H]" == "[C@@H]";
  }

  lemma HydrogenDouble()
    ensures InvertStereo("[C@@H]") == Some("[C@H]")
  {
    InvertStereoTail();
    InvertStereoPair("@@H]");
    assert "@@H]"[2..] == "H]" && "@" + "H]" == "@H]";
    InvertStereoPlain("C@@H]");
    assert "C@@H]"[1..] == "@@H]" && "C" + "@H]" == "C@H]";
    InvertStereoPlain("[C@@H]");
    assert "[C@@H]"[1..] == "C@@H]" && "[" + "C@H]" == "[C@H]";
  }

  /** One ring bond at a stereo atom, as the encoder records it: a closing
      mention at input position `symbolIdx` carrying the ring-size token
      to print, or an opening mention at `symbolIdx` whose partner closes at
      `closeIdx`. */
  datatype BondRecord =
    | Close(symbolIdx: int, token: string)
    | Open(symbolIdx: int, closeIdx: int)

  /** The sort key: closings (kind 0) by their own position before openings
      (kind 1) by their partner's position. */
  function KeyKind(b: BondRecord): nat
  {
    if b.Close? then 0 else 1
  }

  function KeyAt(b: BondRecord): int
  {
    match b
    case Close(i, _) => i
    case Open(_, c) => c
  }

  /** Lexicographic `<=` on the sort key. */
  predicate KeyLe(a: BondRecord, b: BondRecord)
  {
    KeyKind(a) < KeyKind(b) || (KeyKind(a) == KeyKind(b) && KeyAt(a) <= KeyAt(b))
  }

  predicate SortedByKey(s: seq<BondRecord>)
  {
    forall a, b :: 0 <= a < b < |s| ==> KeyLe(s[a], s[b])
  }

  /** Insert `x` after every element whose key is not larger: a stable
      insertion, like Python's `list.sort`. */
  function Insert(x: BondRecord, t: seq<BondRecord>): seq<BondRecord>
  {
    if |t| == 0 then [x]
    else if KeyLe(t[0], x) then [t[0]] + Insert(x, t[1..])
    else [x] + t
  }

  lemma {:induction false} InsertElements(x: BondRecord, t: seq<BondRecord>)
    ensures multiset(Insert(x, t)) == multiset(t) + multiset{x}
    ensures |Insert(x, t)| == |t| + 1
    decreases |t|
  {
    if |t| != 0 {
      assert t == [t[0]] + t[1..];
      if KeyLe(t[0], x) {
        InsertElements(x, t[1..]);
      }
    }
  }

  /** A lower bound of `x` and of every element of `t` bounds the
      insertion too. */
  lemma {:induction false} InsertLowerBound(y: BondRecord, x: BondRecord, t: seq<BondRecord>)
    requires KeyLe(y, x) && forall m :: 0 <= m < |t| ==> KeyLe(y, t[m])
    ensures forall k :: 0 <= k < |Insert(x, t)| ==> KeyLe(y, Insert(x, t)[k])
    decreases |t|
  {
    if |t| != 0 && KeyLe(t[0], x) {
      InsertLowerBound(y, x, t[1..]);
    }
  }

  lemma {:induction false} InsertSorted(x: BondRecord, t: seq<BondRecord>)
    requires SortedByKey(t)
    ensures SortedByKey(Insert(x, t))
    decreases |t|
  {
    if |t| == 0 {
    } else if KeyLe(t[0], x) {
      var t' := t[1..];
      InsertSorted(x, t');
      InsertLowerBound(t[0], x, t');
      var r := Insert(x, t');
      var out := [t[0]] + r;
      forall a, b | 0 <= a < b < |out|
        ensures KeyLe(out[a], out[b])
      {
        if a == 0 {
          assert out[b] == r[b - 1];
        } else {
          assert out[a] == r[a - 1] && out[b] == r[b - 1];
        }
      }
    } else {
      var out := [x] + t;
      forall a, b | 0 <= a < b < |out|
        ensures KeyLe(out[a], out[b])
      {
        if a == 0 {
          assert KeyLe(t[0], t[b - 1]);
        } else {
          assert out[a] == t[a - 1] && out[b] == t[b - 1];
        }
      }
    }
  }

  /** Python's `data.sort(key=...)` on the records. */
  function SortRecords(s: seq<BondRecord>): (r: seq<BondRecord>)
    ensures SortedByKey(r)
    ensures multiset(r) == multiset(s)
    ensures |r| == |s|
  {
    if |s| == 0 then []
    else
      var t := SortRecords(s[..|s| - 1]);
      InsertSorted(s[|s| - 1], t);
      InsertElements(s[|s| - 1], t);
      assert s == s[..|s| - 1] + [s[|s| - 1]];
      Insert(s[|s| - 1], t)
  }

  /** How many records later in `t` have a smaller symbol index than `v`. */
  function CountSmaller(t: seq<BondRecord>, v: int): nat
  {
    if |t| == 0 then 0 else (if v > t[0].symbolIdx then 1 else 0) + CountSmaller(t[1..], v)
  }

  /** The `outOfOrder` count: pairs `i < j` whose symbol indices are in
      decreasing order. */
  function Inversions(s: seq<BondRecord>): nat
  {
    if |s| == 0 then 0 else CountSmaller(s[1..], s[0].symbolIdx) + Inversions(s[1..])
  }

  /** A record `y` met before `x` ends up in the opposite order, with
      respect to symbol index, once sorted: either it stays first but has
      the larger index, or it moves after `x` and has the smaller one. */
  predicate Discordant(y: BondRecord, x: BondRecord)
  {
    (KeyLe(y, x) && y.symbolIdx > x.symbolIdx) || (!KeyLe(y, x) && x.symbolIdx > y.symbolIdx)
  }

  function CountDiscordant(t: seq<BondRecord>, x: BondRecord): nat
  {
    if |t| == 0 then 0 else Indicator(Discordant(t[0], x)) + CountDiscordant(t[1..], x)
  }

  /** The reference count without sorting: every pair of records, in the
      order they were recorded, that sorting puts out of symbol order. */
  function DiscordantPairs(s: seq<BondRecord>): nat
  {
    if |s| == 0 then 0
    else DiscordantPairs(s[..|s| - 1]) + CountDiscordant(s[..|s| - 1], s[|s| - 1])
  }

  lemma {:induction false} CountDiscordantInsert(y: BondRecord, t: seq<BondRecord>, x: BondRecord)
    ensures CountDiscordant(Insert(y, t), x) == CountDiscordant(t, x) + Indicator(Discordant(y, x))
    decreases |t|
  {
    if |t| == 0 {
    } else if KeyLe(t[0], y) {
      CountDiscordantInsert(y, t[1..], x);
      assert ([t[0]] + Insert(y, t[1..]))[1..] == Insert(y, t[1..]);
    } else {
      assert ([y] + t)[1..] == t;
    }
  }

  lemma {:induction false} CountDiscordantSort(s: seq<BondRecord>, x: BondRecord)
    ensures CountDiscordant(SortRecords(s), x) == CountDiscordant(s, x)
    decreases |s|
  {
    if |s| == 0 {
    } else {
      var p := s[..|s| - 1];
      CountDiscordantSort(p, x);
      CountDiscordantInsert(s[|s| - 1], SortRecords(p), x);
      CountDiscordantSnoc(p, s[|s| - 1], x);
      assert s == p + [s[|s| - 1]];
    }
  }

  lemma {:induction false} CountDiscordantSnoc(p: seq<BondRecord>, y: BondRecord, x: BondRecord)
    ensures CountDiscordant(p + [y], x) == CountDiscordant(p, x) + Indicator(Discordant(y, x))
    decreases |p|
  {
    if |p| == 0 {
      assert [y][1..] == [];
    } else {
      CountDiscordantSnoc(p[1..], y, x);
      assert (p + [y])[1..] == p[1..] + [y];
    }
  }

  lemma {:induction false} CountSmallerAllLater(t: seq<BondRecord>, x: BondRecord)
    requires forall k :: 0 <= k < |t| ==> !KeyLe(t[k], x)
    ensures CountSmaller(t, x.symbolIdx) == CountDiscordant(t, x)
    decreases |t|
  {
    if |t| != 0 {
      CountSmallerAllLater(t[1..], x);
    }
  }

  lemma {:induction false} CountSmallerInsert(y: BondRecord, t: seq<BondRecord>, v: int)
    ensures CountSmaller(Insert(y, t), v) == CountSmaller(t, v) + (if v > y.symbolIdx then 1 else 0)
    decreases |t|
  {
    if |t| == 0 {
    } else if KeyLe(t[0], y) {
      CountSmallerInsert(y, t[1..], v);
      assert ([t[0]] + Insert(y, t[1..]))[1..] == Insert(y, t[1..]);
    } else {
      assert ([y] + t)[1..] == t;
    }
  }

  /** Inserting `x` into a sorted list adds exactly the pairs `x` forms
      with the records already there that end up out of order. */
  lemma {:induction false} InversionsInsert(x: BondRecord, t: seq<BondRecord>)
    requires SortedByKey(t)
    ensures Inversions(Insert(x, t)) == Inversions(t) + CountDiscordant(t, x)
    decreases |t|
  {
    if |t| == 0 {
    } else if KeyLe(t[0], x) {
      var t' := t[1..];
      assert SortedByKey(t');
      InversionsInsert(x, t');
      var r := [t[0]] + Insert(x, t');
      assert r[1..] == Insert(x, t');
      CountSmallerInsert(x, t', t[0].symbolIdx);
    } else {
      var r := [x] + t;
      assert r[1..] == t;
      forall k | 0 <= k < |t|
        ensures !KeyLe(t[k], x)
      {
        if k > 0 {
          assert KeyLe(t[0], t[k]);
        }
      }
      CountSmallerAllLater(t, x);
    }
  }

  /** The parity `shouldInvertStereo` computes on the sorted records is the
      parity of the discordant pairs of the records as recorded. */
  lemma {:induction false} InversionsOfSorted(s: seq<BondRecord>)
    ensures Inversions(SortRecords(s)) == DiscordantPairs(s)
    decreases |s|
  {
    if |s| != 0 {
      var p := s[..|s| - 1];
      InversionsOfSorted(p);
      InversionsInsert(s[|s| - 1], SortRecords(p));
      CountDiscordantSort(p, s[|s| - 1]);
    }
  }

  /** `shouldInvertStereo`: sort the records (closings by position, then
      openings by their partner's position) and report whether the symbol
      indices then form an odd permutation. */
  function ShouldInvertStereo(bcinfo: seq<BondRecord>): (r: bool)
    ensures |bcinfo| <= 1 ==> !r
    ensures r <==> 1 < |bcinfo| && DiscordantPairs(bcinfo) % 2 == 1
  {
    InversionsOfSorted(bcinfo);
    if |bcinfo| <= 1 then false
    else Inversions(SortRecords(bcinfo)) % 2 == 1
  }

  /** The nested loop of `shouldInvertStereo` that counts the pairs of the
      sorted records whose symbol indices are out of order. */
  method CountOutOfOrder(data: seq<BondRecord>) returns (outOfOrder: nat)
    ensures outOfOrder == Inversions(data)
  {
    outOfOrder := 0;
    var i := 0;
    while i + 1 < |data|
      invariant 0 <= i <= |data|
      invariant i + 1 >= |data| ==> Inversions(data[i..]) == 0
      invariant outOfOrder + Inversions(data[i..]) == Inversions(data)
    {
      var j := i + 1;
      var row := 0;
      while j < |data|
        invariant i + 1 <= j <= |data|
        invariant row + CountSmaller(data[j..], data[i].symbolIdx) == CountSmaller(data[i + 1..], data[i].symbolIdx)
      {
        assert data[j..][1..] == data[j + 1..];
        if data[i].symbolIdx > data[j].symbolIdx {
          row := row + 1;
        }
        j := j + 1;
      }
      assert data[i..][1..] == data[i + 1..];
      outOfOrder := outOfOrder + row;
      i := i + 1;
    }
  }

  /** Doctests of `shouldInvertStereo`: two openings. (The records are
      parameters so that the solver does not unfold the sort on literal
      arguments.) */
  lemma ShouldInvertStereoExampleOpens(a: BondRecord, b: BondRecord)
    requires a == Open(7, 12) && b == Open(6, 17)
    ensures ShouldInvertStereo([a, b])
    ensures !ShouldInvertStereo([Open(7, 17), Open(6, 12)])
  {
    PairExample(a, b);
    PairExample(Open(7, 17), Open(6, 12));
  }

  /** Doctests of `shouldInvertStereo`: two closings, in either order. */
  lemma ShouldInvertStereoExampleCloses(a: BondRecord, b: BondRecord)
    requires a == Close(7, "6") && b == Close(6, "6")
    ensures !ShouldInvertStereo([a, b])
    ensures !ShouldInvertStereo([b, a])
  {
    PairExample(a, b);
    PairExample(b, a);
  }

  /** Doctests of `shouldInvertStereo`: an opening before one or two
      closings. */
  lemma ShouldInvertStereoExampleMixed(a: BondRecord, b: BondRecord, c: BondRecord)
    requires a == Open(5, 12) && b == Close(6, "6") && c == Close(7, "6")
    ensures ShouldInvertStereo([a, b])
    ensures !ShouldInvertStereo([a, b, c])
  {
    PairExample(a, b);
    TripleExample(a, b, c);
    assert Discordant(a, b) && Discordant(a, c) && !Discordant(b, c);
    assert DiscordantPairs([a, b, c]) == 2;
  }

  function Indicator(b: bool): nat
  {
    if b then 1 else 0
  }

  lemma TripleExample(a: BondRecord, b: BondRecord, c: BondRecord)
    ensures DiscordantPairs([a, b, c])
        == Indicator(Discordant(a, b)) + Indicator(Discordant(a, c)) + Indicator(Discordant(b, c))
  {
    var s := [a, b, c];
    var p := [a, b];
    assert s[..|s| - 1] == p;
    assert s[|s| - 1] == c;
    CountPairExample(a, b, c);
  }

  lemma {:induction false} CountPairExample(a: BondRecord, b: BondRecord, c: BondRecord)
    ensures CountDiscordant([a, b], c) == Indicator(Discordant(a, c)) + Indicator(Discordant(b, c))
    ensures DiscordantPairs([a, b]) == Indicator(Discordant(a, b))
  {
    var p := [a, b];
    assert p[1..] == [b];
    assert [b][1..] == [];
    assert CountDiscordant([b], c) == Indicator(Discordant(b, c));
    assert p[..1] == [a] && [a][..0] == [] && [a][1..] == [];
    assert DiscordantPairs([a]) == 0;
    assert CountDiscordant([a], b) == Indicator(Discordant(a, b));
  }

  lemma PairExample(a: BondRecord, b: BondRecord)
    ensures ShouldInvertStereo([a, b]) == Discordant(a, b)
  {
    var s := [a, b];
    assert s[..1] == [a];
    assert [a][..0] == [] && [a][1..] == [];
    assert DiscordantPairs([a]) == 0;
    assert CountDiscordant([a], b) == Indicator(Discordant(a, b));
    assert DiscordantPairs(s) == CountDiscordant([a], b);
  }
}
