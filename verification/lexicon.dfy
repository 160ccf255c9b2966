/** Character classes, decimal numerals and the Python string primitives
    (`s[a:b]`, `str.find`, `str(n)`, `int(s)`) that the encoder and both
    decoders share. */
module Lexicon {

  datatype Option<+T> = None | Some(value: T)

  /** The bond characters both scanners skip and glue onto the next atom
      or ring symbol: `- = # $ : / \`. */
  const BondChars: string := "-=#$:\\/"

  predicate IsBondChar(c: char) {
    c in BondChars
  }

  /** `str.isdigit`, restricted to the ASCII digits. */
  predicate IsDigit(c: char) {
    '0' <= c <= '9'
  }

  /** `is_ring_symbol`: a digit or the percent sign that starts a two-digit
      or parenthesised ring number. */
  predicate IsRingSymbol(c: char) {
    IsDigit(c) || c == '%'
  }

  predicate AllDigits(s: string) {
    forall k :: 0 <= k < |s| ==> IsDigit(s[k])
  }

  function DigitValue(c: char): nat
    requires IsDigit(c)
  {
    (c as int) - ('0' as int)
  }

  function DigitChar(d: nat): (c: char)
    requires d < 10
    ensures IsDigit(c) && DigitValue(c) == d
  {
    ((d + ('0' as int)) as char)
  }

  /** The number a string of decimal digits denotes, most significant first. */
  function DecimalValue(s: string): nat
    requires AllDigits(s)
  {
    if |s| == 0 then 0 else DecimalValue(s[..|s| - 1]) * 10 + DigitValue(s[|s| - 1])
  }

  /** Python's `str(n)` for a non-negative integer: the shortest decimal
      numeral, which reads back as `n`. */
  function NatToDecimal(n: nat): (s: string)
    ensures 1 <= |s| && AllDigits(s)
    ensures DecimalValue(s) == n
    ensures |s| == 1 <==> n < 10
    ensures |s| == 2 <==> 10 <= n < 100
    ensures 1 < |s| ==> s[0] != '0'
  {
    if n < 10 then [DigitChar(n)]
    else
      var prefix := NatToDecimal(n / 10);
      var s := prefix + [DigitChar(n % 10)];
      assert s[..|s| - 1] == prefix;
      s
  }

  /** Python's `"%d" % n`: a minus sign before the magnitude when negative. */
  function IntToDecimal(n: int): (s: string)
    ensures 0 <= n ==> s == NatToDecimal(n)
    ensures n < 0 ==> |s| >= 2 && s[0] == '-' && AllDigits(s[1..]) && DecimalValue(s[1..]) == -n
  {
    if n < 0 then "-" + NatToDecimal(-n) else NatToDecimal(n)
  }

  /** Python's `int(s)` on decimal digits only: `None` where it raises
      `ValueError`. */
  function ParseDecimal(s: string): (r: Option<nat>)
    ensures r.Some? <==> 0 < |s| && AllDigits(s)
    ensures r.Some? ==> r.value == DecimalValue(s)
  {
    if 0 < |s| && AllDigits(s) then Some(DecimalValue(s)) else None
  }

  /** `int(s[a:a+2])` succeeds: a digit at `a`, and another after it
      unless `a` is the last position. */
  predicate DigitPairAt(s: string, a: nat)
  {
    a < |s| && IsDigit(s[a]) && (a + 1 == |s| || IsDigit(s[a + 1]))
  }

  lemma ParseDigitPair(s: string, a: nat)
    ensures ParseDecimal(Slice(s, a, a + 2)).Some? <==> DigitPairAt(s, a)
  {
    var t := Slice(s, a, a + 2);
    if a < |s| {
      assert t[0] == s[a];
      if a + 1 < |s| {
        assert t == [s[a], s[a + 1]];
      } else {
        assert t == [s[a]];
      }
    }
  }

  /** The three-tier ring-number format both directions write: a bare
      numeral below 10, `%NN` below 100 and `%(N)` from 100 on. */
  function FormatRingNumber(n: int): (r: string)
    ensures 0 <= n < 10 ==> |r| == 1 && IsDigit(r[0]) && DigitValue(r[0]) == n
    ensures n < 0 ==> 2 <= |r| && r[0] == '-'
    ensures 10 <= n < 100 ==> |r| == 3 && r[0] == '%' && AllDigits(r[1..]) && DecimalValue(r[1..]) == n
    ensures 100 <= n ==> 5 < |r| && r[..2] == "%(" && r[|r| - 1] == ')'
                         && ParseDecimal(r[2..|r| - 1]) == Some(n)
  {
    if n < 10 then IntToDecimal(n)
    else if n < 100 then
      var r := "%" + NatToDecimal(n);
      assert r[1..] == NatToDecimal(n);
      r
    else
      var digits := NatToDecimal(n);
      var r := "%(" + digits + ")";
      assert r[2..|r| - 1] == digits;
      r
  }

  /** Python's slice `s[a:b]` for non-negative bounds, which are clamped to
      the string. */
  function Slice(s: string, a: nat, b: nat): (r: string)
    ensures a <= b <= |s| ==> r == s[a..b]
    ensures |s| <= a || b <= a ==> r == ""
    ensures a <= |s| <= b ==> r == s[a..]
  {
    var lo := if a < |s| then a else |s|;
    var hi := if b < |s| then b else |s|;
    if hi <= lo then "" else s[lo..hi]
  }

  /** Python's `s.find(c, start)`: the first position at or after `start`
      holding `c`, or -1. */
  function Find(s: string, c: char, start: nat): (r: int)
    ensures -1 <= r < |s|
    ensures r == -1 <==> forall k :: start <= k < |s| ==> s[k] != c
    ensures r != -1 ==> start <= r && s[r] == c && forall k :: start <= k < r ==> s[k] != c
    decreases |s| - start
  {
    if |s| <= start then -1
    else if s[start] == c then start
    else Find(s, c, start + 1)
  }

  /** The bond character right before position `i`, glued onto the atom or
      ring symbol at `i`: `s[i-1] if i > 0 and s[i-1] in bondchars else ""`. */
  function PrevBond(s: string, i: nat): (r: string)
    requires i <= |s|
    ensures |r| <= 1
    ensures |r| == 1 <==> 0 < i && IsBondChar(s[i - 1])
    ensures |r| == 1 ==> r[0] == s[i - 1]
  {
    if 0 < i && IsBondChar(s[i - 1]) then [s[i - 1]] else ""
  }

  /** The two-letter organic-subset atoms `Cl` and `Br` start at `i`. */
  predicate TwoLetterAtom(s: string, i: nat)
  {
    i + 1 < |s| && ((s[i] == 'C' && s[i + 1] == 'l') || (s[i] == 'B' && s[i + 1] == 'r'))
  }

  /** An organic-subset atom written as one letter that can never start
      `Cl` or `Br` with the letter after it, carry a stereo mark or be
      mistaken for a bond, ring or branch character: an upper-case letter
      or one of the aromatic `b c n o p s`. */
  predicate PlainAtom(c: char)
  {
    'A' <= c <= 'Z' || c == 'b' || c == 'c' || c == 'n' || c == 'o' || c == 'p' || c == 's'
  }

  lemma PlainAtomClass(c: char)
    requires PlainAtom(c)
    ensures !IsBondChar(c) && !IsRingSymbol(c)
    ensures c != '(' && c != ')' && c != '[' && c != '@' && c != 'l' && c != 'r'
  {
    assert BondChars == ['-', '=', '#', '$', ':', '\\', '/'];
  }

  lemma RingSymbolClass(c: char)
    requires IsRingSymbol(c)
    ensures !IsBondChar(c) && c != '(' && c != ')'
  {
    assert BondChars == ['-', '=', '#', '$', ':', '\\', '/'];
  }

  /** A string of plain atoms only. */
  predicate PlainChain(w: string)
  {
    forall k :: 0 <= k < |w| ==> PlainAtom(w[k])
  }

  /** Each character of `s` as a one-character piece. */
  function Singles(s: string): (r: seq<string>)
    ensures |r| == |s|
    ensures forall k :: 0 <= k < |s| ==> r[k] == [s[k]]
  {
    seq(|s|, k requires 0 <= k < |s| => [s[k]])
  }

  lemma {:induction false} JoinSingles(s: string)
    ensures Join(Singles(s)) == s
    decreases |s|
  {
    if 0 < |s| {
      var init := s[..|s| - 1];
      assert Singles(s)[..|s| - 1] == Singles(init);
      JoinSingles(init);
      assert s == init + [s[|s| - 1]];
    }
  }

  /** Python's `c * n`. */
  function Repeat(c: char, n: nat): (r: string)
    ensures |r| == n
    ensures forall k :: 0 <= k < n ==> r[k] == c
  {
    if n == 0 then "" else Repeat(c, n - 1) + [c]
  }

  /** Python's `"".join(parts)`. */
  function Join(parts: seq<string>): string
  {
    if |parts| == 0 then "" else Join(parts[..|parts| - 1]) + parts[|parts| - 1]
  }

  /** Joining a slice is joining it without its last part, then that part. */
  lemma JoinSlice(parts: seq<string>, x: nat, y: nat)
    requires x < y <= |parts|
    ensures Join(parts[x..y]) == Join(parts[x..y - 1]) + parts[y - 1]
  {
    assert parts[x..y][..y - 1 - x] == parts[x..y - 1];
  }

  /** The same, with the last part's position `y` named. */
  lemma JoinLast(parts: seq<string>, x: nat, y: nat, n: nat)
    requires x <= y && y + 1 == n && n <= |parts|
    ensures Join(parts[x..n]) == Join(parts[x..y]) + parts[y]
  {
    JoinSlice(parts, x, n);
  }

  lemma {:induction false} JoinAppend(a: seq<string>, b: seq<string>)
    ensures Join(a + b) == Join(a) + Join(b)
    decreases |b|
  {
    if |b| == 0 {
      assert a + b == a;
    } else {
      var b' := b[..|b| - 1];
      assert (a + b)[..|a + b| - 1] == a + b';
      JoinAppend(a, b');
    }
  }

  /** Appending `c` to one piece inserts it into the joined text right
      after that piece. */
  lemma JoinUpdate(parts: seq<string>, j: nat, c: string)
    requires j < |parts|
    ensures Join(parts[j := parts[j] + c]) == Join(parts[..j + 1]) + c + Join(parts[j + 1..])
  {
    var marked := parts[j := parts[j] + c];
    assert marked == parts[..j] + [parts[j] + c] + parts[j + 1..];
    JoinAppend(parts[..j] + [parts[j] + c], parts[j + 1..]);
    JoinAppend(parts[..j], [parts[j] + c]);
    assert parts[..j + 1] == parts[..j] + [parts[j]];
    JoinAppend(parts[..j], [parts[j]]);
    assert Join([parts[j] + c]) == parts[j] + c;
    assert Join([parts[j]]) == parts[j];
  }

  /** The characters of `w` as pieces, with `c` appended to piece `j`,
      join to `w` with `c` inserted after position `j`. */
  lemma JoinSinglesMark(w: string, j: nat, c: string)
    requires j < |w|
    ensures Join(Singles(w)[j := [w[j]] + c]) == w[..j + 1] + c + w[j + 1..]
  {
    JoinUpdate(Singles(w), j, c);
    assert Singles(w)[..j + 1] == Singles(w[..j + 1]);
    assert Singles(w)[j + 1..] == Singles(w[j + 1..]);
    JoinSingles(w[..j + 1]);
    JoinSingles(w[j + 1..]);
  }

  /** Concatenation is associative. */
  lemma AppendAssoc<T>(a: seq<T>, b: seq<T>, c: seq<T>)
    ensures a + b + c == a + (b + c)
  {
  }

  /** The empty text is a left unit of concatenation. */
  lemma EmptyPrefix(x: string)
    ensures "" + x == x
  {
  }

}
