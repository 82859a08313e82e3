/** Character and string helpers used across the model: ASCII classes and
    case folding, decimal rendering and reading, zero padding, splitting and
    joining on a separator, substring search, and Python's lexicographic
    string order. */
module Text {

  // ---------------------------------------------------------------------
  // Character classes
  // ---------------------------------------------------------------------

  predicate IsDigit(c: char) { '0' <= c <= '9' }

  predicate IsAsciiLetter(c: char) { ('a' <= c <= 'z') || ('A' <= c <= 'Z') }

  predicate IsAlnum(c: char) { IsAsciiLetter(c) || IsDigit(c) }

  predicate AllDigits(s: string) { forall i :: 0 <= i < |s| ==> IsDigit(s[i]) }

  lemma AllDigitsConcat(a: string, b: string)
    requires AllDigits(a) && AllDigits(b)
    ensures AllDigits(a + b)
  {
    forall i | 0 <= i < |a + b| ensures IsDigit((a + b)[i]) {
      if i >= |a| { assert (a + b)[i] == b[i - |a|]; }
    }
  }

  function DigitChar(d: nat): (c: char)
    requires d < 10
    ensures IsDigit(c)
  {
    (48 + d) as char
  }

  function DigitValue(c: char): (d: nat)
    requires IsDigit(c)
    ensures d < 10 && DigitChar(d) == c
  {
    (c as int - 48)
  }

  /** ASCII lower-casing of one character (the model of `str.lower()`). */
  function LowerChar(c: char): char {
    if 'A' <= c <= 'Z' then (c as int + 32) as char else c
  }

  function ToLower(s: string): string {
    seq(|s|, i requires 0 <= i < |s| => LowerChar(s[i]))
  }

  // ---------------------------------------------------------------------
  // Decimal numbers
  // ---------------------------------------------------------------------

  /** Python's `str(n)` for a non-negative integer. */
  function NatToString(n: nat): (s: string)
    ensures |s| >= 1 && AllDigits(s)
    ensures s[0] == '0' ==> n == 0 && |s| == 1
  {
    if n < 10 then [DigitChar(n)]
    else
      var p := NatToString(n / 10);
      p + [DigitChar(n % 10)]
  }

  /** Python's `str(i)` for any integer. */
  function IntToString(i: int): string {
    if i < 0 then "-" + NatToString(-i) else NatToString(i)
  }

  /** The number a string of decimal digits denotes. */
  function DigitsValue(s: string): nat
    requires AllDigits(s)
  {
    if s == [] then 0 else DigitsValue(s[..|s| - 1]) * 10 + DigitValue(s[|s| - 1])
  }

  lemma {:induction false} DigitsValueOfNatToString(n: nat)
    ensures DigitsValue(NatToString(n)) == n
  {
    if n >= 10 {
      var p := NatToString(n / 10);
      var s := p + [DigitChar(n % 10)];
      assert s[..|s| - 1] == p;
      DigitsValueOfNatToString(n / 10);
    }
  }

  /** Length of the longest all-digit prefix of `s`. */
  function DigitRun(s: string): (k: nat)
    ensures k <= |s| && AllDigits(s[..k])
    ensures k < |s| ==> !IsDigit(s[k])
  {
    if s != [] && IsDigit(s[0]) then
      var k := 1 + DigitRun(s[1..]);
      assert s[..k] == [s[0]] + s[1..][..k - 1];
      k
    else 0
  }

  lemma {:induction false} DigitRunOfDigits(ds: string, rest: string)
    requires AllDigits(ds)
    requires rest == [] || !IsDigit(rest[0])
    ensures DigitRun(ds + rest) == |ds|
  {
    if ds != [] {
      assert (ds + rest)[1..] == ds[1..] + rest;
      DigitRunOfDigits(ds[1..], rest);
    } else {
      assert ds + rest == rest;
    }
  }

  // ---------------------------------------------------------------------
  // Zero padding (strftime's %Y, %m, %d, %H, %M, %S)
  // ---------------------------------------------------------------------

  function Pow10(w: nat): (p: nat)
    ensures p >= 1
  {
    if w == 0 then 1 else 10 * Pow10(w - 1)
  }

  /** The last `w` decimal digits of `n`, zero padded on the left. */
  function Pad(n: nat, w: nat): (s: string)
    ensures |s| == w && AllDigits(s)
  {
    if w == 0 then [] else Pad(n / 10, w - 1) + [DigitChar(n % 10)]
  }

  /** A padded numeral reads back as the number it was made from. */
  lemma {:induction false} DigitsValueOfPad(n: nat, w: nat)
    requires n < Pow10(w)
    ensures DigitsValue(Pad(n, w)) == n
  {
    if w > 0 {
      var s := Pad(n, w);
      assert s[..|s| - 1] == Pad(n / 10, w - 1);
      DivTen(n, Pow10(w - 1));
      DigitsValueOfPad(n / 10, w - 1);
      assert DigitValue(DigitChar(n % 10)) == n % 10;
    }
  }

  /** Dropping the last decimal digit. */
  lemma DivTen(n: nat, p: nat)
    requires n < 10 * p
    ensures n / 10 < p && n == n / 10 * 10 + n % 10
  {
  }

  // ---------------------------------------------------------------------
  // Python's string order (code point by code point)
  // ---------------------------------------------------------------------

  /** `a < b` on Python strings: the first differing character decides, and a
      proper prefix is smaller. */
  predicate LexLess(a: string, b: string) {
    if a == [] then b != []
    else if b == [] then false
    else if a[0] != b[0] then a[0] < b[0]
    else LexLess(a[1..], b[1..])
  }

  lemma {:induction false} LexLessIrreflexive(a: string)
    ensures !LexLess(a, a)
  {
    if a != [] {
      LexLessIrreflexive(a[1..]);
    }
  }

  lemma {:induction false} LexLessAsymmetric(a: string, b: string)
    ensures LexLess(a, b) ==> !LexLess(b, a)
  {
    if a != [] && b != [] && a[0] == b[0] {
      LexLessAsymmetric(a[1..], b[1..]);
    }
  }

  /** A common prefix does not change the order. */
  lemma {:induction false} LexLessCommonPrefix(p: string, a: string, b: string)
    ensures LexLess(p + a, p + b) <==> LexLess(a, b)
  {
    if p != [] {
      assert (p + a)[1..] == p[1..] + a;
      assert (p + b)[1..] == p[1..] + b;
      LexLessCommonPrefix(p[1..], a, b);
    } else {
      assert p + a == a && p + b == b;
    }
  }

  /** Between equally long prefixes, the prefixes decide. */
  lemma {:induction false} LexLessDecidedByPrefix(a: string, b: string, x: string, y: string)
    requires |a| == |b| && LexLess(a, b)
    ensures LexLess(a + x, b + y)
  {
    if a[0] == b[0] {
      assert (a + x)[1..] == a[1..] + x;
      assert (b + y)[1..] == b[1..] + y;
      LexLessDecidedByPrefix(a[1..], b[1..], x, y);
    }
  }

  /** Fixed-width zero-padded numerals sort like the numbers. */
  lemma {:induction false} PadOrder(n: nat, m: nat, w: nat)
    requires n < m < Pow10(w)
    ensures LexLess(Pad(n, w), Pad(m, w))
  {
    var pn, pm := Pad(n / 10, w - 1), Pad(m / 10, w - 1);
    if n / 10 < m / 10 {
      PadOrder(n / 10, m / 10, w - 1);
      LexLessDecidedByPrefix(pn, pm, [DigitChar(n % 10)], [DigitChar(m % 10)]);
    } else {
      assert n / 10 == m / 10 && n % 10 < m % 10;
      LexLessCommonPrefix(pn, [DigitChar(n % 10)], [DigitChar(m % 10)]);
    }
  }

  /** One fixed-width field compared in front of arbitrary tails. */
  lemma PadFieldStep(n1: nat, n2: nat, w: nat, r1: string, r2: string)
    requires n1 < Pow10(w) && n2 < Pow10(w)
    ensures n1 < n2 ==> LexLess(Pad(n1, w) + r1, Pad(n2, w) + r2)
    ensures n1 > n2 ==> !LexLess(Pad(n1, w) + r1, Pad(n2, w) + r2)
    ensures n1 == n2 ==> (LexLess(Pad(n1, w) + r1, Pad(n2, w) + r2) <==> LexLess(r1, r2))
  {
    if n1 < n2 {
      PadOrder(n1, n2, w);
      LexLessDecidedByPrefix(Pad(n1, w), Pad(n2, w), r1, r2);
    } else if n1 > n2 {
      PadOrder(n2, n1, w);
      LexLessDecidedByPrefix(Pad(n2, w), Pad(n1, w), r2, r1);
      LexLessAsymmetric(Pad(n2, w) + r2, Pad(n1, w) + r1);
    } else {
      LexLessCommonPrefix(Pad(n1, w), r1, r2);
    }
  }

  // ---------------------------------------------------------------------
  // Prefixes, substrings, splitting and joining
  // ---------------------------------------------------------------------

  predicate StartsWith(s: string, prefix: string) {
    |prefix| <= |s| && s[..|prefix|] == prefix
  }

  /** Python's `sub in s`. */
  predicate Contains(s: string, sub: string)
    decreases |s|
  {
    StartsWith(s, sub) || (s != [] && Contains(s[1..], sub))
  }

  /** A string contains every piece it was assembled from. */
  lemma {:induction false} ContainsInfix(p: string, x: string, q: string)
    ensures Contains(p + x + q, x)
  {
    if p == [] {
      assert p + x + q == x + q && (x + q)[..|x|] == x;
    } else {
      assert (p + x + q)[1..] == p[1..] + x + q;
      ContainsInfix(p[1..], x, q);
    }
  }

  /** Python's `s.split(sep)` for a one-character separator: never empty. */
  function Split(s: string, sep: char): (parts: seq<string>)
    ensures |parts| >= 1
    ensures forall i :: 0 <= i < |parts| ==> sep !in parts[i]
  {
    if s == [] then [""]
    else
      var tail := Split(s[1..], sep);
      if s[0] == sep then [""] + tail
      else [[s[0]] + tail[0]] + tail[1..]
  }

  /** Python's `sep.join(parts)`. */
  function Join(parts: seq<string>, sep: string): string {
    if parts == [] then ""
    else if |parts| == 1 then parts[0]
    else parts[0] + sep + Join(parts[1..], sep)
  }

  /** Splitting and re-joining gives the original string back. */
  lemma {:induction false} JoinSplit(s: string, sep: char)
    ensures Join(Split(s, sep), [sep]) == s
  {
    if s != [] {
      var tail := Split(s[1..], sep);
      JoinSplit(s[1..], sep);
      if s[0] == sep {
        assert Split(s, sep) == [""] + tail;
        assert (([""] + tail)[1..]) == tail;
      } else {
        var parts := Split(s, sep);
        assert parts == [[s[0]] + tail[0]] + tail[1..];
        if |tail| == 1 {
          assert parts == [[s[0]] + tail[0]];
        } else {
          assert parts[1..] == tail[1..];
          assert Join(tail, [sep]) == tail[0] + [sep] + Join(tail[1..], [sep]);
        }
      }
    }
  }

  /** The number of pieces is one more than the number of separators. */
  lemma {:induction false} SplitCount(s: string, sep: char)
    ensures |Split(s, sep)| == multiset(s)[sep] + 1
  {
    if s != [] {
      SplitCount(s[1..], sep);
      assert s == [s[0]] + s[1..];
      assert multiset(s) == multiset([s[0]]) + multiset(s[1..]);
    }
  }
  lemma {:induction false} SplitNoSep(p: string, sep: char)
    requires sep !in p
    ensures Split(p, sep) == [p]
  {
    if p != [] {
      SplitNoSep(p[1..], sep);
      assert [p[0]] + p[1..] == p;
    }
  }

  lemma {:induction false} SplitAfterSep(p: string, r: string, sep: char)
    requires sep !in p
    ensures Split(p + [sep] + r, sep) == [p] + Split(r, sep)
  {
    var s := p + [sep] + r;
    if p == [] {
      assert s == [sep] + r && s[1..] == r;
    } else {
      assert s[0] == p[0] && s[1..] == p[1..] + [sep] + r;
      SplitAfterSep(p[1..], r, sep);
      assert [p[0]] + p[1..] == p;
    }
  }

  /** Joining separator-free pieces and splitting again gives the pieces. */
  lemma {:induction false} SplitJoin(parts: seq<string>, sep: char)
    requires |parts| >= 1
    requires forall i :: 0 <= i < |parts| ==> sep !in parts[i]
    ensures Split(Join(parts, [sep]), sep) == parts
  {
    if |parts| == 1 {
      SplitNoSep(parts[0], sep);
    } else {
      SplitJoin(parts[1..], sep);
      SplitAfterSep(parts[0], Join(parts[1..], [sep]), sep);
      assert [parts[0]] + parts[1..] == parts;
    }
  }
}
