/** Positional numerals: what the digit loops of both printf engines compute. */
module Numerals {
  import opened CTypes

  const LOWER: string := "0123456789abcdef"
  const UPPER: string := "0123456789ABCDEF"

  function Digit(d: nat, upper: bool): char
    requires d < 16
  {
    if upper then UPPER[d] else LOWER[d]
  }

  /** The value of a digit of either case. */
  function HexValue(c: char): int {
    if '0' <= c <= '9' then c as int - '0' as int
    else if 'a' <= c <= 'f' then c as int - 'a' as int + 10
    else if 'A' <= c <= 'F' then c as int - 'A' as int + 10
    else -1
  }

  lemma DigitHasValue(d: nat, upper: bool)
    requires d < 16
    ensures HexValue(Digit(d, upper)) == d
    ensures d < 10 ==> Digit(d, upper) == '0' + d as char
    ensures Digit(d, upper) == '0' <==> d == 0
    ensures Digit(d, upper) != ' ' && Digit(d, upper) != '-' && Digit(d, upper) != '\0'
  {
    if d == 0 {} else if d == 1 {} else if d == 2 {} else if d == 3 {} else if d == 4 {} else if d == 5 {}
    else if d == 6 {} else if d == 7 {} else if d == 8 {} else if d == 9 {} else if d == 10 {} else if d == 11 {}
    else if d == 12 {} else if d == 13 {} else if d == 14 {} else {}
  }

  type Base = b: nat | b == 10 || b == 16 witness 10

  // The two bases are spelled out, which keeps the arithmetic linear.

  function Times(base: Base, v: int): int {
    if base == 10 then 10 * v else 16 * v
  }

  function Quotient(v: nat, base: Base): (q: nat)
    ensures v > 0 ==> q < v
  {
    if base == 10 then v / 10 else v / 16
  }

  function Remainder(v: nat, base: Base): (r: nat)
    ensures r < base && v == Times(base, Quotient(v, base)) + r
  {
    if base == 10 then v % 10 else v % 16
  }

  /** The numeral of v. */
  function Numeral(v: nat, base: Base, upper: bool): (s: seq<char>)
    ensures |s| >= 1
  {
    if v < base then [Digit(v, upper)]
    else Numeral(Quotient(v, base), base, upper) + [Digit(Remainder(v, base), upper)]
  }

  /** The value of a digit string. */
  function Value(s: seq<char>, base: Base): int {
    if s == [] then 0 else Times(base, Value(s[..|s| - 1], base)) + HexValue(s[|s| - 1])
  }

  ghost predicate DigitOf(c: char, base: Base, upper: bool) {
    0 <= HexValue(c) < base && c == Digit(HexValue(c), upper)
  }

  ghost predicate DigitString(s: seq<char>, base: Base, upper: bool) {
    |s| > 0 && forall i :: 0 <= i < |s| ==> DigitOf(s[i], base, upper)
  }

  /** Digits only, and no leading zero. */
  ghost predicate Canonical(s: seq<char>, base: Base, upper: bool) {
    DigitString(s, base, upper) && (s[0] == '0' ==> |s| == 1)
  }

  lemma ValueSnoc(t: seq<char>, c: char, base: Base)
    ensures Value(t + [c], base) == Times(base, Value(t, base)) + HexValue(c)
  {
    assert (t + [c])[..|t|] == t;
  }

  /** A numeral denotes its number, in digits, without a leading zero. */
  lemma {:induction false} NumeralDenotes(v: nat, base: Base, upper: bool)
    ensures var s := Numeral(v, base, upper);
      Canonical(s, base, upper) && Value(s, base) == v && (v > 0 ==> s[0] != '0')
  {
    if v < base {
      OneDigit(v, base, upper);
    } else {
      NumeralDenotes(Quotient(v, base), base, upper);
      OneDigit(Remainder(v, base), base, upper);
      ValueSnoc(Numeral(Quotient(v, base), base, upper), Digit(Remainder(v, base), upper), base);
    }
  }

  lemma OneDigit(d: nat, base: Base, upper: bool)
    requires d < base
    ensures DigitOf(Digit(d, upper), base, upper) && HexValue(Digit(d, upper)) == d
    ensures Value([Digit(d, upper)], base) == d
    ensures Digit(d, upper) == '0' <==> d == 0
  {
    DigitHasValue(d, upper);
    assert [Digit(d, upper)][..0] == [];
  }

  lemma NumeralSnoc(q: nat, d: nat, base: Base, upper: bool)
    requires d < base
    ensures Times(base, q) + d >= 0
    ensures q > 0 ==> Times(base, q) + d > 0
    ensures Numeral(Times(base, q) + d, base, upper) ==
      if q == 0 then [Digit(d, upper)] else Numeral(q, base, upper) + [Digit(d, upper)]
  {
    assert Quotient(Times(base, q) + d, base) == q && Remainder(Times(base, q) + d, base) == d;
  }

  /** s is the numeral of its value, and that value is zero for "0" alone. */
  ghost predicate NumeralOfValue(s: seq<char>, base: Base, upper: bool) {
    var v := Value(s, base);
    v >= 0 && Numeral(v, base, upper) == s && (v == 0 ==> s == ['0'])
  }

  /** It is the only such digit string. */
  lemma {:induction false} NumeralUnique(s: seq<char>, base: Base, upper: bool)
    requires Canonical(s, base, upper)
    ensures NumeralOfValue(s, base, upper)
  {
    var t, c := s[..|s| - 1], s[|s| - 1];
    assert s == t + [c];
    assert DigitOf(c, base, upper);
    if |s| > 1 {
      NumeralUnique(t, base, upper);
      assert t != ['0'];
      UniqueSnoc(t, c, base, upper);
    } else {
      UniqueDigit(c, base, upper);
    }
  }

  lemma UniqueDigit(c: char, base: Base, upper: bool)
    requires DigitOf(c, base, upper)
    ensures NumeralOfValue([c], base, upper)
  {
    assert [c][..0] == [];
    DigitHasValue(HexValue(c), upper);
  }

  lemma UniqueSnoc(t: seq<char>, c: char, base: Base, upper: bool)
    requires NumeralOfValue(t, base, upper) && t != ['0'] && DigitOf(c, base, upper)
    ensures NumeralOfValue(t + [c], base, upper)
  {
    ValueSnoc(t, c, base);
    NumeralSnoc(Value(t, base), HexValue(c), base, upper);
    hide Numeral, Value, Times, Digit, HexValue;
  }

  function Power(base: Base, n: nat): nat {
    if n == 0 then 1 else Times(base, Power(base, n - 1))
  }

  lemma {:induction false} NumeralShort(v: nat, base: Base, upper: bool, n: nat)
    requires n >= 1 && v < Power(base, n)
    ensures |Numeral(v, base, upper)| <= n
  {
    if v >= base {
      assert n > 1 by { assert Power(base, 0) == 1; }
      assert Times(base, Quotient(v, base)) <= v;
      NumeralShort(Quotient(v, base), base, upper, n - 1);
    }
  }

  /** 64-bit numbers take at most 20 decimal digits and at most 16 hexadecimal ones. */
  lemma NumeralFits(v: UInt64, upper: bool)
    ensures |Numeral(v, 10, upper)| <= 20
    ensures |Numeral(v, 16, upper)| <= 16
  {
    PowersAt(10, 20);
    PowersAt(16, 16);
    NumeralShort(v, 10, upper, 20);
    NumeralShort(v, 16, upper, 16);
  }

  lemma PowersAt(base: Base, n: nat)
    ensures base == 10 && n == 20 ==> Power(base, n) == 100000000000000000000
    ensures base == 16 && n == 16 ==> Power(base, n) == 0x1_0000_0000_0000_0000
  {
    if base == 10 {
      assert Power(10, 2) == 100;
      assert Power(10, 4) == 10000;
      assert Power(10, 6) == 1000000;
      assert Power(10, 8) == 100000000;
      assert Power(10, 10) == 10000000000;
      assert Power(10, 12) == 1000000000000;
      assert Power(10, 14) == 100000000000000;
      assert Power(10, 16) == 10000000000000000;
      assert Power(10, 18) == 1000000000000000000;
    } else {
      assert Power(16, 2) == 0x100;
      assert Power(16, 4) == 0x1_0000;
      assert Power(16, 6) == 0x100_0000;
      assert Power(16, 8) == 0x1_0000_0000;
      assert Power(16, 10) == 0x100_0000_0000;
      assert Power(16, 12) == 0x1_0000_0000_0000;
      assert Power(16, 14) == 0x100_0000_0000_0000;
    }
  }

  /** A buffer read backwards, as both engines write out their digits. */
  function Reversed(s: seq<char>): seq<char> {
    if s == [] then [] else [s[|s| - 1]] + Reversed(s[..|s| - 1])
  }

  /** The digits of v, none for zero: what the digit loop has still to produce. */
  function Digits(v: nat, base: Base, upper: bool): seq<char> {
    if v == 0 then [] else Numeral(v, base, upper)
  }

  lemma NoDigits(base: Base, upper: bool)
    ensures Digits(0, base, upper) == []
    ensures Numeral(0, base, upper) == ['0']
  {
    DigitHasValue(0, upper);
  }

  lemma DigitsStep(v: nat, base: Base, upper: bool)
    requires v > 0
    ensures Digits(v, base, upper) == Digits(Quotient(v, base), base, upper) + [Digit(Remainder(v, base), upper)]
  {
  }

  lemma DigitsFit(v: UInt64, base: Base, upper: bool)
    ensures |Digits(v, base, upper)| <= 20
  {
    NumeralFits(v, upper);
  }

  lemma RoomForOne(v: nat, base: Base, upper: bool, done: seq<char>)
    requires v > 0
    ensures |done| < |Digits(v, base, upper) + Reversed(done)|
  {
    ReversedLength(done);
  }

  lemma LoopStep(whole: seq<char>, v: nat, base: Base, upper: bool, done: seq<char>)
    requires v > 0 && whole == Digits(v, base, upper) + Reversed(done)
    ensures whole ==
      Digits(Quotient(v, base), base, upper) + Reversed(done + [Digit(Remainder(v, base), upper)])
  {
    var d, rest := Digit(Remainder(v, base), upper), Digits(Quotient(v, base), base, upper);
    DigitsStep(v, base, upper);
    ReversedSnoc(done, d);
    ReversedLength(done);
    assert (rest + [d]) + Reversed(done) == rest + ([d] + Reversed(done));
  }

  /** The digit loop: least significant digit first. */
  method DigitLoop(tmp: array<char>, v0: nat, base: Base, upper: bool) returns (i: nat)
    requires |Digits(v0, base, upper)| <= tmp.Length
    modifies tmp
    ensures i <= tmp.Length && Reversed(tmp[..i]) == Digits(v0, base, upper)
  {
    ghost var whole := Digits(v0, base, upper);
    var v := v0;
    i := 0;
    ReversedLength(tmp[..i]);
    NoDigits(base, upper);
    while v != 0
      invariant i <= tmp.Length
      invariant whole == Digits(v, base, upper) + Reversed(tmp[..i])
      decreases v
    {
      ghost var before := tmp[..i];
      RoomForOne(v, base, upper, before);
      LoopStep(whole, v, base, upper, before);
      tmp[i] := Digit(Remainder(v, base), upper);
      i := i + 1;
      assert tmp[..i] == before + [Digit(Remainder(v, base), upper)];
      v := Quotient(v, base);
    }
  }

  /** The digits of v0, backwards, in tmp[..i]. */
  method FillDigits(tmp: array<char>, v0: UInt64, base: Base, upper: bool) returns (i: nat)
    requires tmp.Length == 24
    modifies tmp
    ensures i == |Numeral(v0, base, upper)| <= (if base == 10 then 20 else 16)
    ensures Reversed(tmp[..i]) == Numeral(v0, base, upper)
  {
    NumeralFits(v0, upper);
    if v0 == 0 {
      tmp[0] := '0';
      i := 1;
      NoDigits(base, upper);
      assert tmp[..1] == ['0'];
    } else {
      DigitsFit(v0, base, upper);
      i := DigitLoop(tmp, v0, base, upper);
      ReversedLength(tmp[..i]);
    }
  }

  lemma ReversedSnoc(s: seq<char>, c: char)
    ensures Reversed(s + [c]) == [c] + Reversed(s)
    ensures Reversed([]) == []
  {
    assert (s + [c])[..|s|] == s;
  }

  lemma {:induction false} ReversedLength(s: seq<char>)
    ensures |Reversed(s)| == |s|
    ensures forall i :: 0 <= i < |s| ==> Reversed(s)[i] == s[|s| - 1 - i]
  {
    if s != [] {
      ReversedLength(s[..|s| - 1]);
    }
  }
}
