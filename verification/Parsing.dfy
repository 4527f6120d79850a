/** The directive parser both engines carry: flags, width, precision, length, conversion character. */
module Parsing {
  import opened CTypes
  import opened Numerals
  import opened Format

  /** The width written in the directive whose '%' is just before i. */
  function WidthAt(s: CString, i: nat): nat
    requires i <= |s|
  {
    DecimalValue(s, FlagsEnd(s, i), DigitsEnd(s, FlagsEnd(s, i)))
  }

  /** No width from position i on overflows an int, not even that of an unfinished directive. */
  predicate WidthsFit(s: CString, i: nat)
    requires i <= |s|
    decreases |s| - i
  {
    if i == |s| then true
    else if s[i] != '%' then WidthsFit(s, i + 1)
    else if i + 1 == |s| then true
    else if s[i + 1] == '%' then WidthsFit(s, i + 2)
    else
      && WidthAt(s, i + 1) <= INT_MAX
      && (SpecAt(s, i + 1) < |s| ==> WidthsFit(s, SpecAt(s, i + 1) + 1))
  }

  lemma {:induction false} DecimalValueGrows(s: CString, i: nat, m: nat, e: nat)
    requires i <= m <= e <= |s|
    ensures DecimalValue(s, i, m) <= DecimalValue(s, i, e)
    ensures m < e ==> DecimalValue(s, i, m) * 10 + DigitValue(s[m]) <= DecimalValue(s, i, e)
    decreases e
  {
    if m < e {
      DecimalValueGrows(s, i, m, e - 1);
    }
  }

  method SkipFlags(s: CString, i0: nat) returns (i: nat, left: bool, zero: bool)
    requires i0 <= |s|
    ensures i == FlagsEnd(s, i0)
    ensures left == ('-' in s[i0..i]) && zero == ('0' in s[i0..i])
  {
    i, left, zero := i0, false, false;
    while IsFlag(At(s, i))
      invariant i0 <= i <= |s| && FlagsEnd(s, i) == FlagsEnd(s, i0)
      invariant left == ('-' in s[i0..i]) && zero == ('0' in s[i0..i])
      decreases |s| - i
    {
      if At(s, i) == '-' { left := true; }
      if At(s, i) == '0' { zero := true; }
      assert s[i0..i + 1] == s[i0..i] + [s[i]];
      i := i + 1;
    }
  }

  method ParseWidth(s: CString, i0: nat) returns (i: nat, width: Int32)
    requires i0 <= |s| && DecimalValue(s, i0, DigitsEnd(s, i0)) <= INT_MAX
    ensures i == DigitsEnd(s, i0) && width == DecimalValue(s, i0, i)
  {
    i, width := i0, 0;
    while IsDigit(At(s, i))
      invariant i0 <= i <= |s| && DigitsEnd(s, i) == DigitsEnd(s, i0)
      invariant width == DecimalValue(s, i0, i)
      decreases |s| - i
    {
      DecimalValueGrows(s, i0, i, DigitsEnd(s, i0));
      width := width * 10 + DigitValue(At(s, i));
      i := i + 1;
    }
  }

  method SkipDigits(s: CString, i0: nat) returns (i: nat)
    requires i0 <= |s|
    ensures i == DigitsEnd(s, i0)
  {
    i := i0;
    while IsDigit(At(s, i))
      invariant i0 <= i <= |s| && DigitsEnd(s, i) == DigitsEnd(s, i0)
      decreases |s| - i
    {
      i := i + 1;
    }
  }

  method SkipLength(s: CString, i0: nat) returns (i: nat, long: bool)
    requires i0 <= |s|
    ensures i == LengthEnd(s, i0) && (long <==> i0 < i)
  {
    i, long := i0, false;
    while IsLength(At(s, i))
      invariant i0 <= i <= |s| && LengthEnd(s, i) == LengthEnd(s, i0)
      invariant long <==> i0 < i
      decreases |s| - i
    {
      long := true;
      i := i + 1;
    }
  }

  /** Parse the directive from i0 on; finished is false when the format ends first. */
  method ParseDirective(s: CString, i0: nat) returns (finished: bool, d: Directive, i: nat)
    requires i0 <= |s| && WidthAt(s, i0) <= INT_MAX
    ensures i == SpecAt(s, i0) && (finished <==> i < |s|)
    ensures finished ==> d == DirectiveAt(s, i0) && d.width <= INT_MAX
  {
    var left, zero, width, long;
    d := Directive(false, false, 0, false, '\0');
    i, left, zero := SkipFlags(s, i0);
    if At(s, i) == '\0' { return false, d, i; }
    i, width := ParseWidth(s, i);
    if At(s, i) == '\0' { return false, d, i; }
    if At(s, i) == '.' {
      i := SkipDigits(s, i + 1);
    }
    if At(s, i) == '\0' { return false, d, i; }
    i, long := SkipLength(s, i);
    if At(s, i) == '\0' { return false, d, i; }
    return true, Directive(left, zero, width, long, At(s, i)), i;
  }

  // ----- Stretches of digits -----

  lemma {:induction false} DigitsSpan(s: CString, i: nat, e: nat)
    requires i <= e <= |s| && (forall k :: i <= k < e ==> IsDigit(s[k])) && !IsDigit(At(s, e))
    ensures DigitsEnd(s, i) == e
    decreases e - i
  {
    if i < e { DigitsSpan(s, i + 1, e); }
  }

  lemma {:induction false} DigitsStretch(s: CString, i: nat)
    requires i <= |s|
    ensures forall k :: i <= k < DigitsEnd(s, i) ==> '0' <= s[k] <= '9'
    ensures DigitsEnd(s, i) < |s| ==> !('0' <= s[DigitsEnd(s, i)] <= '9')
    decreases |s| - i
  {
    if i < |s| { DigitsStretch(s, i + 1); }
  }

  lemma {:induction false} DecimalIsValue(s: CString, i: nat, e: nat)
    requires i <= e <= |s| && forall k :: i <= k < e ==> IsDigit(s[k])
    ensures DecimalValue(s, i, e) == Value(s[i..e], 10)
    decreases e
  {
    if i < e {
      DecimalIsValue(s, i, e - 1);
      assert s[i..e][..e - 1 - i] == s[i..e - 1];
    }
  }

  lemma DecimalDigits(v: nat)
    ensures Value(Decimal(v), 10) == v
    ensures forall i :: 0 <= i < |Decimal(v)| ==> IsDigit(Decimal(v)[i])
  {
    NumeralDenotes(v, 10, false);
    var s := Decimal(v);
    forall i | 0 <= i < |s| ensures IsDigit(s[i]) { assert DigitOf(s[i], 10, false); }
  }
}
