/** atoi and atol, and what they make of the numbers the printf engines print. */
module RoundTrip {
  import opened CTypes
  import opened Numerals
  import opened Format
  import opened Parsing
  import opened Agreement
  import opened Snprintf

  // ----- The parsers -----

  predicate IsSpace(c: char) {
    c == ' ' || c == '\t' || c == '\n' || c == '\r'
  }

  function SpacesEnd(s: CString, i: nat): (e: nat)
    requires i <= |s|
    ensures i <= e <= |s|
    decreases |s| - i
  {
    if i < |s| && IsSpace(s[i]) then SpacesEnd(s, i + 1) else i
  }

  /** Where the digits start: after the spaces and one sign. */
  function NumberStart(s: CString): (j: nat)
    ensures j <= |s|
  {
    var i := SpacesEnd(s, 0);
    if At(s, i) == '-' || At(s, i) == '+' then i + 1 else i
  }

  function Magnitude(s: CString): nat {
    var j := NumberStart(s);
    DecimalValue(s, j, DigitsEnd(s, j))
  }

  function Negated(neg: bool, v: int): int {
    if neg then -v else v
  }

  /** The number s stands for. */
  function Parsed(s: CString): int {
    Negated(At(s, SpacesEnd(s, 0)) == '-', Magnitude(s))
  }

  lemma {:induction false} SpacesSpan(s: CString, i: nat, e: nat)
    requires i <= e <= |s| && (forall k :: i <= k < e ==> IsSpace(s[k])) && !IsSpace(At(s, e))
    ensures SpacesEnd(s, i) == e
    decreases e - i
  {
    if i < e { SpacesSpan(s, i + 1, e); }
  }

  /** s is blanks up to i, a sign or none up to j, digits up to e, and then something else. */
  ghost predicate NumberAt(s: CString, i: nat, j: nat, e: nat) {
    && i <= j <= e <= |s|
    && (forall k :: 0 <= k < i ==> s[k] == ' ' || s[k] == '\t' || s[k] == '\n' || s[k] == '\r')
    && (if i < |s| && (s[i] == '-' || s[i] == '+') then j == i + 1 else j == i)
    && (i < |s| ==> s[i] != ' ' && s[i] != '\t' && s[i] != '\n' && s[i] != '\r')
    && (forall k :: j <= k < e ==> '0' <= s[k] <= '9')
    && (e < |s| ==> !('0' <= s[e] <= '9'))
  }

  /** The number that is written there. */
  ghost function NumberOf(s: CString, i: nat, j: nat, e: nat): int
    requires NumberAt(s, i, j, e)
  {
    if i < |s| && s[i] == '-' then -Value(s[j..e], 10) else Value(s[j..e], 10)
  }

  /** The parsers read it, whatever surrounds it. */
  lemma ParsedIsNumber(s: CString, i: nat, j: nat, e: nat)
    requires NumberAt(s, i, j, e)
    ensures Magnitude(s) == Value(s[j..e], 10) && Parsed(s) == NumberOf(s, i, j, e)
  {
    SpacesSpan(s, 0, i);
    DigitsSpan(s, j, e);
    DecimalIsValue(s, j, e);
  }

  /** Blanks, a sign or none, digits, and a rest that does not go on with them: that is what is
      read, negated exactly after '-'. */
  lemma WrittenNumber(s: CString, w: seq<char>, sign: seq<char>, ds: seq<char>, rest: seq<char>)
    requires s == w + sign + ds + rest && (sign == "" || sign == "-" || sign == "+")
    requires forall k :: 0 <= k < |w| ==> w[k] == ' ' || w[k] == '\t' || w[k] == '\n' || w[k] == '\r'
    requires forall k :: 0 <= k < |ds| ==> '0' <= ds[k] <= '9'
    requires rest != [] ==> !('0' <= rest[0] <= '9')
    requires rest != [] && sign == "" && ds == [] ==>
      rest[0] != ' ' && rest[0] != '\t' && rest[0] != '\n' && rest[0] != '\r' && rest[0] != '-' && rest[0] != '+'
    ensures Parsed(s) == if sign == "-" then -Value(ds, 10) else Value(ds, 10)
  {
    var i, j := |w|, |w| + |sign|;
    var e := j + |ds|;
    NumberShape(s, w, sign, ds, rest);
    assert s[j..e] == ds;
    ParsedIsNumber(s, i, j, e);
    hide Parsed, Magnitude, Value;
  }

  lemma NumberShape(s: CString, w: seq<char>, sign: seq<char>, ds: seq<char>, rest: seq<char>)
    requires s == w + sign + ds + rest && (sign == "" || sign == "-" || sign == "+")
    requires forall k :: 0 <= k < |w| ==> w[k] == ' ' || w[k] == '\t' || w[k] == '\n' || w[k] == '\r'
    requires forall k :: 0 <= k < |ds| ==> '0' <= ds[k] <= '9'
    requires rest != [] ==> !('0' <= rest[0] <= '9')
    requires rest != [] && sign == "" && ds == [] ==>
      rest[0] != ' ' && rest[0] != '\t' && rest[0] != '\n' && rest[0] != '\r' && rest[0] != '-' && rest[0] != '+'
    ensures NumberAt(s, |w|, |w| + |sign|, |w| + |sign| + |ds|)
    ensures |w| < |s| && s[|w|] == '-' <==> sign == "-"
  {
    var i, j := |w|, |w| + |sign|;
    var e := j + |ds|;
    assert forall k :: 0 <= k < i ==> s[k] == w[k];
    assert forall k :: j <= k < e ==> s[k] == ds[k - j];
    assert e < |s| ==> s[e] == rest[0];
    assert i < j ==> s[i] == sign[0];
  }

  lemma {:induction false} SpacesStretch(s: CString, i: nat)
    requires i <= |s|
    ensures forall k :: i <= k < SpacesEnd(s, i) ==> IsSpace(s[k])
    ensures SpacesEnd(s, i) < |s| ==> !IsSpace(s[SpacesEnd(s, i)])
    decreases |s| - i
  {
    if i < |s| { SpacesStretch(s, i + 1); }
  }

  /** Every string has exactly one such reading. */
  lemma EveryNumber(s: CString) returns (i: nat, j: nat, e: nat)
    ensures NumberAt(s, i, j, e)
    ensures forall x: nat, y: nat, z: nat :: NumberAt(s, x, y, z) ==> x == i && y == j && z == e
  {
    i, j := SpacesEnd(s, 0), NumberStart(s);
    e := DigitsEnd(s, j);
    SpacesStretch(s, 0);
    DigitsStretch(s, j);
    forall x: nat, y: nat, z: nat | NumberAt(s, x, y, z) ensures x == i && y == j && z == e {
      SpacesSpan(s, 0, x);
      DigitsSpan(s, y, z);
    }
  }

  method SkipSpaces(s: CString) returns (i: nat)
    ensures i == SpacesEnd(s, 0)
  {
    i := 0;
    while IsSpace(At(s, i))
      invariant i <= |s| && SpacesEnd(s, i) == SpacesEnd(s, 0)
      decreases |s| - i
    {
      i := i + 1;
    }
  }

  method Atoi(s: CString) returns (r: Int32)
    requires Magnitude(s) <= INT_MAX
    ensures r == Parsed(s)
    ensures forall i: nat, j: nat, e: nat :: NumberAt(s, i, j, e) ==> r == NumberOf(s, i, j, e)
  {
    forall i: nat, j: nat, e: nat | NumberAt(s, i, j, e) ensures Parsed(s) == NumberOf(s, i, j, e) {
      ParsedIsNumber(s, i, j, e);
    }
    hide NumberAt, NumberOf, Value;
    var neg, v: Int32 := false, 0;
    var i := SkipSpaces(s);
    if At(s, i) == '-' {
      neg := true;
      i := i + 1;
    } else if At(s, i) == '+' {
      i := i + 1;
    }
    ghost var j := i;
    while IsDigit(At(s, i))
      invariant j <= i <= |s| && DigitsEnd(s, i) == DigitsEnd(s, j)
      invariant v == DecimalValue(s, j, i)
      decreases |s| - i
    {
      DecimalValueGrows(s, j, i, DigitsEnd(s, j));
      v := v * 10 + DigitValue(At(s, i));
      i := i + 1;
    }
    return if neg then -v else v;
  }

  method Atol(s: CString) returns (r: Int64)
    requires Magnitude(s) <= LONG_MAX
    ensures r == Parsed(s)
    ensures forall i: nat, j: nat, e: nat :: NumberAt(s, i, j, e) ==> r == NumberOf(s, i, j, e)
  {
    forall i: nat, j: nat, e: nat | NumberAt(s, i, j, e) ensures Parsed(s) == NumberOf(s, i, j, e) {
      ParsedIsNumber(s, i, j, e);
    }
    hide NumberAt, NumberOf, Value;
    var neg, v: Int64 := false, 0;
    var i := SkipSpaces(s);
    if At(s, i) == '-' {
      neg := true;
      i := i + 1;
    } else if At(s, i) == '+' {
      i := i + 1;
    }
    ghost var j := i;
    while IsDigit(At(s, i))
      invariant j <= i <= |s| && DigitsEnd(s, i) == DigitsEnd(s, j)
      invariant v == DecimalValue(s, j, i)
      decreases |s| - i
    {
      DecimalValueGrows(s, j, i, DigitsEnd(s, j));
      v := v * 10 + DigitValue(At(s, i));
      i := i + 1;
    }
    return if neg then -v else v;
  }

  // ----- Reading back a padded number -----

  /** Leading zeros count for nothing. */
  lemma {:induction false} ZerosThenDigits(s: CString, j: nat, z: nat, e: nat)
    requires j <= z <= e <= |s| && (forall k :: j <= k < z ==> s[k] == '0')
    ensures DecimalValue(s, j, e) == DecimalValue(s, z, e)
    decreases e
  {
    if j < e {
      if z < e {
        ZerosThenDigits(s, j, z, e - 1);
      } else {
        ZerosThenDigits(s, j, z - 1, e - 1);
      }
    }
  }

  /** a spaces, a sign or none, z zeros, the numeral of m, b spaces. */
  function Shape(a: nat, neg: bool, z: nat, m: nat, b: nat): seq<char> {
    Fill(' ', a) + (if neg then ['-'] else []) + Fill('0', z) + Decimal(m) + Fill(' ', b)
  }

  /** Text of that shape is read back as the number. */
  lemma ShapeParses(s: CString, a: nat, neg: bool, z: nat, m: nat, b: nat)
    requires s == Shape(a, neg, z, m, b)
    ensures Magnitude(s) == m && Parsed(s) == Negated(neg, m)
  {
    var d := Decimal(m);
    DecimalDigits(m);
    hide Decimal;
    var j := if neg then a + 1 else a;
    var e := j + z + |d|;
    assert forall k :: j + z <= k < e ==> s[k] == d[k - j - z];
    SpacesSpan(s, 0, a);
    assert NumberStart(s) == j;
    assert e < |s| ==> s[e] == ' ';
    DigitsSpan(s, j, e);
    ZerosThenDigits(s, j, j + z, e);
    DecimalIsValue(s, j + z, e);
    assert s[j + z..e] == d;
  }

  /** Zeros, a minus sign, and whatever follows: the parser stops at the sign. */
  lemma ZerosThenSign(s: CString, z: nat)
    requires 0 < z < |s| && s[z] == '-' && forall k :: 0 <= k < z ==> s[k] == '0'
    ensures Magnitude(s) == 0 && Parsed(s) == 0
  {
    SpacesSpan(s, 0, 0);
    DigitsSpan(s, 0, z);
    ZerosThenDigits(s, 0, z, z);
  }

  /** A minus sign, then a space: no digits at all. */
  lemma SignThenSpace(s: CString)
    requires |s| >= 2 && s[0] == '-' && s[1] == ' '
    ensures Magnitude(s) == 0 && Parsed(s) == 0
  {
    SpacesSpan(s, 0, 0);
    DigitsSpan(s, 1, 1);
  }

  /** The directive pads this number. */
  predicate Pads(d: Directive, v: int) {
    d.width > |Signed(v)|
  }

  /** What vsnprintf_internal prints for a number, but for the one case below, has that shape. */
  lemma SnprintfShape(d: Directive, v: int, m: nat, k: nat)
    requires m == (if v < 0 then -v else v) && k == Gap(d.width, |Signed(v)|)
    ensures d.left ==> PadRight(Signed(v), d.width) == Shape(0, v < 0, 0, m, k)
    ensures k == 0 || !d.zero ==> PadLeft(Signed(v), d.width, PadChar(d.zero)) == Shape(k, v < 0, 0, m, 0)
    ensures d.zero && v >= 0 ==> PadLeft(Signed(v), d.width, '0') == Shape(0, false, k, m, 0)
  {
    hide Decimal;
  }

  /** snprintf, then atol: the number comes back unless it is negative and padded with zeros in
      front of its sign. Reading it never overflows. */
  lemma SnprintfRoundTrip(d: Directive, args: seq<Arg>, s: CString)
    requires Ready(d, args) && IsSigned(d.spec) && s == SnprintfPiece(d, args)
    ensures var v: int := SignedValue(args[0]);
      && Magnitude(s) <= (if v < 0 then -v else v)
      && (Parsed(s) == v <==> !(v < 0 && d.zero && !d.left && Pads(d, v)))
  {
    var v: int := SignedValue(args[0]);
    var m: nat, k := if v < 0 then -v else v, Gap(d.width, |Signed(v)|);
    SnprintfShape(d, v, m, k);
    hide Decimal, Parsed, Magnitude, Shape, PadRight;
    if d.left {
      ShapeParses(s, 0, v < 0, 0, m, k);
    } else if !d.zero || k == 0 {
      ShapeParses(s, k, v < 0, 0, m, 0);
    } else if v >= 0 {
      ShapeParses(s, 0, false, k, m, 0);
    } else {
      ZerosThenSign(s, k);
    }
  }

  /** What vprintf prints for a number, but for the one case below, has that shape. */
  lemma PrintfShape(v: int, width: nat, zero: bool, m: nat, k: nat)
    requires m == (if v < 0 then -v else v)
    requires k == Gap(if v < 0 && width > 0 then width - 1 else width, |Decimal(m)|)
    ensures v >= 0 && !zero ==> EmitSigned(v, width, zero) == Shape(k, false, 0, m, 0)
    ensures zero || k == 0 ==> EmitSigned(v, width, zero) == Shape(0, v < 0, k, m, 0)
  {
    hide Decimal;
  }

  /** printf, then atol: the number comes back unless it is negative and padded with spaces
      behind its sign. */
  lemma PrintfRoundTrip(d: Directive, args: seq<Arg>, s: CString)
    requires Ready(d, args) && IsSigned(d.spec) && s == PrintfPiece(d, args)
    ensures var v: int := SignedValue(args[0]);
      && Magnitude(s) <= (if v < 0 then -v else v)
      && (Parsed(s) == v <==> !(v < 0 && !d.zero && Pads(d, v)))
  {
    var v: int := SignedValue(args[0]);
    var m: nat := if v < 0 then -v else v;
    var k := Gap(if v < 0 && d.width > 0 then d.width - 1 else d.width, |Decimal(m)|);
    PrintfShape(v, d.width, d.zero, m, k);
    hide Decimal, Parsed, Magnitude, Shape;
    if d.zero || k == 0 {
      ShapeParses(s, 0, v < 0, k, m, 0);
    } else if v >= 0 {
      ShapeParses(s, k, false, 0, m, 0);
    } else {
      SignThenSpace(s);
    }
  }

  lemma NoNul(a: seq<char>, b: seq<char>)
    requires '\0' !in a && '\0' !in b
    ensures '\0' !in a + b
  {
  }

  lemma PaddedNoNul(s: seq<char>, width: int, c: char)
    requires '\0' !in s && c != '\0'
    ensures '\0' !in PadLeft(s, width, c) && '\0' !in PadRight(s, width)
  {
    NoNul(Fill(c, Gap(width, |s|)), s);
    NoNul(s, Fill(' ', Gap(width, |s|)));
  }

  lemma DecimalNoNul(v: nat)
    ensures '\0' !in Decimal(v)
  {
    var s := Decimal(v);
    NumeralChars(v, 10, false);
    assert s == Numeral(v, 10, false);
    forall i | 0 <= i < |s| ensures s[i] != '\0' { assert s[i] == Numeral(v, 10, false)[i]; }
  }

  /** Both engines print numbers without a NUL, so what they print is a C string. */
  lemma SignedTextIsString(d: Directive, args: seq<Arg>)
    requires Ready(d, args) && IsSigned(d.spec)
    ensures '\0' !in SnprintfPiece(d, args) && '\0' !in PrintfPiece(d, args)
  {
    var v: int := SignedValue(args[0]);
    var m := if v < 0 then -v else v;
    DecimalNoNul(m);
    hide Decimal, PadLeft, PadRight;
    NoNul(['-'], Decimal(m));
    PaddedNoNul(Signed(v), d.width, PadChar(d.zero));
    var width := if v < 0 && d.width > 0 then d.width - 1 else d.width;
    PaddedNoNul(Decimal(m), width, PadChar(d.zero));
    NoNul(['-'], PadLeft(Decimal(m), width, PadChar(d.zero)));
  }

  /** From the format to the number and back: a buffer filled by snprintf from a format that is one
      signed directive, read by atol. */
  lemma AtolOfSnprintf(fmt: CString, args: seq<Arg>, d: Directive, before: seq<char>, size: SizeT)
    requires Matches(Items(fmt, 0), args) && Items(fmt, 0) == [Conversion(d)] && IsSigned(d.spec)
    requires size > |Output(fmt, args)| && |before| > |Output(fmt, args)|
    ensures Ready(d, args)
    ensures var v: int, s := SignedValue(args[0]), StringIn(Formatted(before, Output(fmt, args), size));
      && Magnitude(s) <= (if v < 0 then -v else v)
      && (Parsed(s) == v <==> !(v < 0 && d.zero && !d.left && Pads(d, v)))
  {
    OneDirective(fmt, args, d);
    SignedTextIsString(d, args);
    SmallerIsPrefix(before, before, Output(fmt, args), size, size);
    SnprintfRoundTrip(d, args, Output(fmt, args));
  }

  lemma OneDirective(fmt: CString, args: seq<Arg>, d: Directive)
    requires Matches(Items(fmt, 0), args) && Items(fmt, 0) == [Conversion(d)]
    ensures Ready(d, args) && Output(fmt, args) == SnprintfPiece(d, args)
  {
    var items := Items(fmt, 0);
    assert items[0] == Conversion(d) && items[1..] == [];
    assert Text(Engine.Snprintf, items, args) == SnprintfPiece(d, args) + [];
  }
}
