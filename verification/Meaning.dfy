/** What each conversion shows, character by character, in terms of its argument alone. */
module Meaning {
  import opened CTypes
  import opened Numerals
  import opened Format

  // ----- Numbers -----

  /** s is v written in decimal, without a leading zero. */
  ghost predicate InDecimal(s: seq<char>, v: int) {
    && s != [] && Value(s, 10) == v
    && (forall i :: 0 <= i < |s| ==> '0' <= s[i] <= '9')
    && (s[0] == '0' ==> |s| == 1)
  }

  /** s is v written in hexadecimal with small letters, without a leading zero. */
  ghost predicate InSmallHex(s: seq<char>, v: int) {
    && s != [] && Value(s, 16) == v
    && (forall i :: 0 <= i < |s| ==> '0' <= s[i] <= '9' || 'a' <= s[i] <= 'f')
    && (s[0] == '0' ==> |s| == 1)
  }

  /** s is v written in hexadecimal with capital letters, without a leading zero. */
  ghost predicate InCapitalHex(s: seq<char>, v: int) {
    && s != [] && Value(s, 16) == v
    && (forall i :: 0 <= i < |s| ==> '0' <= s[i] <= '9' || 'A' <= s[i] <= 'F')
    && (s[0] == '0' ==> |s| == 1)
  }

  ghost predicate InSignedDecimal(s: seq<char>, v: int) {
    if v < 0 then s != [] && s[0] == '-' && InDecimal(s[1..], -v) else InDecimal(s, v)
  }

  /** The digit characters of either base and case, and their values. */
  lemma DigitRange(c: char, base: Base, upper: bool)
    requires DigitOf(c, base, upper)
    ensures '0' <= c <= '9' || (base == 16 && if upper then 'A' <= c <= 'F' else 'a' <= c <= 'f')
  {
    if upper && 'a' <= c <= 'f' {
      assert UPPER[HexValue(c)] == c;
    } else if !upper && 'A' <= c <= 'F' {
      assert LOWER[HexValue(c)] == c;
    }
  }

  lemma NumeralRange(v: nat, base: Base, upper: bool)
    ensures var s := Numeral(v, base, upper);
      && s != [] && Value(s, base) == v && (s[0] == '0' ==> |s| == 1)
      && forall i :: 0 <= i < |s| ==>
        '0' <= s[i] <= '9' || (base == 16 && if upper then 'A' <= s[i] <= 'F' else 'a' <= s[i] <= 'f')
  {
    NumeralDenotes(v, base, upper);
    var s := Numeral(v, base, upper);
    hide Numeral;
    forall i | 0 <= i < |s|
      ensures '0' <= s[i] <= '9' || (base == 16 && if upper then 'A' <= s[i] <= 'F' else 'a' <= s[i] <= 'f')
    {
      DigitRange(s[i], base, upper);
    }
  }

  lemma DecimalIsDecimal(v: nat)
    ensures InDecimal(Decimal(v), v)
  {
    NumeralRange(v, 10, false);
    hide Numeral, Value;
  }

  lemma HexIsHex(v: nat)
    ensures InSmallHex(Hex(v, false), v) && InCapitalHex(Hex(v, true), v)
  {
    NumeralRange(v, 16, false);
    NumeralRange(v, 16, true);
    hide Numeral, Value;
  }

  // ----- Conversions -----

  /** The first argument, as the directive wants it. */
  ghost predicate IsSignedArg(d: Directive, args: seq<Arg>, v: int) {
    args != [] && if d.long then args[0].LongArg? && args[0].l == v else args[0].IntArg? && args[0].i == v
  }

  ghost predicate IsUnsignedArg(d: Directive, args: seq<Arg>, v: int) {
    args != [] && if d.long then args[0].ULongArg? && args[0].ul == v else args[0].UIntArg? && args[0].u == v
  }

  /** s is what the conversion d shows of the first argument, before padding. */
  ghost predicate Shows(d: Directive, args: seq<Arg>, s: seq<char>) {
    if d.spec == 'd' || d.spec == 'i' then exists v: int :: IsSignedArg(d, args, v) && InSignedDecimal(s, v)
    else if d.spec == 'u' then exists v: int :: IsUnsignedArg(d, args, v) && InDecimal(s, v)
    else if d.spec == 'x' then exists v: int :: IsUnsignedArg(d, args, v) && InSmallHex(s, v)
    else if d.spec == 'X' then exists v: int :: IsUnsignedArg(d, args, v) && InCapitalHex(s, v)
    else if d.spec == 'p' then
      args != [] && args[0].PtrArg? && |s| >= 2 && s[0] == '0' && s[1] == 'x' && InSmallHex(s[2..], args[0].p)
    else if d.spec == 's' then
      args != [] && (args[0].NullStr? || args[0].StrArg?) && s == if args[0].NullStr? then "(null)" else args[0].s
    else if d.spec == 'c' then
      args != [] && args[0].IntArg? && |s| == 1 && (s[0] as int) < 256 && (args[0].i - s[0] as int) % 256 == 0
    else s == ['%', d.spec]
  }

  /** s, then blanks up to the width. */
  ghost predicate OnTheLeft(r: seq<char>, s: seq<char>, width: int) {
    && |r| == (if width > |s| then width else |s|)
    && r[..|s|] == s && forall i :: |s| <= i < |r| ==> r[i] == ' '
  }

  /** Zeros or blanks up to the width, then s. */
  ghost predicate OnTheRight(r: seq<char>, s: seq<char>, width: int, zeros: bool) {
    && |r| == (if width > |s| then width else |s|)
    && r[|r| - |s|..] == s && forall i :: 0 <= i < |r| - |s| ==> r[i] == if zeros then '0' else ' '
  }

  lemma SignedShows(d: Directive, args: seq<Arg>)
    requires Ready(d, args) && (d.spec == 'd' || d.spec == 'i')
    ensures var v: int := SignedValue(args[0]);
      IsSignedArg(d, args, v) && InSignedDecimal(Signed(v), v) && Shows(d, args, Signed(v))
  {
    var v: int := SignedValue(args[0]);
    var m: nat := if v < 0 then -v else v;
    DecimalIsDecimal(m);
    hide Decimal, InDecimal;
    assert v < 0 ==> Signed(v)[1..] == Decimal(m);
  }

  lemma UnsignedShows(d: Directive, args: seq<Arg>)
    requires Ready(d, args) && (d.spec == 'u' || d.spec == 'x' || d.spec == 'X')
    ensures Shows(d, args, Content(d, args))
  {
    var v: int := UnsignedValue(args[0]);
    DecimalIsDecimal(v);
    HexIsHex(v);
    hide Decimal, Hex, InDecimal, InSmallHex, InCapitalHex;
    assert IsUnsignedArg(d, args, v);
  }

  lemma PointerShows(d: Directive, args: seq<Arg>)
    requires Ready(d, args) && d.spec == 'p'
    ensures Shows(d, args, Content(d, args))
  {
    HexIsHex(args[0].p);
    hide Hex, InSmallHex;
    assert ("0x" + Hex(args[0].p, false))[2..] == Hex(args[0].p, false);
  }

  lemma ContentShows(d: Directive, args: seq<Arg>)
    requires Ready(d, args)
    ensures Shows(d, args, Content(d, args))
  {
    if d.spec == 'd' || d.spec == 'i' {
      SignedShows(d, args);
    } else if d.spec == 'u' || d.spec == 'x' || d.spec == 'X' {
      UnsignedShows(d, args);
    } else if d.spec == 'p' {
      PointerShows(d, args);
    }
  }

  /** vsnprintf_internal shows s, with blanks behind it under '-', else zeros or blanks before it. */
  lemma SnprintfShows(d: Directive, args: seq<Arg>) returns (s: seq<char>)
    requires Ready(d, args)
    ensures Shows(d, args, s)
    ensures var r := SnprintfPiece(d, args);
      if d.left then OnTheLeft(r, s, d.width) else OnTheRight(r, s, d.width, d.zero)
    ensures d.width == 0 ==> Shows(d, args, SnprintfPiece(d, args))
  {
    s := Content(d, args);
    ContentShows(d, args);
    hide Content, Shows;
    assert d.width == 0 ==> SnprintfPiece(d, args) == s;
  }

  lemma EmitSignedShows(v: int, width: nat, zero: bool)
    ensures var r, s := EmitSigned(v, width, zero), Signed(v);
      if s[0] == '-' then r[..1] == "-" && OnTheRight(r[1..], s[1..], width - 1, zero)
      else OnTheRight(r, s, width, zero)
    ensures width == 0 ==> EmitSigned(v, width, zero) == Signed(v)
  {
    var m: nat := if v < 0 then -v else v;
    DecimalIsDecimal(m);
    hide Decimal, Value;
    if v < 0 {
      var tail := PadLeft(Decimal(m), if width > 0 then width - 1 else 0, PadChar(zero));
      assert EmitSigned(v, width, zero)[1..] == tail && Signed(v)[1..] == Decimal(m);
    }
  }

  /** vprintf shows s too: numbers on the right, their sign before the padding, strings on either
      side among blanks, anything else without padding. */
  lemma PrintfShows(d: Directive, args: seq<Arg>) returns (s: seq<char>)
    requires Ready(d, args)
    ensures Shows(d, args, s)
    ensures var r := PrintfPiece(d, args);
      if d.spec == 'd' || d.spec == 'i' then
        s != [] &&
        if s[0] == '-' then r[..1] == "-" && OnTheRight(r[1..], s[1..], d.width - 1, d.zero)
        else OnTheRight(r, s, d.width, d.zero)
      else if d.spec == 'u' || d.spec == 'x' || d.spec == 'X' then OnTheRight(r, s, d.width, d.zero)
      else if d.spec == 's' then if d.left then OnTheLeft(r, s, d.width) else OnTheRight(r, s, d.width, false)
      else r == s
    ensures d.width == 0 ==> Shows(d, args, PrintfPiece(d, args))
  {
    s := Content(d, args);
    ContentShows(d, args);
    hide Shows, Signed, Unsigned, EmitSigned, OnTheRight, OnTheLeft, PadLeft, PadRight, HasType;
    if d.spec == 'd' || d.spec == 'i' {
      EmitSignedShows(SignedValue(args[0]), d.width, d.zero);
    } else {
      PaddedShows(s, d.width, d.zero);
      PaddedShows(s, d.width, false);
    }
  }

  lemma PaddedShows(s: seq<char>, width: nat, zero: bool)
    ensures OnTheRight(PadLeft(s, width, PadChar(zero)), s, width, zero) && OnTheLeft(PadRight(s, width), s, width)
    ensures width == 0 ==> PadLeft(s, width, PadChar(zero)) == s && PadRight(s, width) == s
  {
  }

  // ----- Formats without directives -----

  /** A format shows what follows its last '%' as it stands, in both engines, without an argument. */
  lemma {:induction false} PlainItems(fmt: CString, i: nat, engine: Engine, args: seq<Arg>)
    requires i <= |fmt| && '%' !in fmt[i..]
    ensures Matches(Items(fmt, i), args) && Demand(Items(fmt, i)) == [] && Text(engine, Items(fmt, i), args) == fmt[i..]
    decreases |fmt| - i
  {
    if i < |fmt| {
      assert fmt[i] == fmt[i..][0] && fmt[i + 1..] == fmt[i..][1..];
      PlainItems(fmt, i + 1, engine, args);
      assert fmt[i..] == [fmt[i]] + fmt[i + 1..];
      assert Items(fmt, i) == [Literal(fmt[i])] + Items(fmt, i + 1);
    }
  }
}
