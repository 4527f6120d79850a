/** vsnprintf_internal and vprintf give the same output exactly when every directive agrees. */
module Agreement {
  import opened CTypes
  import opened Numerals
  import opened Format

  // ----- Padded texts -----

  lemma NumeralChars(v: nat, base: Base, upper: bool)
    ensures var s := Numeral(v, base, upper);
      forall i :: 0 <= i < |s| ==> s[i] != ' ' && s[i] != '-' && s[i] != '\0'
  {
    NumeralDenotes(v, base, upper);
    var s := Numeral(v, base, upper);
    forall i | 0 <= i < |s| ensures s[i] != ' ' && s[i] != '-' && s[i] != '\0' {
      assert DigitOf(s[i], base, upper);
      DigitHasValue(HexValue(s[i]), upper);
    }
  }

  lemma NoPadding(s: seq<char>, width: int, c: char)
    requires width <= |s|
    ensures PadLeft(s, width, c) == s && PadRight(s, width) == s
  {
  }

  /** Padding on the two sides can be told apart by the last character. */
  lemma SidesDiffer(s: seq<char>, width: int, c: char)
    requires width > |s| > 0 && s[|s| - 1] != ' '
    ensures PadRight(s, width) != PadLeft(s, width, c)
  {
    var r, l := PadRight(s, width), PadLeft(s, width, c);
    assert r[|r| - 1] == ' ' && l[|l| - 1] == s[|s| - 1];
  }

  lemma PadCharsDiffer(s: seq<char>, width: int)
    requires width > |s|
    ensures PadLeft(s, width, '0') != PadLeft(s, width, ' ')
  {
    assert PadLeft(s, width, '0')[0] == '0' && PadLeft(s, width, ' ')[0] == ' ';
  }

  lemma UnsignedAgreement(d: Directive, args: seq<Arg>)
    requires Ready(d, args) && IsUnsigned(d.spec)
    ensures |PrintfPiece(d, args)| == |SnprintfPiece(d, args)|
    ensures SnprintfPiece(d, args) == PrintfPiece(d, args) <==> Agrees(d, args)
  {
    var s := Content(d, args);
    NumeralChars(UnsignedValue(args[0]), 10, false);
    NumeralChars(UnsignedValue(args[0]), 16, d.spec == 'X');
    assert s[|s| - 1] != ' ';
    hide Numeral, Unsigned;
    if d.width <= |s| {
      NoPadding(s, d.width, PadChar(d.zero));
    } else if d.left {
      SidesDiffer(s, d.width, PadChar(d.zero));
    }
  }

  lemma SignedAgreement(d: Directive, args: seq<Arg>)
    requires Ready(d, args) && IsSigned(d.spec)
    ensures |PrintfPiece(d, args)| == |SnprintfPiece(d, args)|
    ensures SnprintfPiece(d, args) == PrintfPiece(d, args) <==> Agrees(d, args)
  {
    hide Decimal;
    var v: int := SignedValue(args[0]);
    if v >= 0 {
      NonNegativeAgreement(Decimal(v), d, v);
    } else {
      NegativeAgreement(Decimal(-v), d, v);
    }
  }

  lemma NonNegativeAgreement(s: seq<char>, d: Directive, v: nat)
    requires s == Decimal(v)
    ensures var p := PadLeft(s, d.width, PadChar(d.zero));
      (if d.left then PadRight(s, d.width) else p) == p <==> d.width <= |s| || !d.left
  {
    NumeralChars(v, 10, false);
    hide Numeral;
    if d.width <= |s| {
      NoPadding(s, d.width, PadChar(d.zero));
    } else {
      SidesDiffer(s, d.width, PadChar(d.zero));
    }
  }

  lemma NegativeAgreement(s: seq<char>, d: Directive, v: int)
    requires v < 0 && s == Decimal(-v)
    ensures var m := ['-'] + s;
      var e := ['-'] + PadLeft(s, if d.width > 0 then d.width - 1 else 0, PadChar(d.zero));
      var p := if d.left then PadRight(m, d.width) else PadLeft(m, d.width, PadChar(d.zero));
      && |p| == |e|
      && (p == e <==> d.width <= |m|)
  {
    NumeralChars(-v, 10, false);
    hide Numeral;
    var m := ['-'] + s;
    var e := ['-'] + PadLeft(s, if d.width > 0 then d.width - 1 else 0, PadChar(d.zero));
    if d.width <= |m| {
      NoPadding(m, d.width, PadChar(d.zero));
      NoPadding(s, if d.width > 0 then d.width - 1 else 0, PadChar(d.zero));
    } else if d.left {
      assert e[|e| - 1] == s[|s| - 1] != ' ';
      assert PadRight(m, d.width)[|e| - 1] == ' ';
    } else {
      assert e[0] == '-' != PadLeft(m, d.width, PadChar(d.zero))[0];
    }
  }

  lemma StringAgreement(d: Directive, args: seq<Arg>)
    requires Ready(d, args) && d.spec == 's'
    ensures |PrintfPiece(d, args)| == |SnprintfPiece(d, args)|
    ensures SnprintfPiece(d, args) == PrintfPiece(d, args) <==> Agrees(d, args)
  {
    var s := Content(d, args);
    if d.width <= |s| {
      NoPadding(s, d.width, ' ');
      NoPadding(s, d.width, '0');
    } else {
      PadCharsDiffer(s, d.width);
    }
  }

  /** One directive: vprintf never writes more, and writes the same exactly when it agrees. */
  lemma PieceAgreement(d: Directive, args: seq<Arg>)
    requires Ready(d, args)
    ensures |PrintfPiece(d, args)| <= |SnprintfPiece(d, args)|
    ensures SnprintfPiece(d, args) == PrintfPiece(d, args) <==> Agrees(d, args)
  {
    if IsUnsigned(d.spec) {
      UnsignedAgreement(d, args);
    } else if IsSigned(d.spec) {
      SignedAgreement(d, args);
    } else if d.spec == 's' {
      StringAgreement(d, args);
    } else {
      NoPadding(Content(d, args), if d.width <= |Content(d, args)| then d.width else 0, PadChar(d.zero));
    }
  }

  // ----- Whole formats -----

  lemma {:induction false} PrintfShorter(items: seq<Item>, args: seq<Arg>)
    requires Matches(items, args)
    ensures |Text(Printf, items, args)| <= |Text(Snprintf, items, args)|
  {
    if items != [] {
      if items[0].Conversion? { PieceAgreement(items[0].d, args); }
      PrintfShorter(items[1..], After(items[0], args));
    }
  }

  lemma SplitEqual(a: seq<char>, b: seq<char>, c: seq<char>, d: seq<char>)
    requires |a| >= |c| && |b| >= |d|
    ensures a + b == c + d <==> a == c && b == d
  {
    if a + b == c + d {
      assert |a| == |c| && |b| == |d|;
      assert a == (a + b)[..|a|] == (c + d)[..|a|] == c;
      assert b == (a + b)[|a|..] == (c + d)[|a|..] == d;
    }
  }

  /** The two engines write the same bytes if and only if every directive of the format agrees. */
  lemma {:induction false} TextAgreement(items: seq<Item>, args: seq<Arg>)
    requires Matches(items, args)
    ensures Text(Snprintf, items, args) == Text(Printf, items, args) <==> AllAgree(items, args)
  {
    if items != [] {
      var rest := After(items[0], args);
      if items[0].Conversion? { PieceAgreement(items[0].d, args); }
      PrintfShorter(items[1..], rest);
      TextAgreement(items[1..], rest);
      SplitEqual(Piece(Snprintf, items[0], args), Text(Snprintf, items[1..], rest),
                 Piece(Printf, items[0], args), Text(Printf, items[1..], rest));
    }
  }
}
