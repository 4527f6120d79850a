/** The directive grammar, written the other way round: every list of items is what some format says. */
module Grammar {
  import opened CTypes
  import opened Numerals
  import opened Format
  import opened Parsing
  import opened Agreement

  /** Conversion characters that cannot be taken for another part of a directive. */
  predicate PlainSpec(c: char) {
    !IsFlag(c) && !IsDigit(c) && !IsLength(c) && c != '.' && c != '%' && c != '\0'
  }

  predicate Writable(item: Item) {
    match item
    case Literal(c) => c != '\0'
    case Conversion(d) => PlainSpec(d.spec)
  }

  function Flags(d: Directive): seq<char> {
    (if d.left then ['-'] else []) + (if d.zero then ['0'] else [])
  }

  function Width(d: Directive): seq<char> {
    if d.width == 0 then [] else Decimal(d.width)
  }

  function Length(d: Directive): seq<char> {
    if d.long then ['l'] else []
  }

  function Written(item: Item): seq<char> {
    match item
    case Literal(c) => if c == '%' then ['%', '%'] else [c]
    case Conversion(d) => ['%'] + Flags(d) + Width(d) + Length(d) + [d.spec]
  }

  function WrittenAll(items: seq<Item>): seq<char> {
    if items == [] then [] else Written(items[0]) + WrittenAll(items[1..])
  }

  lemma {:induction false} FlagsSpan(s: CString, i: nat, e: nat)
    requires i <= e <= |s| && (forall k :: i <= k < e ==> IsFlag(s[k])) && !IsFlag(At(s, e))
    ensures FlagsEnd(s, i) == e
    decreases e - i
  {
    if i < e { FlagsSpan(s, i + 1, e); }
  }

  lemma {:induction false} LengthSpan(s: CString, i: nat, e: nat)
    requires i <= e <= |s| && (forall k :: i <= k < e ==> IsLength(s[k])) && !IsLength(At(s, e))
    ensures LengthEnd(s, i) == e
    decreases e - i
  {
    if i < e { LengthSpan(s, i + 1, e); }
  }

  /** From position i on, s holds d's flags up to f, its width up to w, its length up to p, and
      there its conversion character. */
  ghost predicate Parts(s: CString, i: nat, f: nat, w: nat, p: nat, d: Directive) {
    i <= f <= w <= p < |s| && s[i..f] == Flags(d) && s[f..w] == Width(d) && s[w..p] == Length(d) && s[p] == d.spec
  }

  lemma WidthDigits(d: Directive)
    ensures forall k :: 0 <= k < |Width(d)| ==> IsDigit(Width(d)[k])
    ensures Width(d) != [] ==> Width(d)[0] != '0'
    ensures Value(Width(d), 10) == d.width
  {
    if d.width > 0 {
      DecimalDigits(d.width);
      NumeralDenotes(d.width, 10, false);
    }
  }

  /** Each part ends where the next one starts. */
  lemma Boundaries(s: CString, i: nat, f: nat, w: nat, p: nat, d: Directive)
    requires PlainSpec(d.spec) && Parts(s, i, f, w, p, d)
    ensures !IsFlag(s[f]) && !IsDigit(s[w]) && s[w] != '.' && !IsLength(s[p])
    ensures s[i] != '%'
  {
    WidthDigits(d);
    hide Width;
    assert i < f ==> s[i] == s[i..f][0];
    assert f < w ==> s[f] == s[f..w][0];
    assert w < p ==> s[w] == s[w..p][0];
  }

  lemma FlagsFound(s: CString, i: nat, f: nat, d: Directive)
    requires i <= f < |s| && s[i..f] == Flags(d) && !IsFlag(s[f])
    ensures FlagsEnd(s, i) == f && ('-' in s[i..f]) == d.left && ('0' in s[i..f]) == d.zero
  {
    forall k | i <= k < f ensures IsFlag(s[k]) { assert s[k] == s[i..f][k - i]; }
    FlagsSpan(s, i, f);
  }

  lemma WidthFound(s: CString, f: nat, w: nat, d: Directive)
    requires f <= w < |s| && s[f..w] == Width(d) && !IsDigit(s[w])
    ensures DigitsEnd(s, f) == w && DecimalValue(s, f, w) == d.width
  {
    WidthDigits(d);
    hide Width;
    forall k | f <= k < w ensures IsDigit(s[k]) { assert s[k] == s[f..w][k - f]; }
    DigitsSpan(s, f, w);
    DecimalIsValue(s, f, w);
  }

  lemma LengthFound(s: CString, w: nat, p: nat, d: Directive)
    requires w <= p < |s| && s[w..p] == Length(d) && !IsLength(s[p])
    ensures LengthEnd(s, w) == p && (w < p) == d.long
  {
    forall k | w <= k < p ensures IsLength(s[k]) { assert s[k] == s[w..p][k - w]; }
    LengthSpan(s, w, p);
  }

  /** The lexer reads a written directive back. */
  lemma DirectiveFound(s: CString, i: nat, f: nat, w: nat, p: nat, d: Directive)
    requires PlainSpec(d.spec) && Parts(s, i, f, w, p, d)
    ensures SpecAt(s, i) == p && DirectiveAt(s, i) == d
  {
    Boundaries(s, i, f, w, p, d);
    FlagsFound(s, i, f, d);
    WidthFound(s, f, w, d);
    LengthFound(s, w, p, d);
    hide Width, Flags, Length, FlagsEnd, DigitsEnd, LengthEnd, DecimalValue;
  }

  lemma WrittenParts(s: CString, i: nat, d: Directive, rest: seq<char>) returns (f: nat, w: nat, p: nat)
    requires i <= |s| && s[i..] == Written(Conversion(d)) + rest
    ensures i + 1 <= p < |s| && s[i] == '%' && Parts(s, i + 1, f, w, p, d) && s[p + 1..] == rest
  {
    f, w, p := PeelAll(s, i, Flags(d), Width(d), Length(d), d.spec, rest);
  }

  /** Take a written directive apart, from its front. */
  lemma PeelAll(s: seq<char>, i: nat, a: seq<char>, b: seq<char>, c: seq<char>, x: char, rest: seq<char>)
    returns (f: nat, w: nat, p: nat)
    requires i <= |s| && s[i..] == ['%'] + a + b + c + [x] + rest
    ensures i + 1 <= f <= w <= p < |s| && s[i] == '%' && s[p] == x && s[p + 1..] == rest
    ensures s[i + 1..f] == a && s[f..w] == b && s[w..p] == c
  {
    Regroup(['%'], a, b, c, [x], rest);
    PeelOne(s, i, '%', a + (b + (c + ([x] + rest))));
    f := i + 1 + |a|;
    Peel(s, i + 1, a, b + (c + ([x] + rest)));
    w, p := PeelLast(s, f, b, c, x, rest);
  }

  lemma PeelLast(s: seq<char>, f: nat, b: seq<char>, c: seq<char>, x: char, rest: seq<char>) returns (w: nat, p: nat)
    requires f <= |s| && s[f..] == b + (c + ([x] + rest))
    ensures f <= w <= p < |s| && s[f..w] == b && s[w..p] == c && s[p] == x && s[p + 1..] == rest
  {
    Peel(s, f, b, c + ([x] + rest));
    w := f + |b|;
    Peel(s, w, c, [x] + rest);
    p := w + |c|;
    PeelOne(s, p, x, rest);
  }

  lemma PeelOne(s: seq<char>, i: nat, x: char, y: seq<char>)
    requires i <= |s| && s[i..] == [x] + y
    ensures i < |s| && s[i] == x && s[i + 1..] == y
  {
    assert s[i] == s[i..][0] && s[i + 1..] == s[i..][1..];
  }

  lemma Regroup(v: seq<char>, a: seq<char>, b: seq<char>, c: seq<char>, x: seq<char>, rest: seq<char>)
    ensures v + a + b + c + x + rest == v + (a + (b + (c + (x + rest))))
  {
  }

  lemma Peel(s: seq<char>, i: nat, x: seq<char>, y: seq<char>)
    requires i <= |s| && s[i..] == x + y
    ensures i + |x| <= |s| && s[i..i + |x|] == x && s[i + |x|..] == y
  {
    assert |s| - i == |x| + |y|;
    assert s[i..][..|x|] == x && s[i..][|x|..] == y;
  }

  /** Parsing what has been written gives the items back. */
  lemma {:induction false} ItemsOfWritten(s: CString, i: nat, items: seq<Item>)
    requires i <= |s| && s[i..] == WrittenAll(items) && forall x :: x in items ==> Writable(x)
    ensures Items(s, i) == items
    decreases |items|
  {
    if items == [] {
      assert i == |s|;
    } else {
      FirstWritten(s, i, items[0], items[1..]);
      assert items == [items[0]] + items[1..];
      hide Items, Written;
      var next := AfterWritten(s, i, items[0], WrittenAll(items[1..]));
      ItemsOfWritten(s, next, items[1..]);
    }
  }

  lemma FirstWritten(s: CString, i: nat, item: Item, rest: seq<Item>)
    requires i <= |s| && s[i..] == WrittenAll([item] + rest)
    ensures s[i..] == Written(item) + WrittenAll(rest)
  {
    assert ([item] + rest)[1..] == rest;
  }

  /** The item written at i is the first one parsed there, and next is where the rest starts. */
  lemma AfterWritten(s: CString, i: nat, item: Item, rest: seq<char>) returns (next: nat)
    requires i <= |s| && s[i..] == Written(item) + rest && Writable(item)
    ensures next <= |s| && s[next..] == rest && Items(s, i) == [item] + Items(s, next)
  {
    match item
    case Literal(c) =>
      LiteralWritten(s, i, c, rest);
      next := i + |Written(item)|;
    case Conversion(d) =>
      next := ConversionWritten(s, i, d, rest);
  }

  lemma ConversionWritten(s: CString, i: nat, d: Directive, rest: seq<char>) returns (next: nat)
    requires i <= |s| && s[i..] == Written(Conversion(d)) + rest && PlainSpec(d.spec)
    ensures next <= |s| && s[next..] == rest && Items(s, i) == [Conversion(d)] + Items(s, next)
  {
    hide Written, Parts, SpecAt, DirectiveAt, Items, PlainSpec;
    var f, w, p := WrittenParts(s, i, d, rest);
    Boundaries(s, i + 1, f, w, p, d);
    DirectiveFound(s, i + 1, f, w, p, d);
    ConversionItem(s, i, d, p);
    next := p + 1;
  }

  lemma LiteralWritten(s: CString, i: nat, c: char, rest: seq<char>)
    requires i <= |s| && s[i..] == Written(Literal(c)) + rest
    ensures i + |Written(Literal(c))| <= |s| && s[i + |Written(Literal(c))|..] == rest
    ensures Items(s, i) == [Literal(c)] + Items(s, i + |Written(Literal(c))|)
  {
    var t := s[i..];
    assert t[0] == s[i] && t[1..] == s[i + 1..];
    if c == '%' { assert t[1] == s[i + 1] && t[2..] == s[i + 2..]; }
  }

  lemma ConversionItem(s: CString, i: nat, d: Directive, e: nat)
    requires i + 1 < |s| && s[i] == '%' != s[i + 1] && e == SpecAt(s, i + 1) < |s| && DirectiveAt(s, i + 1) == d
    ensures Items(s, i) == [Conversion(d)] + Items(s, e + 1)
  {
    hide SpecAt, DirectiveAt;
  }

  /** Every list of writable items is the parse of a format. */
  lemma GrammarRoundTrip(items: seq<Item>)
    requires forall x :: x in items ==> Writable(x)
    ensures '\0' !in WrittenAll(items)
    ensures Items(WrittenAll(items), 0) == items
  {
    WrittenNoNul(items);
    var s: CString := WrittenAll(items);
    assert s[0..] == s;
    ItemsOfWritten(s, 0, items);
  }

  lemma {:induction false} WrittenNoNul(items: seq<Item>)
    requires forall x :: x in items ==> Writable(x)
    ensures '\0' !in WrittenAll(items)
  {
    if items != [] {
      WrittenNoNul(items[1..]);
      assert items[0] in items;
      if items[0].Conversion? {
        WidthDigits(items[0].d);
        hide Width;
        var s := Written(items[0]);
        assert '\0' !in Flags(items[0].d) && '\0' !in Width(items[0].d) && '\0' !in Length(items[0].d);
      }
    }
  }

  // ----- Every spelling of a directive -----

  /** From the '%' at i on, s holds flags up to f, a width up to w, a precision up to p, lengths up
      to e, and none of these parts goes on past its end. */
  ghost predicate Spelled(s: CString, i: nat, f: nat, w: nat, p: nat, e: nat) {
    && i < f <= w <= p <= e <= |s| && s[i] == '%'
    && (forall k :: i < k < f ==> s[k] == '-' || s[k] == '0')
    && (forall k :: f <= k < w ==> '0' <= s[k] <= '9')
    && (p > w ==> s[w] == '.' && forall k :: w < k < p ==> '0' <= s[k] <= '9')
    && (forall k :: p <= k < e ==> s[k] == 'h' || s[k] == 'l' || s[k] == 'z')
    && (f < |s| ==> s[f] != '-' && s[f] != '0')
    && (w < |s| ==> !('0' <= s[w] <= '9'))
    && (p < |s| ==> if p == w then s[p] != '.' else !('0' <= s[p] <= '9'))
    && (e < |s| ==> s[e] != 'h' && s[e] != 'l' && s[e] != 'z')
    && (i + 1 < |s| ==> s[i + 1] != '%')
  }

  /** The lexer stops where the parts end. */
  lemma SpelledEnds(s: CString, i: nat, f: nat, w: nat, p: nat, e: nat)
    requires Spelled(s, i, f, w, p, e)
    ensures FlagsEnd(s, i + 1) == f && DigitsEnd(s, f) == w && PrecisionEnd(s, w) == p && LengthEnd(s, p) == e
    ensures DecimalValue(s, f, w) == Value(s[f..w], 10)
  {
    FlagsSpan(s, i + 1, f);
    DigitsSpan(s, f, w);
    if p > w { DigitsSpan(s, w + 1, p); }
    LengthSpan(s, p, e);
    DecimalIsValue(s, f, w);
  }

  /** A directive in any spelling is read as what it says; one the format ends in is dropped. */
  lemma SpelledItem(s: CString, i: nat, f: nat, w: nat, p: nat, e: nat)
    requires Spelled(s, i, f, w, p, e)
    ensures e == |s| ==> Items(s, i) == []
    ensures e < |s| ==>
      var flags, width := s[i + 1..f], Value(s[f..w], 10);
      width >= 0 && Items(s, i) == [Conversion(Directive('-' in flags, '0' in flags, width, p < e, s[e]))] + Items(s, e + 1)
  {
    SpelledDirective(s, i, f, w, p, e);
    hide SpecAt, DirectiveAt, Value;
    if e < |s| { ConversionItem(s, i, DirectiveAt(s, i + 1), e); }
  }

  lemma SpelledDirective(s: CString, i: nat, f: nat, w: nat, p: nat, e: nat)
    requires Spelled(s, i, f, w, p, e)
    ensures i + 1 <= |s| && SpecAt(s, i + 1) == e
    ensures e < |s| ==>
      var flags, width := s[i + 1..f], Value(s[f..w], 10);
      width >= 0 && DirectiveAt(s, i + 1) == Directive('-' in flags, '0' in flags, width, p < e, s[e])
  {
    SpelledEnds(s, i, f, w, p, e);
    hide FlagsEnd, DigitsEnd, PrecisionEnd, LengthEnd, DecimalValue, Value;
  }

  /** Every directive is spelled in some way. */
  lemma EverySpelling(s: CString, i: nat) returns (f: nat, w: nat, p: nat, e: nat)
    requires i < |s| && s[i] == '%' && (i + 1 < |s| ==> s[i + 1] != '%')
    ensures Spelled(s, i, f, w, p, e)
  {
    f := FlagsEnd(s, i + 1);
    w := DigitsEnd(s, f);
    p := PrecisionEnd(s, w);
    e := LengthEnd(s, p);
    FlagsStretch(s, i + 1);
    DigitsStretch(s, f);
    if p > w { DigitsStretch(s, w + 1); }
    LengthStretch(s, p);
  }

  lemma {:induction false} FlagsStretch(s: CString, i: nat)
    requires i <= |s|
    ensures forall k :: i <= k < FlagsEnd(s, i) ==> s[k] == '-' || s[k] == '0'
    ensures FlagsEnd(s, i) < |s| ==> s[FlagsEnd(s, i)] != '-' && s[FlagsEnd(s, i)] != '0'
    decreases |s| - i
  {
    if i < |s| { FlagsStretch(s, i + 1); }
  }

  lemma {:induction false} LengthStretch(s: CString, i: nat)
    requires i <= |s|
    ensures forall k :: i <= k < LengthEnd(s, i) ==> s[k] == 'h' || s[k] == 'l' || s[k] == 'z'
    ensures LengthEnd(s, i) < |s| ==> s[LengthEnd(s, i)] != 'h' && s[LengthEnd(s, i)] != 'l' && s[LengthEnd(s, i)] != 'z'
    decreases |s| - i
  {
    if i < |s| { LengthStretch(s, i + 1); }
  }

  /** "%%" is read as one '%', and any other character outside a directive as itself. */
  lemma LiteralItem(s: CString, i: nat)
    requires i < |s|
    ensures s[i] != '%' ==> Items(s, i) == [Literal(s[i])] + Items(s, i + 1)
    ensures s[i] == '%' && i + 1 < |s| && s[i + 1] == '%' ==> Items(s, i) == [Literal('%')] + Items(s, i + 2)
  {
  }
}
