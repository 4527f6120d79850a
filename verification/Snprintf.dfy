/** vsnprintf_internal: formatting into a bounded caller buffer. */
module Snprintf {
  import opened CTypes
  import opened Numerals
  import opened Format
  import opened Parsing
  import opened Progress
  import opened Varargs

  // ----- What truncation means -----

  /** before with the first of out's characters, at most limit of them, written over its front. */
  function Over(before: seq<char>, out: seq<char>, limit: nat): (s: seq<char>)
    requires Min(|out|, limit) <= |before|
    ensures |s| == |before|
  {
    out[..Min(|out|, limit)] + before[Min(|out|, limit)..]
  }

  /** The last index the engine may write a character to: size - 1, which wraps when size is 0. */
  function Limit(size: SizeT): SizeT {
    if size == 0 then 0xFFFF_FFFF_FFFF_FFFF else size - 1
  }

  /** The buffer after formatting out into it with the given size. */
  function Formatted(before: seq<char>, out: seq<char>, size: SizeT): seq<char>
    requires Min(|out|, Limit(size)) + (if size > 0 then 1 else 0) <= |before|
  {
    var s := Over(before, out, Limit(size));
    if size > 0 then s[Min(|out|, size - 1) := '\0'] else s
  }

  /** The string in a buffer: up to its first NUL. */
  function StringIn(s: seq<char>): CString {
    if s == [] || s[0] == '\0' then [] else [s[0]] + StringIn(s[1..])
  }

  /** With a size, the buffer holds the longest prefix that leaves room for the NUL, then the NUL,
      and nothing at or beyond size has changed. */
  lemma TruncatesToPrefix(before: seq<char>, out: seq<char>, size: SizeT)
    requires size >= 1 && Min(|out|, size - 1) < |before|
    ensures var s, m := Formatted(before, out, size), Min(|out|, size - 1);
      && |s| == |before| && s[..m] == out[..m] && s[m] == '\0'
      && (forall i :: m < i < |s| ==> s[i] == before[i])
      && (forall i :: size <= i < |s| ==> s[i] == before[i])
  {
  }

  lemma {:induction false} StringInPrefix(s: seq<char>, m: nat)
    requires m < |s| && s[m] == '\0' && '\0' !in s[..m]
    ensures StringIn(s) == s[..m]
  {
    if m > 0 {
      assert s[0] == s[..m][0] && s[1..][..m - 1] == s[..m][1..];
      StringInPrefix(s[1..], m - 1);
    }
  }

  /** Cutting a buffer short with a NUL leaves a prefix of the string in it. */
  lemma {:induction false} StringInCut(s: seq<char>, t: seq<char>, m: nat)
    requires m < |s| && m <= |t| && s[..m] == t[..m] && s[m] == '\0'
    ensures StringIn(s) <= StringIn(t)
  {
    if m > 0 {
      assert s[0] == s[..m][0] == t[..m][0] == t[0];
      assert s[1..][..m - 1] == s[..m][1..] == t[..m][1..] == t[1..][..m - 1];
      StringInCut(s[1..], t[1..], m - 1);
    }
  }

  /** A smaller size yields a prefix of what a larger one yields, in characters stored and in the
      strings in the buffers, whatever the output. */
  lemma SmallerIsPrefix(b1: seq<char>, b2: seq<char>, out: seq<char>, size1: SizeT, size2: SizeT)
    requires 1 <= size1 <= size2
    requires Min(|out|, size1 - 1) < |b1| && Min(|out|, size2 - 1) < |b2|
    ensures var m := Min(|out|, size1 - 1); Formatted(b1, out, size1)[..m] == Formatted(b2, out, size2)[..m]
    ensures StringIn(Formatted(b1, out, size1)) <= StringIn(Formatted(b2, out, size2))
    ensures '\0' !in out ==> StringIn(Formatted(b2, out, size2)) <= out
    ensures '\0' !in out && size2 > |out| ==> StringIn(Formatted(b2, out, size2)) == out
  {
    var s1, s2 := Formatted(b1, out, size1), Formatted(b2, out, size2);
    var m1, m2 := Min(|out|, size1 - 1), Min(|out|, size2 - 1);
    TruncatesToPrefix(b1, out, size1);
    TruncatesToPrefix(b2, out, size2);
    hide Formatted, StringIn;
    assert s2[..m1] == s2[..m2][..m1] == out[..m2][..m1] == out[..m1];
    StringInCut(s1, s2, m1);
    if '\0' !in out { StringInPrefix(s2, m2); }
  }

  /** The engine keeps within the first size elements when it is given a size, or has nothing to
      write; with size 0 the bound size - 1 wraps, and the whole output is stored. */
  lemma StaysInside(before: seq<char>, out: seq<char>, size: SizeT)
    requires Min(|out|, Limit(size)) + (if size > 0 then 1 else 0) <= |before|
    ensures size >= 1 || out == [] ==> forall i :: size <= i < |before| ==> Formatted(before, out, size)[i] == before[i]
    ensures size == 0 && |out| <= |before| && |out| <= 0xFFFF_FFFF_FFFF_FFFF ==>
      Formatted(before, out, size)[..|out|] == out
  {
  }

  // ----- Storing characters -----

  /** The caller's buffer, before at the start, has room for len characters of output. */
  ghost predicate Room(str: array<char>, size: SizeT, storing: bool, before: seq<char>, len: nat) {
    |before| == str.Length && (storing ==> Min(len, Limit(size)) <= |before|)
  }

  /** The caller's buffer holds what has been written so far. */
  ghost predicate Holds(str: array<char>, size: SizeT, storing: bool, before: seq<char>, out: seq<char>)
    requires Room(str, size, storing, before, |out|)
    reads str
  {
    str[..] == if storing then Over(before, out, Limit(size)) else before
  }

  /** if (do_write && str && pos < size - 1) str[pos] = c; pos++ -- storing is the conjunction of
      the first two tests. */
  method Put(str: array<char>, size: SizeT, storing: bool, pos: nat, c: char, ghost before: seq<char>, ghost out: seq<char>)
    returns (pos': nat)
    requires pos == |out| && Room(str, size, storing, before, pos + 1) && Holds(str, size, storing, before, out)
    modifies str
    ensures pos' == pos + 1 && Holds(str, size, storing, before, out + [c])
  {
    if storing && pos < Limit(size) {
      str[pos] := c;
      assert str[..] == Over(before, out + [c], Limit(size));
    }
    pos' := pos + 1;
  }

  /** A padding loop: n copies of c. */
  method PutRun(str: array<char>, size: SizeT, storing: bool, pos: nat, c: char, n: nat, ghost before: seq<char>, ghost out: seq<char>)
    returns (pos': nat)
    requires pos == |out| && Room(str, size, storing, before, pos + n) && Holds(str, size, storing, before, out)
    modifies str
    ensures pos' == pos + n && Holds(str, size, storing, before, out + Fill(c, n))
  {
    hide Over;
    pos' := pos;
    var pad := n;
    assert out + Fill(c, 0) == out;
    while pad > 0
      invariant 0 <= pad <= n && pos' == pos + (n - pad)
      invariant Holds(str, size, storing, before, out + Fill(c, n - pad))
    {
      assert (out + Fill(c, n - pad)) + [c] == out + Fill(c, n - pad + 1);
      pos' := Put(str, size, storing, pos', c, before, out + Fill(c, n - pad));
      pad := pad - 1;
    }
  }

  /** The content loop. */
  method PutAll(str: array<char>, size: SizeT, storing: bool, pos: nat, text: seq<char>, ghost before: seq<char>, ghost out: seq<char>)
    returns (pos': nat)
    requires pos == |out| && Room(str, size, storing, before, pos + |text|) && Holds(str, size, storing, before, out)
    modifies str
    ensures pos' == pos + |text| && Holds(str, size, storing, before, out + text)
  {
    hide Over;
    pos' := pos;
    assert out + text[..0] == out;
    for i := 0 to |text|
      invariant pos' == pos + i
      invariant Holds(str, size, storing, before, out + text[..i])
    {
      assert (out + text[..i]) + [text[i]] == out + text[..i + 1];
      pos' := Put(str, size, storing, pos', text[i], before, out + text[..i]);
    }
    assert text[..|text|] == text;
  }

  // ----- The text of one directive, built in a 64-byte buffer -----

  /** Write the digits in digits[..n] backwards into buf from position p on. */
  method CopyBack(digits: array<char>, n: nat, buf: array<char>, p: nat) returns (p': nat)
    requires n <= digits.Length && p + n <= buf.Length && digits != buf
    modifies buf
    ensures p' == p + n && buf[..p'] == old(buf[..p]) + Reversed(digits[..n])
  {
    p' := p;
    var i := n;
    while i > 0
      invariant 0 <= i <= n && p' == p + (n - i)
      invariant buf[..p'] + Reversed(digits[..i]) == old(buf[..p]) + Reversed(digits[..n])
    {
      i := i - 1;
      ghost var done := buf[..p'];
      assert digits[..i + 1] == digits[..i] + [digits[i]];
      ReversedSnoc(digits[..i], digits[i]);
      buf[p'] := digits[i];
      p' := p' + 1;
      assert buf[..p'] == done + [digits[i]];
      assert done + ([digits[i]] + Reversed(digits[..i])) == (done + [digits[i]]) + Reversed(digits[..i]);
    }
    assert digits[..0] == [];
  }

  method SignedContent(v0: Int64) returns (text: seq<char>)
    requires v0 > -LONG_MAX - 1
    ensures text == Signed(v0) && |text| <= 21
  {
    var tmp := new char[64];
    var v: Int64, p := v0, 0;
    if v < 0 {
      tmp[p] := '-';
      p := p + 1;
      v := -(v + 1) + 1;
    }
    var digits := new char[24];
    var i := FillDigits(digits, v, 10, false);
    assert tmp[..p] == if v0 < 0 then ['-'] else [];
    ReversedLength(digits[..i]);
    p := CopyBack(digits, i, tmp, p);
    return tmp[..p];
  }

  method UnsignedContent(v: UInt64, base: Base, upper: bool, prefix: seq<char>) returns (text: seq<char>)
    requires |prefix| <= 2
    ensures text == prefix + Numeral(v, base, upper) && |text| <= 22
  {
    var tmp := new char[64];
    var p := 0;
    while p < |prefix|
      invariant p <= |prefix| && tmp[..p] == prefix[..p]
    {
      tmp[p] := prefix[p];
      p := p + 1;
    }
    var digits := new char[24];
    var i := FillDigits(digits, v, base, upper);
    ReversedLength(digits[..i]);
    p := CopyBack(digits, i, tmp, p);
    return tmp[..p];
  }

  /** Values the engine can negate, strings whose length is an int. */
  predicate Representable(args: seq<Arg>) {
    StringsFit(args) && forall a :: a in args && a.LongArg? ==> a.l > -LONG_MAX - 1
  }

  /** The switch: take what the conversion asks for, and make its text. */
  method BuildContent(d: Directive, ap: VaList) returns (text: seq<char>)
    requires ap.Valid() && Ready(d, ap.Rest()) && Representable(ap.Rest())
    modifies ap
    ensures text == Content(d, old(ap.Rest())) && |text| <= INT_MAX
    ensures ap.Valid() && ap.Rest() == After(Conversion(d), old(ap.Rest()))
    ensures ap.asked == old(ap.asked) + DemandOf(Conversion(d))
  {
    hide Signed, Unsigned, Hex, Numeral;
    if d.spec == 'd' || d.spec == 'i' {
      var v := ap.NextSigned(d.long);
      text := SignedContent(v);
    } else if d.spec == 'u' || d.spec == 'x' || d.spec == 'X' {
      var v := ap.NextUnsigned(d.long);
      text := UnsignedContent(v, if d.spec == 'u' then 10 else 16, d.spec == 'X', "");
      UnsignedText(d.spec, v);
    } else if d.spec == 'p' {
      var v := ap.NextPtr();
      text := UnsignedContent(v, 16, false, "0x");
      UnsignedText('x', v);
    } else if d.spec == 's' {
      var isNull, s := ap.NextStr();
      text := if isNull then "(null)" else s;
    } else if d.spec == 'c' {
      var c := ap.NextInt();
      text := [CastChar(c)];
    } else {
      text := ['%', d.spec];
    }
  }

  lemma UnsignedText(spec: char, v: nat)
    ensures Unsigned(spec, v) == Numeral(v, if spec == 'u' then 10 else 16, spec == 'X')
    ensures spec != 'u' ==> Unsigned(spec, v) == Hex(v, spec == 'X')
  {
  }

  /** Padding on one side or the other, and the content. */
  method PutPadded(str: array<char>, size: SizeT, storing: bool, pos: nat, toWrite: seq<char>, left: bool, zero: bool,
                   width: Int32, ghost before: seq<char>, ghost out: seq<char>, ghost piece: seq<char>)
    returns (pos': nat)
    requires pos == |out| && |toWrite| <= INT_MAX
    requires piece == if left then PadRight(toWrite, width) else PadLeft(toWrite, width, PadChar(zero))
    requires Room(str, size, storing, before, pos + |piece|) && Holds(str, size, storing, before, out)
    modifies str
    ensures pos' == pos + |piece| && Holds(str, size, storing, before, out + piece)
  {
    hide Over, Holds;
    var tmpLen: Int32 := |toWrite|;
    ghost var done := out;
    pos' := pos;
    if !left && width > tmpLen {
      pos' := PutRun(str, size, storing, pos', if zero then '0' else ' ', width - tmpLen, before, done);
      done := done + Fill(PadChar(zero), width - tmpLen);
    }
    pos' := PutAll(str, size, storing, pos', toWrite, before, done);
    done := done + toWrite;
    if left && width > tmpLen {
      pos' := PutRun(str, size, storing, pos', ' ', width - tmpLen, before, done);
      done := done + Fill(' ', width - tmpLen);
    }
    assert done == out + piece;
  }

  // ----- The main loop -----

  ghost function Output(fmt: CString, args: seq<Arg>): seq<char>
    requires Matches(Items(fmt, 0), args)
  {
    Text(Engine.Snprintf, Items(fmt, 0), args)
  }

  /** From start the engine has come to st; the buffer and the argument list say so. */
  ghost predicate Rendered(str: array<char>, size: SizeT, storing: bool, before: seq<char>,
                           ap: VaList, pos: nat, start: State, st: State)
    requires Prepared(start) && Room(str, size, storing, before, |Whole(Engine.Snprintf, start)|)
    reads str, ap
  {
    && Reached(Engine.Snprintf, start, st)
    && ap.Valid() && ap.Rest() == st.args && ap.asked == st.asked
    && pos == |st.out| <= |Whole(Engine.Snprintf, start)|
    && Holds(str, size, storing, before, st.out)
  }

  /** An ordinary character, or the '%' of "%%". */
  method PutLiteral(str: array<char>, size: SizeT, storing: bool, pos: nat, c: char, ghost before: seq<char>,
                    ghost ap: VaList, ghost start: State, ghost st: State)
    returns (pos': nat, ghost st': State)
    requires Prepared(start) && Room(str, size, storing, before, |Whole(Engine.Snprintf, start)|)
    requires Rendered(str, size, storing, before, ap, pos, start, st)
    requires st.todo != [] && st.todo[0] == Literal(c)
    modifies str
    ensures Rendered(str, size, storing, before, ap, pos', start, st')
    ensures st'.todo == st.todo[1..] && st'.args == st.args
  {
    st' := Step(Engine.Snprintf, start, st);
    hide Reached, Prepared, Whole, Holds;
    pos' := Put(str, size, storing, pos, c, before, st.out);
  }

  /** Padding and content of one directive. */
  method PutDirective(str: array<char>, size: SizeT, storing: bool, pos: nat, d: Directive, ghost before: seq<char>,
                      ap: VaList, ghost start: State, ghost st: State)
    returns (pos': nat, ghost st': State)
    requires Prepared(start) && Room(str, size, storing, before, |Whole(Engine.Snprintf, start)|)
    requires Rendered(str, size, storing, before, ap, pos, start, st)
    requires st.todo != [] && st.todo[0] == Conversion(d) && d.width <= INT_MAX && Representable(st.args)
    modifies str, ap
    ensures Rendered(str, size, storing, before, ap, pos', start, st')
    ensures st'.todo == st.todo[1..] && Representable(st'.args)
  {
    st' := Step(Engine.Snprintf, start, st);
    ghost var piece := SnprintfPiece(d, st.args);
    assert st'.out == st.out + piece;
    StillRepresentable(Conversion(d), st.args);
    hide Reached, Prepared, Whole, Holds, Content, Representable, After, DemandOf;
    var toWrite := BuildContent(d, ap);
    pos' := PutPadded(str, size, storing, pos, toWrite, d.left, d.zero, d.width, before, st.out, piece);
  }

  lemma StillRepresentable(item: Item, args: seq<Arg>)
    requires ItemReady(item, args) && Representable(args)
    ensures Representable(After(item, args))
  {
    assert forall a :: a in After(item, args) ==> a in args;
  }

  /** From a '%' on: parse a directive and render it, unless the format ends first. */
  method FormatDirective(str: array<char>, size: SizeT, storing: bool, fmt: CString, i: nat, pos: nat, ghost before: seq<char>,
                         ap: VaList, ghost start: State, ghost st: State)
    returns (finished: bool, i': nat, pos': nat, ghost st': State)
    requires Prepared(start) && Room(str, size, storing, before, |Whole(Engine.Snprintf, start)|)
    requires Rendered(str, size, storing, before, ap, pos, start, st) && Representable(st.args)
    requires AtDirective(fmt, i) && Along(fmt, i, st)
    modifies str, ap
    ensures Rendered(str, size, storing, before, ap, pos', start, st') && Representable(st'.args)
    ensures finished ==> i < i' && Along(fmt, i', st')
    ensures !finished ==> st'.todo == []
  {
    hide Rendered, Reached, Holds, Room, Prepared, Items, Whole, WidthsFit, WidthAt, DecimalValue;
    hide SpecAt, DirectiveAt, FlagsEnd, DigitsEnd, PrecisionEnd, LengthEnd, Representable;
    DirectiveWidth(fmt, i);
    var d, e;
    finished, d, e := ParseDirective(fmt, i + 1);
    if finished {
      DirectiveItem(fmt, i, e, d);
      pos', st' := PutDirective(str, size, storing, pos, d, before, ap, start, st);
      i' := e + 1;
    } else {
      NoItem(fmt, i);
      i', pos', st' := i, pos, st;
    }
  }

  method FormatAll(str: array<char>, size: SizeT, fmt: CString, ap: VaList, storing: bool, ghost before: seq<char>)
    returns (pos: nat)
    requires ap.Valid() && WidthsFit(fmt, 0) && Matches(Items(fmt, 0), ap.Rest()) && Representable(ap.Rest())
    requires Room(str, size, storing, before, |Output(fmt, ap.Rest())|) && before == str[..]
    modifies str, ap
    ensures pos == |Output(fmt, old(ap.Rest()))|
    ensures ap.Valid() && ap.asked == old(ap.asked) + Demand(Items(fmt, 0))
    ensures Holds(str, size, storing, before, Output(fmt, old(ap.Rest())))
  {
    hide Rendered, Reached, Holds, Room, Prepared, Matches, Items, Whole, Text, Demand, WidthsFit, WidthAt, DecimalValue;
    hide SpecAt, DirectiveAt, FlagsEnd, DigitsEnd, PrecisionEnd, LengthEnd, Representable;
    ghost var start := State(Items(fmt, 0), ap.Rest(), [], ap.asked);
    ghost var st := start;
    var i: nat, more := 0, true;
    pos := 0;
    NothingRendered(str, size, storing, before, ap, start);
    while more && i < |fmt|
      invariant if more then Along(fmt, i, st) else st.todo == []
      invariant Prepared(start) && Room(str, size, storing, before, |Whole(Engine.Snprintf, start)|)
      invariant Rendered(str, size, storing, before, ap, pos, start, st) && Representable(st.args)
      decreases more, |fmt| - i
    {
      if fmt[i] != '%' {
        OrdinaryItem(fmt, i);
        pos, st := PutLiteral(str, size, storing, pos, fmt[i], before, ap, start, st);
        i := i + 1;
      } else if i + 1 == |fmt| {
        NoItem(fmt, i);
        more := false;
      } else if fmt[i + 1] == '%' {
        PercentItem(fmt, i);
        pos, st := PutLiteral(str, size, storing, pos, '%', before, ap, start, st);
        i := i + 2;
      } else {
        more, i, pos, st := FormatDirective(str, size, storing, fmt, i, pos, before, ap, start, st);
      }
    }
    if more { NoItem(fmt, i); }
    AllRendered(str, size, storing, before, ap, pos, start, st);
  }

  lemma NothingRendered(str: array<char>, size: SizeT, storing: bool, before: seq<char>, ap: VaList, start: State)
    requires Matches(start.todo, start.args) && start.out == [] && before == str[..]
    requires Room(str, size, storing, before, |Text(Engine.Snprintf, start.todo, start.args)|)
    requires ap.Valid() && ap.Rest() == start.args && ap.asked == start.asked
    ensures Prepared(start) && Room(str, size, storing, before, |Whole(Engine.Snprintf, start)|)
    ensures Rendered(str, size, storing, before, ap, 0, start, start)
  {
  }

  lemma AllRendered(str: array<char>, size: SizeT, storing: bool, before: seq<char>,
                    ap: VaList, pos: nat, start: State, st: State)
    requires Prepared(start) && Room(str, size, storing, before, |Whole(Engine.Snprintf, start)|)
    requires Rendered(str, size, storing, before, ap, pos, start, st) && st.todo == [] && start.out == []
    ensures Matches(start.todo, start.args)
    ensures ap.Valid() && ap.asked == start.asked + Demand(start.todo)
    ensures var text := Text(Engine.Snprintf, start.todo, start.args);
      pos == |text| && Room(str, size, storing, before, |text|) && Holds(str, size, storing, before, text)
  {
    Finished(Engine.Snprintf, start, st);
    assert [] + Text(Engine.Snprintf, start.todo, start.args) == Text(Engine.Snprintf, start.todo, start.args);
  }

  method Vsnprintf(str: array?<char>, size: SizeT, fmt: CString, ap: VaList, doWrite: bool) returns (r: Int32)
    requires ap.Valid() && WidthsFit(fmt, 0) && Matches(Items(fmt, 0), ap.Rest()) && Representable(ap.Rest())
    requires doWrite && str != null ==>
      Min(|Output(fmt, ap.Rest())|, Limit(size)) + (if size > 0 then 1 else 0) <= str.Length
    modifies ap, if str == null then {} else {str}
    ensures var n := |Output(fmt, old(ap.Rest()))|;
      (n <= INT_MAX ==> r == n) && (n - r) % 0x1_0000_0000 == 0
    ensures ap.Valid() && ap.asked == old(ap.asked) + Demand(Items(fmt, 0))
    ensures doWrite && str != null ==> str[..] == Formatted(old(str[..]), Output(fmt, old(ap.Rest())), size)
    ensures !doWrite && str != null ==> str[..] == old(str[..])
  {
    hide Output, Items, Matches, WidthsFit, Demand;
    var pos;
    if str == null {
      var none := new char[0];
      pos := FormatAll(none, size, fmt, ap, false, none[..]);
    } else {
      pos := FormatAll(str, size, fmt, ap, doWrite, str[..]);
      if doWrite && size > 0 {
        str[if pos < size - 1 then pos else size - 1] := '\0';
      }
    }
    r := ToInt32(pos);
  }

  /** snprintf: the arguments after the format, as a fresh list. */
  method Snprintf(str: array?<char>, size: SizeT, fmt: CString, args: seq<Arg>) returns (r: Int32)
    requires WidthsFit(fmt, 0) && Matches(Items(fmt, 0), args) && Representable(args)
    requires str != null ==> Min(|Output(fmt, args)|, Limit(size)) + (if size > 0 then 1 else 0) <= str.Length
    modifies if str == null then {} else {str}
    ensures var n := |Output(fmt, args)|;
      (n <= INT_MAX ==> r == n) && (n - r) % 0x1_0000_0000 == 0
    ensures str != null ==> str[..] == Formatted(old(str[..]), Output(fmt, args), size)
  {
    hide Output, Items, Matches, WidthsFit, Demand, Formatted;
    var ap := new VaList(args);
    r := Vsnprintf(str, size, fmt, ap, true);
  }
}
