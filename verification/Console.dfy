/** The streaming printf engine and the output buffer it shares with puts. */
module Console {
  import opened CTypes
  import opened Numerals
  import opened Format
  import opened Parsing
  import opened Progress
  import opened Varargs
  import opened Snprintf
  import opened Agreement

  const OUTBUF_SIZE: nat := 256

  /** What vprintf writes for a format. */
  ghost function Printed(fmt: CString, args: seq<Arg>): seq<char>
    requires Matches(Items(fmt, 0), args)
  {
    Text(Engine.Printf, Items(fmt, 0), args)
  }

  class Stdout {
    const outbuf: array<char>
    var outlen: nat
    ghost var log: seq<char>       // everything written to file descriptor 1

    ghost predicate Valid()
      reads this, outbuf
    {
      outbuf.Length == OUTBUF_SIZE && outlen < OUTBUF_SIZE - 1
    }

    /** Everything emitted: what has reached the descriptor and what still waits in the buffer. */
    ghost function Emitted(): seq<char>
      requires Valid()
      reads this, outbuf
    {
      log + outbuf[..outlen]
    }

    constructor ()
      ensures Valid() && outlen == 0 && log == [] && fresh(outbuf)
    {
      outbuf := new char[OUTBUF_SIZE];
      outlen, log := 0, [];
    }

    /** The write system call on descriptor 1. */
    method Write(text: seq<char>)
      modifies `log
      ensures log == old(log) + text
    {
      log := log + text;
    }

    method Flush()
      requires outbuf.Length == OUTBUF_SIZE && outlen <= OUTBUF_SIZE
      modifies this
      ensures Valid() && outlen == 0 && log == old(log) + old(outbuf[..outlen])
    {
      if outlen > 0 {
        Write(outbuf[..outlen]);
        outlen := 0;
      }
    }

    method Emit(c: char)
      requires Valid()
      modifies this, outbuf
      ensures Valid() && Emitted() == old(Emitted()) + [c]
    {
      outbuf[outlen] := c;
      outlen := outlen + 1;
      assert outbuf[..outlen] == old(outbuf[..outlen]) + [c];
      if outlen >= OUTBUF_SIZE - 1 {
        Flush();
      }
    }

    method EmitStr(s: seq<char>)
      requires Valid()
      modifies this, outbuf
      ensures Valid() && Emitted() == old(Emitted()) + s
    {
      assert s[..0] == [];
      for i := 0 to |s|
        invariant Valid() && Emitted() == old(Emitted()) + s[..i]
      {
        Emit(s[i]);
        assert s[..i + 1] == s[..i] + [s[i]];
      }
      assert s[..|s|] == s;
    }

    /** while (pad--) emit(c) */
    method EmitRun(c: char, n: nat)
      requires Valid()
      modifies this, outbuf
      ensures Valid() && Emitted() == old(Emitted()) + Fill(c, n)
    {
      assert Fill(c, 0) == [];
      for i := 0 to n
        invariant Valid() && Emitted() == old(Emitted()) + Fill(c, i)
      {
        Emit(c);
        assert Fill(c, i + 1) == Fill(c, i) + [c];
      }
    }

    /** while (i--) emit(tmp[i]) */
    method EmitBackwards(tmp: array<char>, n: nat)
      requires Valid() && tmp != outbuf && n <= tmp.Length
      modifies this, outbuf
      ensures Valid() && Emitted() == old(Emitted()) + Reversed(tmp[..n])
    {
      var i := n;
      while i > 0
        invariant 0 <= i <= n && Valid()
        invariant Emitted() + Reversed(tmp[..i]) == old(Emitted()) + Reversed(tmp[..n])
      {
        i := i - 1;
        ghost var done := Emitted();
        assert tmp[..i + 1] == tmp[..i] + [tmp[i]];
        ReversedSnoc(tmp[..i], tmp[i]);
        Emit(tmp[i]);
        assert done + ([tmp[i]] + Reversed(tmp[..i])) == (done + [tmp[i]]) + Reversed(tmp[..i]);
      }
      assert tmp[..0] == [];
    }

    method EmitUintWidth(v: UInt64, base: Base, upper: bool, width: int, zeroPad: bool)
      requires Valid()
      modifies this, outbuf
      ensures Valid() && Emitted() == old(Emitted()) + PadLeft(Numeral(v, base, upper), width, PadChar(zeroPad))
    {
      hide Numeral;
      var tmp := new char[24];
      var i := FillDigits(tmp, v, base, upper);
      var padCount := width - i;
      ghost var text := Numeral(v, base, upper);
      ghost var start := Emitted();
      if padCount > 0 {
        EmitRun(if zeroPad then '0' else ' ', padCount);
      }
      EmitBackwards(tmp, i);
      assert Emitted() == start + PadLeft(text, width, PadChar(zeroPad));
    }

    method EmitIntWidth(v: Int64, width0: nat, zeroPad: bool)
      requires Valid()
      modifies this, outbuf
      ensures Valid() && Emitted() == old(Emitted()) + EmitSigned(v, width0, zeroPad)
    {
      hide Numeral, PadLeft, Emitted;
      var width := width0;
      if v < 0 {
        ghost var start := Emitted();
        Emit('-');
        if width > 0 { width := width - 1; }
        var magnitude: UInt64 := -(v + 1);
        EmitUintWidth(magnitude + 1, 10, false, width, zeroPad);
        ghost var negative: int := v;
        ghost var tail := PadLeft(Decimal(-negative), width, PadChar(zeroPad));
        assert Emitted() == (start + ['-']) + tail == start + (['-'] + tail);
      } else {
        EmitUintWidth(v, 10, false, width, zeroPad);
      }
    }

    /** The counting loop: while (*p++) len++. */
    method StringLength(s: CString) returns (len: Int32)
      requires |s| <= INT_MAX
      ensures len == |s|
    {
      len := 0;
      while At(s, len) != '\0'
        invariant 0 <= len <= |s|
        decreases |s| - len
      {
        len := len + 1;
      }
    }

    method EmitStrWidth(s: CString, width: Int32, leftAlign: bool)
      requires Valid() && |s| <= INT_MAX
      modifies this, outbuf
      ensures Valid() && Emitted() == old(Emitted()) + if leftAlign then PadRight(s, width) else PadLeft(s, width, ' ')
    {
      hide Emitted;
      var len := StringLength(s);
      ghost var start := Emitted();
      if !leftAlign && width > len {
        EmitRun(' ', width - len);
      }
      ghost var front := Emitted();
      EmitStr(s);
      if leftAlign && width > len {
        EmitRun(' ', width - len);
      }
      StringPadded(start, front, Emitted(), s, width, leftAlign);
    }

    /** The switch of vprintf. */
    method EmitDirective(d: Directive, ap: VaList)
      requires Valid() && ap.Valid() && Ready(d, ap.Rest()) && StringsFit(ap.Rest()) && d.width <= INT_MAX
      modifies this, outbuf, ap
      ensures Valid() && Emitted() == old(Emitted()) + PrintfPiece(d, old(ap.Rest()))
      ensures ap.Valid() && ap.Rest() == After(Conversion(d), old(ap.Rest()))
      ensures ap.asked == old(ap.asked) + DemandOf(Conversion(d))
    {
      hide Numeral, Emitted, EmitSigned, PadLeft, PadRight;
      if d.spec == 'd' || d.spec == 'i' {
        var v := ap.NextSigned(d.long);
        EmitIntWidth(v, d.width, d.zero);
      } else if d.spec == 'u' {
        var v := ap.NextUnsigned(d.long);
        EmitUintWidth(v, 10, false, d.width, d.zero);
      } else if d.spec == 'x' {
        var v := ap.NextUnsigned(d.long);
        EmitUintWidth(v, 16, false, d.width, d.zero);
      } else if d.spec == 'X' {
        var v := ap.NextUnsigned(d.long);
        EmitUintWidth(v, 16, true, d.width, d.zero);
      } else if d.spec == 'p' {
        var v := ap.NextPtr();
        EmitStr("0x");
        EmitUintWidth(v, 16, false, 0, false);
        PadNothing(Hex(v, false));
      } else if d.spec == 's' {
        var isNull, s := ap.NextStr();
        EmitStrWidth(if isNull then "(null)" else s, d.width, d.left);
      } else if d.spec == 'c' {
        var c := ap.NextInt();
        Emit(CastChar(c));
      } else {
        Emit('%');
        Emit(d.spec);
      }
    }

    // ----- vprintf -----

    /** From start vprintf has come to st; what it has emitted and the argument list say so. */
    ghost predicate Rendered(ap: VaList, start: State, st: State)
      requires Prepared(start)
      reads this, outbuf, ap
    {
      && Valid() && Reached(Engine.Printf, start, st) && Emitted() == st.out
      && ap.Valid() && ap.Rest() == st.args && ap.asked == st.asked
    }

    method PrintLiteral(c: char, ghost ap: VaList, ghost start: State, ghost st: State) returns (ghost st': State)
      requires Prepared(start) && Rendered(ap, start, st)
      requires st.todo != [] && st.todo[0] == Literal(c)
      modifies this, outbuf
      ensures Rendered(ap, start, st') && st'.todo == st.todo[1..] && st'.args == st.args
    {
      st' := Step(Engine.Printf, start, st);
      hide Reached, Prepared, Whole, Emitted;
      Emit(c);
    }

    method PrintDirective(d: Directive, ap: VaList, ghost start: State, ghost st: State) returns (ghost st': State)
      requires Prepared(start) && Rendered(ap, start, st)
      requires st.todo != [] && st.todo[0] == Conversion(d) && d.width <= INT_MAX && StringsFit(st.args)
      modifies this, outbuf, ap
      ensures Rendered(ap, start, st') && st'.todo == st.todo[1..] && StringsFit(st'.args)
    {
      hide Reached, Prepared, Whole, Emitted, PrintfPiece, HasType, Wants, StringsFit, After, DemandOf;
      st' := Step(Engine.Printf, start, st);
      StillFit(Conversion(d), st.args);
      EmitDirective(d, ap);
    }

    /** From a '%' on: parse a directive and print it, unless the format ends first. */
    method FormatDirective(fmt: CString, i: nat, ap: VaList, ghost start: State, ghost st: State)
      returns (finished: bool, i': nat, ghost st': State)
      requires Prepared(start) && Rendered(ap, start, st) && StringsFit(st.args)
      requires AtDirective(fmt, i) && Along(fmt, i, st)
      modifies this, outbuf, ap
      ensures Rendered(ap, start, st') && StringsFit(st'.args)
      ensures finished ==> i < i' && Along(fmt, i', st')
      ensures !finished ==> st'.todo == []
    {
      hide Rendered, Reached, Prepared, Whole, Items, WidthsFit, WidthAt, DecimalValue, StringsFit;
      hide SpecAt, DirectiveAt, FlagsEnd, DigitsEnd, PrecisionEnd, LengthEnd;
      DirectiveWidth(fmt, i);
      var d, e;
      finished, d, e := ParseDirective(fmt, i + 1);
      if finished {
        DirectiveItem(fmt, i, e, d);
        st' := PrintDirective(d, ap, start, st);
        i' := e + 1;
      } else {
        NoItem(fmt, i);
        i', st' := i, st;
      }
    }

    method FormatAll(fmt: CString, ap: VaList)
      requires Valid() && ap.Valid()
      requires WidthsFit(fmt, 0) && Matches(Items(fmt, 0), ap.Rest()) && StringsFit(ap.Rest())
      modifies this, outbuf, ap
      ensures Valid() && Emitted() == old(Emitted()) + Printed(fmt, old(ap.Rest()))
      ensures ap.Valid() && ap.asked == old(ap.asked) + Demand(Items(fmt, 0))
    {
      hide Rendered, Reached, Prepared, Matches, Items, Demand, Whole, WidthsFit, WidthAt, DecimalValue, Text;
      hide SpecAt, DirectiveAt, FlagsEnd, DigitsEnd, PrecisionEnd, LengthEnd, StringsFit;
      ghost var start := State(Items(fmt, 0), ap.Rest(), Emitted(), ap.asked);
      ghost var st := start;
      var i: nat, more := 0, true;
      NothingRendered(ap, start);
      while more && i < |fmt|
        invariant if more then Along(fmt, i, st) else st.todo == []
        invariant Prepared(start) && Rendered(ap, start, st) && StringsFit(st.args)
        decreases more, |fmt| - i
      {
        if fmt[i] != '%' {
          OrdinaryItem(fmt, i);
          st := PrintLiteral(fmt[i], ap, start, st);
          i := i + 1;
        } else if i + 1 == |fmt| {
          NoItem(fmt, i);
          more := false;
        } else if fmt[i + 1] == '%' {
          PercentItem(fmt, i);
          st := PrintLiteral('%', ap, start, st);
          i := i + 2;
        } else {
          more, i, st := FormatDirective(fmt, i, ap, start, st);
        }
      }
      if more { NoItem(fmt, i); }
      AllRendered(ap, start, st);
    }

    lemma NothingRendered(ap: VaList, start: State)
      requires Valid() && ap.Valid() && Matches(start.todo, start.args)
      requires start.args == ap.Rest() && start.asked == ap.asked && start.out == Emitted()
      ensures Prepared(start) && Rendered(ap, start, start)
    {
    }

    lemma AllRendered(ap: VaList, start: State, st: State)
      requires Prepared(start) && Rendered(ap, start, st) && st.todo == []
      ensures Matches(start.todo, start.args)
      ensures Valid() && Emitted() == start.out + Text(Engine.Printf, start.todo, start.args)
      ensures ap.Valid() && ap.asked == start.asked + Demand(start.todo)
    {
      Finished(Engine.Printf, start, st);
    }

    /** Nothing waits in the buffer: the state between public calls. */
    ghost predicate Idle()
      reads this, outbuf
    {
      Valid() && outlen == 0
    }

    /** vprintf works on a copy of the list: asked is what the copy was asked for, after what the
        caller's list had been asked for. */
    method Vprintf(fmt: CString, ap: VaList) returns (r: int, ghost asked: seq<ArgType>)
      requires Idle() && ap.Valid()
      requires WidthsFit(fmt, 0) && Matches(Items(fmt, 0), ap.Rest()) && StringsFit(ap.Rest())
      modifies this, outbuf
      ensures Idle() && log == old(log) + Printed(fmt, ap.Rest())
      ensures r == 0 && asked == ap.asked + Demand(Items(fmt, 0))
    {
      hide Items, Matches, WidthsFit, Demand, Printed, StringsFit;
      var ap2 := new VaList.Copy(ap);
      FormatAll(fmt, ap2);
      Flush();
      r, asked := 0, ap2.asked;
    }

    /** printf: the arguments after the format, as a fresh list. */
    method Printf(fmt: CString, args: seq<Arg>) returns (r: int)
      requires Idle() && WidthsFit(fmt, 0) && Matches(Items(fmt, 0), args) && StringsFit(args)
      modifies this, outbuf
      ensures Idle() && log == old(log) + Printed(fmt, args) && r == 0
    {
      hide Items, Matches, WidthsFit, Demand, Printed, StringsFit;
      var ap := new VaList(args);
      ghost var asked;
      r, asked := Vprintf(fmt, ap);
    }

    method Puts(s: CString) returns (r: int)
      requires Idle()
      modifies this, outbuf
      ensures Idle() && log == old(log) + s + ['\n'] && r == 0
    {
      EmitStr(s);
      Emit('\n');
      Flush();
      r := 0;
    }

    method Putchar(c: Int32) returns (r: Int32)
      requires Idle()
      modifies `log
      ensures log == old(log) + [CastChar(c)] && r == c
      ensures var b := log[|old(log)|] as int; b < 256 && (c - b) % 256 == 0
    {
      Write([CastChar(c)]);
      r := c;
    }

    /** fputs(s, stdout): fwrite goes straight to the descriptor, and does nothing for no bytes. */
    method Fputs(s: CString) returns (r: nat)
      requires Idle()
      modifies `log
      ensures log == old(log) + s && r == |s|
    {
      if |s| != 0 {
        Write(s);
      }
      r := |s|;
    }

    /** vfprintf(stdout): the text goes through a 1024-byte buffer and is written from there. */
    method Vfprintf(fmt: CString, ap: VaList) returns (n: Int32)
      requires Idle() && ap.Valid()
      requires WidthsFit(fmt, 0) && Matches(Items(fmt, 0), ap.Rest()) && Representable(ap.Rest())
      requires |Output(fmt, ap.Rest())| <= 1024
      modifies `log, ap
      ensures ap.Valid() && ap.asked == old(ap.asked) + Demand(Items(fmt, 0))
      ensures var text := Output(fmt, old(ap.Rest()));
        && n == |text|
        && log == old(log) + if n <= 1023 then text else text[..1023] + ['\0']
    {
      hide Items, Matches, WidthsFit, Output, Demand;
      ghost var text := Output(fmt, ap.Rest());
      var buf := new char[1024];
      n := Vsnprintf(buf, 1024, fmt, ap, true);
      if n > 0 {
        Write(buf[..n]);
      }
      assert buf[..n] == if n <= 1023 then text else text[..1023] + ['\0'];
    }

    /** fprintf(stdout) */
    method Fprintf(fmt: CString, args: seq<Arg>) returns (n: Int32)
      requires Idle() && WidthsFit(fmt, 0) && Matches(Items(fmt, 0), args) && Representable(args)
      requires |Output(fmt, args)| <= 1024
      modifies `log
      ensures n == |Output(fmt, args)|
      ensures log == old(log) + if n <= 1023 then Output(fmt, args) else Output(fmt, args)[..1023] + ['\0']
    {
      hide Items, Matches, WidthsFit, Output, Demand, Representable;
      var ap := new VaList(args);
      n := Vfprintf(fmt, ap);
    }

    method PerformOne(call: Call)
      requires Idle() && Allowed(call)
      modifies this, outbuf
      ensures Idle() && log == old(log) + Shown(call)
    {
      hide Items, Matches, WidthsFit, Output, Printed, Representable, StringsFit;
      match call
      case PrintCall(fmt, args) => var _ := Printf(fmt, args);
      case FilePrintCall(fmt, args) => var _ := Fprintf(fmt, args);
      case PutsCall(s) => var _ := Puts(s);
      case FputsCall(s) => var _ := Fputs(s);
      case PutcharCall(c) => var _ := Putchar(c);
    }

    /** Any sequence of public calls reaches the descriptor in call order, whole. */
    method Perform(calls: seq<Call>)
      requires Idle() && forall c :: c in calls ==> Allowed(c)
      modifies this, outbuf
      ensures Idle() && log == old(log) + ShownAll(calls)
    {
      hide Allowed, Shown;
      for i := 0 to |calls|
        invariant Idle() && log + ShownAll(calls[i..]) == old(log) + ShownAll(calls)
      {
        ghost var before := log;
        assert calls[i] in calls && calls[i..][0] == calls[i] && calls[i..][1..] == calls[i + 1..];
        PerformOne(calls[i]);
        assert (before + Shown(calls[i])) + ShownAll(calls[i + 1..]) == before + ShownAll(calls[i..]);
      }
    }
  }

  // ----- Runs of public calls -----

  datatype Call =
    | PrintCall(fmt: CString, args: seq<Arg>)
    | FilePrintCall(fmt: CString, args: seq<Arg>)
    | PutsCall(s: CString)
    | FputsCall(s: CString)
    | PutcharCall(c: Int32)

  /** The arguments fit the format; fprintf's text fits its buffer. */
  ghost predicate Allowed(call: Call) {
    match call
    case PrintCall(fmt, args) => WidthsFit(fmt, 0) && Matches(Items(fmt, 0), args) && StringsFit(args)
    case FilePrintCall(fmt, args) =>
      WidthsFit(fmt, 0) && Matches(Items(fmt, 0), args) && Representable(args) && |Output(fmt, args)| <= 1023
    case _ => true
  }

  ghost function Shown(call: Call): seq<char>
    requires Allowed(call)
  {
    match call
    case PrintCall(fmt, args) => Printed(fmt, args)
    case FilePrintCall(fmt, args) => Output(fmt, args)
    case PutsCall(s) => s + ['\n']
    case FputsCall(s) => s
    case PutcharCall(c) => [CastChar(c)]
  }

  ghost function ShownAll(calls: seq<Call>): seq<char>
    requires forall c :: c in calls ==> Allowed(c)
  {
    if calls == [] then [] else Shown(calls[0]) + ShownAll(calls[1..])
  }

  /** printf and fprintf(stdout) show the same bytes if and only if every directive agrees. */
  lemma PrintfAndFprintf(fmt: CString, args: seq<Arg>)
    requires Allowed(FilePrintCall(fmt, args))
    ensures Shown(PrintCall(fmt, args)) == Shown(FilePrintCall(fmt, args)) <==> AllAgree(Items(fmt, 0), args)
  {
    TextAgreement(Items(fmt, 0), args);
  }

  lemma StringPadded(start: seq<char>, front: seq<char>, end: seq<char>, s: seq<char>, width: int, left: bool)
    requires front == start + if !left && width > |s| then Fill(' ', width - |s|) else []
    requires end == front + s + if left && width > |s| then Fill(' ', width - |s|) else []
    ensures end == start + if left then PadRight(s, width) else PadLeft(s, width, ' ')
  {
  }

  lemma StillFit(item: Item, args: seq<Arg>)
    requires ItemReady(item, args) && StringsFit(args)
    ensures StringsFit(After(item, args))
  {
    assert forall a :: a in After(item, args) ==> a in args;
  }

  lemma PadNothing(s: seq<char>)
    ensures PadLeft(s, 0, ' ') == s
  {
  }
}
