/** The directive grammar both printf engines parse, what each engine makes of a format, and
    exactly when they agree. */
module Format {
  import opened CTypes
  import opened Numerals

  // ----- Grammar -----

  datatype Directive = Directive(left: bool, zero: bool, width: nat, long: bool, spec: char)

  datatype Item = Literal(c: char) | Conversion(d: Directive)

  predicate IsFlag(c: char) {
    c == '-' || c == '0'
  }

  predicate IsLength(c: char) {
    c == 'l' || c == 'h' || c == 'z'
  }

  function FlagsEnd(s: CString, i: nat): (e: nat)
    requires i <= |s|
    ensures i <= e <= |s|
    decreases |s| - i
  {
    if i < |s| && IsFlag(s[i]) then FlagsEnd(s, i + 1) else i
  }

  function DigitsEnd(s: CString, i: nat): (e: nat)
    requires i <= |s|
    ensures i <= e <= |s|
    decreases |s| - i
  {
    if i < |s| && IsDigit(s[i]) then DigitsEnd(s, i + 1) else i
  }

  function PrecisionEnd(s: CString, i: nat): (e: nat)
    requires i <= |s|
    ensures i <= e <= |s|
  {
    if i < |s| && s[i] == '.' then DigitsEnd(s, i + 1) else i
  }

  function LengthEnd(s: CString, i: nat): (e: nat)
    requires i <= |s|
    ensures i <= e <= |s|
    decreases |s| - i
  {
    if i < |s| && IsLength(s[i]) then LengthEnd(s, i + 1) else i
  }

  /** The number written by the digits s[i..e]. */
  function DecimalValue(s: CString, i: nat, e: nat): nat
    requires i <= e <= |s|
    decreases e
  {
    if i == e then 0 else 10 * DecimalValue(s, i, e - 1) + DigitValue(s[e - 1])
  }

  /** The position of the conversion character of the directive whose '%' is just before i. */
  function SpecAt(s: CString, i: nat): (e: nat)
    requires i <= |s|
    ensures i <= e <= |s|
  {
    LengthEnd(s, PrecisionEnd(s, DigitsEnd(s, FlagsEnd(s, i))))
  }

  function DirectiveAt(s: CString, i: nat): Directive
    requires i <= |s| && SpecAt(s, i) < |s|
  {
    var f := FlagsEnd(s, i);
    var w := DigitsEnd(s, f);
    var p := PrecisionEnd(s, w);
    var e := LengthEnd(s, p);
    Directive('-' in s[i..f], '0' in s[i..f], DecimalValue(s, f, w), p < e, s[e])
  }

  /** The items of a format from position i on; an unfinished directive at the end is dropped. */
  function Items(s: CString, i: nat): seq<Item>
    requires i <= |s|
    decreases |s| - i
  {
    if i == |s| then []
    else if s[i] != '%' then [Literal(s[i])] + Items(s, i + 1)
    else if i + 1 == |s| then []
    else if s[i + 1] == '%' then [Literal('%')] + Items(s, i + 2)
    else
      var e := SpecAt(s, i + 1);
      if e == |s| then [] else [Conversion(DirectiveAt(s, i + 1))] + Items(s, e + 1)
  }

  // ----- Arguments -----

  datatype Arg =
    | IntArg(i: Int32)
    | LongArg(l: Int64)
    | UIntArg(u: UInt32)
    | ULongArg(ul: UInt64)
    | PtrArg(p: UInt64)
    | StrArg(s: CString)
    | NullStr

  datatype ArgType = TInt | TLong | TUInt | TULong | TPtr | TStr

  predicate HasType(a: Arg, t: ArgType) {
    match t
    case TInt => a.IntArg?
    case TLong => a.LongArg?
    case TUInt => a.UIntArg?
    case TULong => a.ULongArg?
    case TPtr => a.PtrArg?
    case TStr => a.StrArg? || a.NullStr?
  }

  predicate IsSigned(spec: char) {
    spec == 'd' || spec == 'i'
  }

  predicate IsUnsigned(spec: char) {
    spec == 'u' || spec == 'x' || spec == 'X'
  }

  predicate TakesArg(d: Directive) {
    IsSigned(d.spec) || IsUnsigned(d.spec) || d.spec == 'p' || d.spec == 's' || d.spec == 'c'
  }

  /** The type va_arg is asked for. */
  function Wants(d: Directive): ArgType
    requires TakesArg(d)
  {
    if IsSigned(d.spec) then (if d.long then TLong else TInt)
    else if IsUnsigned(d.spec) then (if d.long then TULong else TUInt)
    else if d.spec == 'p' then TPtr
    else if d.spec == 's' then TStr
    else TInt
  }

  predicate Consumes(item: Item) {
    item.Conversion? && TakesArg(item.d)
  }

  function DemandOf(item: Item): seq<ArgType> {
    if Consumes(item) then [Wants(item.d)] else []
  }

  /** The argument types a format asks for, in order. */
  function Demand(items: seq<Item>): seq<ArgType> {
    if items == [] then [] else DemandOf(items[0]) + Demand(items[1..])
  }

  /** The argument list starts with what the directive asks for. */
  predicate Ready(d: Directive, args: seq<Arg>) {
    TakesArg(d) ==> args != [] && HasType(args[0], Wants(d))
  }

  predicate ItemReady(item: Item, args: seq<Arg>) {
    item.Conversion? ==> Ready(item.d, args)
  }

  /** The arguments left for the items after this one. */
  function After(item: Item, args: seq<Arg>): seq<Arg>
    requires ItemReady(item, args)
  {
    if Consumes(item) then args[1..] else args
  }

  /** The arguments are those the items ask for; more may follow. */
  predicate Matches(items: seq<Item>, args: seq<Arg>) {
    items == [] || (ItemReady(items[0], args) && Matches(items[1..], After(items[0], args)))
  }

  // ----- What a directive shows, before any padding -----

  function Decimal(v: nat): (s: seq<char>)
    ensures |s| >= 1
  {
    Numeral(v, 10, false)
  }

  function Hex(v: nat, upper: bool): (s: seq<char>)
    ensures |s| >= 1
  {
    Numeral(v, 16, upper)
  }

  function Unsigned(spec: char, v: nat): (s: seq<char>)
    ensures |s| >= 1
  {
    if spec == 'u' then Decimal(v) else Hex(v, spec == 'X')
  }

  function Signed(v: int): (s: seq<char>)
    ensures |s| >= 1
  {
    if v < 0 then ['-'] + Decimal(-v) else Decimal(v)
  }

  function SignedValue(a: Arg): Int64
    requires a.IntArg? || a.LongArg?
  {
    if a.IntArg? then a.i else a.l
  }

  function UnsignedValue(a: Arg): UInt64
    requires a.UIntArg? || a.ULongArg?
  {
    if a.UIntArg? then a.u else a.ul
  }

  function StringValue(a: Arg): CString
    requires a.StrArg? || a.NullStr?
  {
    if a.StrArg? then a.s else "(null)"
  }

  /** The character an int is cast to. */
  function CastChar(v: Int32): (c: char)
    ensures c as int < 256 && (v - c as int) % 256 == 0
  {
    (v % 256) as char
  }

  function Content(d: Directive, args: seq<Arg>): seq<char>
    requires Ready(d, args)
  {
    if IsSigned(d.spec) then Signed(SignedValue(args[0]))
    else if IsUnsigned(d.spec) then Unsigned(d.spec, UnsignedValue(args[0]))
    else if d.spec == 'p' then "0x" + Hex(args[0].p, false)
    else if d.spec == 's' then StringValue(args[0])
    else if d.spec == 'c' then [CastChar(args[0].i)]
    else ['%', d.spec]
  }

  // ----- The two engines' texts -----

  function Gap(width: int, len: nat): nat {
    if width > len then width - len else 0
  }

  function PadLeft(s: seq<char>, width: int, c: char): (r: seq<char>)
    ensures |r| == |s| + Gap(width, |s|)
  {
    Fill(c, Gap(width, |s|)) + s
  }

  function PadRight(s: seq<char>, width: int): (r: seq<char>)
    ensures |r| == |s| + Gap(width, |s|)
  {
    s + Fill(' ', Gap(width, |s|))
  }

  function PadChar(zero: bool): char {
    if zero then '0' else ' '
  }

  /** vsnprintf_internal pads every directive the same way. */
  function SnprintfPiece(d: Directive, args: seq<Arg>): seq<char>
    requires Ready(d, args)
  {
    var s := Content(d, args);
    if d.left then PadRight(s, d.width) else PadLeft(s, d.width, PadChar(d.zero))
  }

  /** emit_int_width: the sign goes out before the padding. */
  function EmitSigned(v: int, width: nat, zero: bool): seq<char> {
    if v < 0 then ['-'] + PadLeft(Decimal(-v), if width > 0 then width - 1 else 0, PadChar(zero))
    else PadLeft(Decimal(v), width, PadChar(zero))
  }

  /** vprintf pads by conversion: numbers on the left, strings with spaces, the rest not at all. */
  function PrintfPiece(d: Directive, args: seq<Arg>): seq<char>
    requires Ready(d, args)
  {
    if IsSigned(d.spec) then EmitSigned(SignedValue(args[0]), d.width, d.zero)
    else if IsUnsigned(d.spec) then PadLeft(Content(d, args), d.width, PadChar(d.zero))
    else if d.spec == 's' then
      (if d.left then PadRight(Content(d, args), d.width) else PadLeft(Content(d, args), d.width, ' '))
    else Content(d, args)
  }

  datatype Engine = Snprintf | Printf

  function Piece(engine: Engine, item: Item, args: seq<Arg>): seq<char>
    requires ItemReady(item, args)
  {
    if item.Literal? then [item.c]
    else if engine.Snprintf? then SnprintfPiece(item.d, args)
    else PrintfPiece(item.d, args)
  }

  /** The whole output of an engine. */
  function Text(engine: Engine, items: seq<Item>, args: seq<Arg>): seq<char>
    requires Matches(items, args)
  {
    if items == [] then []
    else Piece(engine, items[0], args) + Text(engine, items[1..], After(items[0], args))
  }

  // ----- Agreement -----

  /** The directives the two engines render alike. */
  predicate Agrees(d: Directive, args: seq<Arg>)
    requires Ready(d, args)
  {
    || d.width <= |Content(d, args)|
    || (IsUnsigned(d.spec) && !d.left)
    || (IsSigned(d.spec) && !d.left && SignedValue(args[0]) >= 0)
    || (d.spec == 's' && (d.left || !d.zero))
  }

  predicate AllAgree(items: seq<Item>, args: seq<Arg>)
    requires Matches(items, args)
  {
    items == [] ||
    (&& (items[0].Conversion? ==> Agrees(items[0].d, args))
     && AllAgree(items[1..], After(items[0], args)))
  }
}
