/** The integer and string types of the C sources, on x86-64. */
module CTypes {
  const INT_MAX: int := 0x7FFF_FFFF
  const LONG_MAX: int := 0x7FFF_FFFF_FFFF_FFFF

  type Int32 = x: int | -INT_MAX - 1 <= x <= INT_MAX
  type Int64 = x: int | -LONG_MAX - 1 <= x <= LONG_MAX
  type UInt32 = x: int | 0 <= x <= 0xFFFF_FFFF
  type UInt64 = x: int | 0 <= x <= 0xFFFF_FFFF_FFFF_FFFF
  type SizeT = UInt64

  /** The characters of a C string, without its terminating NUL. */
  type CString = s: seq<char> | '\0' !in s

  /** *(s + i), the terminating NUL included. */
  function At(s: CString, i: nat): char
    requires i <= |s|
  {
    if i < |s| then s[i] else '\0'
  }

  /** Conversion of a size_t to int, as two's-complement machines do it. */
  function ToInt32(v: nat): (r: Int32)
    ensures v <= INT_MAX ==> r == v
    ensures (v - r) % 0x1_0000_0000 == 0
  {
    var w := v % 0x1_0000_0000;
    if w <= INT_MAX then w else w - 0x1_0000_0000
  }

  function Min(a: int, b: int): int {
    if a <= b then a else b
  }

  predicate IsDigit(c: char) {
    '0' <= c <= '9'
  }

  function DigitValue(c: char): nat {
    if IsDigit(c) then c as int - '0' as int else 0
  }

  /** A string of n copies of c. */
  function Fill(c: char, n: nat): (s: seq<char>)
    ensures |s| == n
    ensures forall i :: 0 <= i < n ==> s[i] == c
  {
    seq(n, _ => c)
  }

  lemma AppendFirst<T>(a: seq<T>, x: T, b: seq<T>)
    ensures a + ([x] + b) == a + [x] + b
  {
  }
}
