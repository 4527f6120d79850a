/** Byte-addressed memory as the allocator sees it: little-endian words inside a byte string. */
module Memory {
  type byte = x: int | 0 <= x < 256

  const SIZE_MAX: nat := 0xFFFF_FFFF_FFFF_FFFF

  /** 256 to the power n. */
  function Radix(n: nat): (r: nat)
    ensures r > 0
  {
    if n == 0 then 1 else 256 * Radix(n - 1)
  }

  function Decode(bs: seq<byte>): nat {
    if bs == [] then 0 else bs[0] + 256 * Decode(bs[1..])
  }

  function Encode(v: nat, n: nat): (bs: seq<byte>)
    ensures |bs| == n
  {
    if n == 0 then [] else [v % 256] + Encode(v / 256, n - 1)
  }

  /** Storing a value and loading it back gives the value, when it fits the cell. */
  lemma {:induction false} DecodeEncode(v: nat, n: nat)
    requires v < Radix(n)
    ensures Decode(Encode(v, n)) == v
  {
    if n > 0 {
      DecodeEncode(v / 256, n - 1);
      assert Encode(v, n)[1..] == Encode(v / 256, n - 1);
    }
  }

  lemma RadixOfCells()
    ensures Radix(4) == 0x1_0000_0000
    ensures Radix(8) == SIZE_MAX + 1
  {
    assert Radix(2) == 0x1_0000;
    assert Radix(4) == 0x1_0000_0000;
    assert Radix(6) == 0x1_0000_0000_0000;
  }

  /** The value of the n-byte cell at address a. */
  function Load(m: seq<byte>, a: nat, n: nat): nat
    requires a + n <= |m|
  {
    Decode(m[a..a + n])
  }

  /** bs with the byte v at position i. */
  function Poked(bs: seq<byte>, i: nat, v: byte): (r: seq<byte>)
    requires i < |bs|
    ensures r == bs[i := v]
  {
    bs[..i] + [v] + bs[i + 1..]
  }

  /** m and m' agree on the addresses in [lo, hi). */
  ghost predicate SameOn(m: seq<byte>, m': seq<byte>, lo: int, hi: int) {
    |m| == |m'| && forall i :: lo <= i < hi && 0 <= i < |m| ==> m[i] == m'[i]
  }

  lemma LoadFrame(m: seq<byte>, m': seq<byte>, a: nat, n: nat)
    requires a + n <= |m|
    requires SameOn(m, m', a, a + n)
    ensures m[a..a + n] == m'[a..a + n]
    ensures Load(m, a, n) == Load(m', a, n)
  {
    assert m[a..a + n] == m'[a..a + n];
  }

  lemma PokeSlice(m: seq<byte>, lo: nat, hi: nat, i: nat, v: byte)
    requires lo + i < hi <= |m|
    ensures m[lo + i := v][lo..hi] == Poked(m[lo..hi], i, v)
  {
  }

  lemma CopySlice(m: seq<byte>, m': seq<byte>, src: nat, dst: nat, n: nat, size: nat)
    requires n <= size && src + n <= |m| && dst + size <= |m'|
    requires m'[dst..dst + n] == m[src..src + n]
    ensures m[src..src + n] <= m'[dst..dst + size]
  {
    assert m'[dst..dst + size][..n] == m'[dst..dst + n];
  }
}
