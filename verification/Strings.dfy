/** memmove over overlapping areas, strstr, and the comparison functions. */
module Strings {
  import opened CTypes
  import opened Memory

  // ----- memmove -----

  /** The n bytes at src copied to dst all at once. */
  function Moved(m: seq<byte>, dst: nat, src: nat, n: nat): seq<byte>
    requires dst + n <= |m| && src + n <= |m|
  {
    m[..dst] + m[src..src + n] + m[dst + n..]
  }

  /** The loop for a destination below the source. */
  method CopyForward(a: array<byte>, dst: nat, src: nat, n: nat)
    requires dst <= src && src + n <= a.Length
    modifies a
    ensures a[..] == Moved(old(a[..]), dst, src, n)
  {
    for i := 0 to n
      invariant forall k :: 0 <= k < dst || dst + i <= k < a.Length ==> a[k] == old(a[k])
      invariant a[dst..dst + i] == old(a[src..src + i])
    {
      a[dst + i] := a[src + i];
    }
  }

  /** The loop for a destination at or above the source. */
  method CopyBackward(a: array<byte>, dst: nat, src: nat, n: nat)
    requires src <= dst && dst + n <= a.Length
    modifies a
    ensures a[..] == Moved(old(a[..]), dst, src, n)
  {
    for i := n downto 0
      invariant forall k :: 0 <= k < dst + i || dst + n <= k < a.Length ==> a[k] == old(a[k])
      invariant a[dst + i..dst + n] == old(a[src + i..src + n])
    {
      a[dst + i] := a[src + i];
      assert a[dst + i..dst + n] == [a[dst + i]] + a[dst + i + 1..dst + n];
    }
  }

  method Memmove(a: array<byte>, dst: nat, src: nat, n: nat)
    requires dst + n <= a.Length && src + n <= a.Length
    modifies a
    ensures a[..] == Moved(old(a[..]), dst, src, n)
    ensures forall i :: dst <= i < dst + n ==> a[i] == old(a[src + (i - dst)])
    ensures forall i :: 0 <= i < a.Length && !(dst <= i < dst + n) ==> a[i] == old(a[i])
  {
    MovedBytes(a[..], dst, src, n);
    if dst < src {
      CopyForward(a, dst, src, n);
    } else {
      CopyBackward(a, dst, src, n);
    }
    hide Moved;
    assert forall i :: 0 <= i < a.Length ==> a[i] == a[..][i];
  }

  /** Byte by byte: the copy of the area, and everything else as it was. */
  lemma MovedBytes(m: seq<byte>, dst: nat, src: nat, n: nat)
    requires dst + n <= |m| && src + n <= |m|
    ensures var r := Moved(m, dst, src, n);
      && |r| == |m|
      && (forall i :: dst <= i < dst + n ==> r[i] == m[src + (i - dst)])
      && forall i :: 0 <= i < |m| && !(dst <= i < dst + n) ==> r[i] == m[i]
  {
  }

  // ----- strstr -----

  datatype Found = NotFound | FoundAt(pos: nat)

  ghost predicate OccursAt(hay: CString, needle: CString, i: nat) {
    i + |needle| <= |hay| && hay[i..i + |needle|] == needle
  }

  lemma Mismatch(hay: CString, needle: CString, h: nat, k: nat)
    requires h + k <= |hay| && k < |needle| && (h + k == |hay| || hay[h + k] != needle[k])
    ensures !OccursAt(hay, needle, h)
  {
    if h + |needle| <= |hay| { assert hay[h..h + |needle|][k] == hay[h + k]; }
  }

  method Strstr(hay: CString, needle: CString) returns (r: Found)
    ensures r.FoundAt? ==> OccursAt(hay, needle, r.pos) && forall i: nat :: i < r.pos ==> !OccursAt(hay, needle, i)
    ensures r.NotFound? <==> forall i: nat :: !OccursAt(hay, needle, i)
  {
    if needle == [] {
      assert OccursAt(hay, needle, 0);
      return FoundAt(0);
    }
    for h := 0 to |hay|
      invariant forall i: nat :: i < h ==> !OccursAt(hay, needle, i)
    {
      var k := 0;
      while h + k < |hay| && k < |needle| && hay[h + k] == needle[k]
        invariant 0 <= k <= |needle| && h + k <= |hay| && hay[h..h + k] == needle[..k]
      {
        assert hay[h..h + k + 1] == hay[h..h + k] + [hay[h + k]] && needle[..k + 1] == needle[..k] + [needle[k]];
        k := k + 1;
      }
      if k == |needle| {
        assert needle[..k] == needle;
        assert OccursAt(hay, needle, h);
        return FoundAt(h);
      }
      Mismatch(hay, needle, h, k);
    }
    return NotFound;
  }

  // ----- Comparison -----

  /** A C string as unsigned bytes, without its NUL. */
  type Bytes = s: seq<byte> | 0 !in s

  function ByteAt(s: Bytes, i: nat): byte
    requires i <= |s|
  {
    if i < |s| then s[i] else 0
  }

  /** The difference at the first place where the strings, with their NULs, differ. */
  function Compare(a: seq<byte>, b: seq<byte>): int {
    if a == [] && b == [] then 0
    else if a == [] then -(b[0] as int)
    else if b == [] then a[0]
    else if a[0] != b[0] then a[0] - b[0]
    else Compare(a[1..], b[1..])
  }

  method Strcmp(a: Bytes, b: Bytes) returns (r: int)
    ensures r == Compare(a, b)
  {
    var i := 0;
    while ByteAt(a, i) != 0 && i <= |b| && ByteAt(a, i) == ByteAt(b, i)
      invariant 0 <= i <= |a| && i <= |b| && Compare(a[i..], b[i..]) == Compare(a, b)
      decreases |a| - i
    {
      assert a[i..][1..] == a[i + 1..] && b[i..][1..] == b[i + 1..];
      i := i + 1;
    }
    return ByteAt(a, i) - ByteAt(b, i);
  }

  /** strncmp compares the strings cut to n characters. */
  method Strncmp(a: Bytes, b: Bytes, n: nat) returns (r: int)
    ensures r == Compare(a[..Min(n, |a|)], b[..Min(n, |b|)])
  {
    ghost var x, y := a[..Min(n, |a|)], b[..Min(n, |b|)];
    for i := 0 to n
      invariant i <= |a| && i <= |b| && Compare(x[i..], y[i..]) == Compare(x, y)
    {
      if ByteAt(a, i) != ByteAt(b, i) {
        return ByteAt(a, i) - ByteAt(b, i);
      }
      if ByteAt(a, i) == 0 {
        return 0;
      }
      assert x[i..][1..] == x[i + 1..] && y[i..][1..] == y[i + 1..];
    }
    return 0;
  }

  /** memcmp over n bytes. */
  method Memcmp(a: seq<byte>, b: seq<byte>, n: nat) returns (r: int)
    requires n <= |a| && n <= |b|
    ensures r == Compare(a[..n], b[..n])
  {
    for i := 0 to n
      invariant Compare(a[i..n], b[i..n]) == Compare(a[..n], b[..n])
    {
      if a[i] != b[i] {
        var x: int, y: int := a[i], b[i];
        return x - y;
      }
      assert a[i..n][1..] == a[i + 1..n] && b[i..n][1..] == b[i + 1..n];
    }
    return 0;
  }

  /** a is below b in dictionary order. */
  ghost predicate Below(a: seq<byte>, b: seq<byte>) {
    exists k: nat :: FirstDifference(a, b, k) && (k == |a| || a[k] < b[k])
  }

  ghost predicate FirstDifference(a: seq<byte>, b: seq<byte>, k: nat) {
    k <= |a| && k < |b| && a[..k] == b[..k]
  }

  /** The sign of the comparison is dictionary order on unsigned bytes. */
  lemma {:induction false} CompareIsOrder(a: Bytes, b: Bytes)
    ensures Compare(a, b) < 0 <==> Below(a, b)
    ensures Compare(a, b) == 0 <==> a == b
    ensures Compare(b, a) == -Compare(a, b)
    decreases |a|
  {
    if a != [] && b != [] && a[0] == b[0] {
      CompareIsOrder(a[1..], b[1..]);
      assert a == [a[0]] + a[1..] && b == [b[0]] + b[1..];
      BelowCons(a[0], a[1..], b[1..]);
    } else if b != [] {
      assert a[..0] == b[..0];
      assert FirstDifference(a, b, 0);
    }
  }

  lemma BelowCons(c: byte, a: seq<byte>, b: seq<byte>)
    ensures Below([c] + a, [c] + b) <==> Below(a, b)
  {
    var x, y := [c] + a, [c] + b;
    if Below(a, b) {
      var k: nat :| FirstDifference(a, b, k) && (k == |a| || a[k] < b[k]);
      assert x[..k + 1] == [c] + a[..k] && y[..k + 1] == [c] + b[..k];
      assert FirstDifference(x, y, k + 1);
    }
    if Below(x, y) {
      var k: nat :| FirstDifference(x, y, k) && (k == |x| || x[k] < y[k]);
      assert k > 0;
      assert a[..k - 1] == x[..k][1..] && b[..k - 1] == y[..k][1..];
      assert FirstDifference(a, b, k - 1);
    }
  }

  /** It is the difference of the bytes at the first place where the strings differ, taking a NUL
      for the end of each. */
  lemma {:induction false} CompareDifference(a: seq<byte>, b: seq<byte>, k: nat)
    requires k <= |a| && k <= |b| && a[..k] == b[..k]
    requires (k == |a| && k == |b|) || (k < |a| && k < |b| && a[k] != b[k]) || (k == |a|) != (k == |b|)
    ensures var x: int, y: int := if k < |a| then a[k] else 0, if k < |b| then b[k] else 0;
      Compare(a, b) == x - y
    decreases k
  {
    if k > 0 {
      assert a[0] == a[..k][0] == b[..k][0] == b[0];
      assert a[1..][..k - 1] == a[..k][1..] == b[..k][1..] == b[1..][..k - 1];
      CompareDifference(a[1..], b[1..], k - 1);
    }
  }

  lemma {:induction false} CompareTransitive(a: Bytes, b: Bytes, c: Bytes)
    requires Compare(a, b) <= 0 && Compare(b, c) <= 0
    ensures Compare(a, c) <= 0
    decreases |a|
  {
    if a != [] && b != [] && c != [] && a[0] == b[0] == c[0] {
      CompareTransitive(a[1..], b[1..], c[1..]);
    }
  }

  /** strncmp with n beyond both lengths is strcmp. */
  lemma StrncmpIsStrcmp(a: Bytes, b: Bytes, n: nat)
    requires n > |a| && n > |b|
    ensures Compare(a[..Min(n, |a|)], b[..Min(n, |b|)]) == Compare(a, b)
  {
    assert a[..|a|] == a && b[..|b|] == b;
  }

  /** memcmp over the shorter string and its NUL is strcmp. */
  lemma {:induction false} MemcmpIsStrcmp(a: Bytes, b: Bytes)
    ensures var n := Min(|a|, |b|) + 1; Compare((a + [0])[..n], (b + [0])[..n]) == Compare(a, b)
    decreases |a|
  {
    var n := Min(|a|, |b|) + 1;
    var x, y := (a + [0])[..n], (b + [0])[..n];
    if a != [] && b != [] {
      MemcmpIsStrcmp(a[1..], b[1..]);
      assert x[1..] == (a[1..] + [0])[..n - 1] && y[1..] == (b[1..] + [0])[..n - 1];
    } else {
      assert x[1..] == [] && y[1..] == [];
    }
  }
}
