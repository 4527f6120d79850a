/**
  The abstract layout of the heap: the list of blocks in address order, and what the
  allocator's steps do to it. Offsets are relative to the start of the heap array.
*/
module Blocks {
  import opened Memory

  const HEAP_SIZE: nat := 4194304
  const HEADER: nat := 24

  /** A block in use remembers the request that created it. */
  datatype Use = Vacant | Used(request: nat)

  datatype Block = Block(off: nat, size: nat, use: Use) {
    function End(): nat { off + HEADER + size }
  }

  const Initial: seq<Block> := [Block(0, HEAP_SIZE - HEADER, Vacant)]

  /** ALIGN16 on a 64-bit size_t: the addition wraps. */
  function Align16(n: nat): nat {
    (n + 15) % (SIZE_MAX + 1) / 16 * 16
  }

  /** The blocks tile the heap: contiguous, from its first byte to its last. */
  ghost predicate Tiled(bs: seq<Block>) {
    && |bs| > 0
    && bs[0].off == 0
    && (forall i :: 0 <= i < |bs| - 1 ==> bs[i + 1].off == bs[i].End())
    && bs[|bs| - 1].End() == HEAP_SIZE
    && (forall i :: 0 <= i < |bs| ==> bs[i].size % 8 == 0)
  }

  /** No two consecutive blocks are both free. */
  ghost predicate Coalesced(bs: seq<Block>) {
    forall i :: 0 <= i < |bs| - 1 ==> bs[i].use.Used? || bs[i + 1].use.Used?
  }

  /** Every block in use got at least its rounded request and at most 32 bytes more. */
  ghost predicate Granted(bs: seq<Block>) {
    forall b :: b in bs && b.use.Used? ==>
      && 1 <= b.use.request <= SIZE_MAX
      && Align16(b.use.request) <= b.size <= Align16(b.use.request) + 32
  }

  ghost predicate Good(bs: seq<Block>) {
    Tiled(bs) && Coalesced(bs) && Granted(bs)
  }

  ghost function InUse(bs: seq<Block>): set<Block> {
    set b | b in bs && b.use.Used?
  }

  // ----- Tiling -----

  lemma {:induction false} Ordered(bs: seq<Block>, i: nat, j: nat)
    requires Tiled(bs) && i < j < |bs|
    ensures bs[i].End() <= bs[j].off
    decreases j
  {
    if i < j - 1 {
      Ordered(bs, i, j - 1);
    }
  }

  lemma OrderedAll(bs: seq<Block>)
    requires Tiled(bs)
    ensures forall i, j :: 0 <= i < j < |bs| ==> bs[i].End() <= bs[j].off
    ensures forall i :: 0 <= i < |bs| ==> bs[i].End() <= HEAP_SIZE && bs[i].off % 8 == 0
  {
    forall i, j | 0 <= i < j < |bs| ensures bs[i].End() <= bs[j].off {
      Ordered(bs, i, j);
    }
    forall i | 0 <= i < |bs| ensures bs[i].off % 8 == 0 { OffAligned(bs, i); }
  }

  /** Two different blocks of a tiling do not overlap. */
  lemma Elsewhere(bs: seq<Block>, i: nat, j: nat)
    requires Tiled(bs) && i < |bs| && j < |bs| && i != j
    ensures bs[i].End() <= bs[j].off || bs[j].End() <= bs[i].off
    ensures bs[i].End() <= HEAP_SIZE
  {
    if i < j { Ordered(bs, i, j); } else { Ordered(bs, j, i); }
    if i < |bs| - 1 { Ordered(bs, i, |bs| - 1); }
  }

  lemma OnlyOnce(bs: seq<Block>, k: nat)
    requires Tiled(bs) && k < |bs|
    ensures bs[k] !in bs[..k] && bs[k] !in bs[k + 1..]
  {
    forall i | 0 <= i < |bs| && i != k ensures bs[i] != bs[k] { Elsewhere(bs, i, k); }
  }

  lemma {:induction false} OffAligned(bs: seq<Block>, i: nat)
    requires Tiled(bs) && i < |bs|
    ensures bs[i].off % 8 == 0
  {
    if i > 0 { OffAligned(bs, i - 1); assert bs[i - 1 + 1].off == bs[i - 1].End(); }
  }

  // ----- Replacing a run of blocks -----

  /** bs with its n blocks from index k on replaced by mid. */
  function Splice(bs: seq<Block>, k: nat, n: nat, mid: seq<Block>): seq<Block>
    requires k + n <= |bs|
  {
    bs[..k] + mid + bs[k + n..]
  }

  /** mid covers exactly the addresses of the n blocks of bs from index k on. */
  ghost predicate Covers(mid: seq<Block>, bs: seq<Block>, k: nat, n: nat) {
    && 0 < n && k + n <= |bs| && 0 < |mid|
    && mid[0].off == bs[k].off
    && mid[|mid| - 1].End() == bs[k + n - 1].End()
    && (forall i :: 0 <= i < |mid| - 1 ==> mid[i + 1].off == mid[i].End())
    && (forall i :: 0 <= i < |mid| ==> mid[i].size % 8 == 0)
  }

  lemma SpliceTiled(bs: seq<Block>, k: nat, n: nat, mid: seq<Block>)
    requires Tiled(bs) && Covers(mid, bs, k, n)
    ensures Tiled(Splice(bs, k, n, mid))
  {
    var r := Splice(bs, k, n, mid);
    forall i | 0 <= i < |r| - 1 ensures r[i + 1].off == r[i].End() {
      if i + 1 < k {
        assert r[i] == bs[i] && r[i + 1] == bs[i + 1];
      } else if i + 1 == k {
        assert r[i] == bs[i] && r[i + 1] == mid[0] && bs[i + 1] == bs[k];
      } else if i + 1 < k + |mid| {
        assert r[i] == mid[i - k] && r[i + 1] == mid[i - k + 1];
      } else {
        var j := i - |mid| + n;
        assert r[i + 1] == bs[j + 1] && r[i].End() == bs[j].End();
      }
    }
    forall i | 0 <= i < |r| ensures r[i].size % 8 == 0 {
      assert r[i] == if i < k then bs[i] else if i < k + |mid| then mid[i - k] else bs[i - |mid| + n];
    }
  }

  lemma InUseConcat(a: seq<Block>, b: seq<Block>)
    ensures InUse(a + b) == InUse(a) + InUse(b)
  {
  }

  lemma SpliceInUse(bs: seq<Block>, k: nat, n: nat, mid: seq<Block>)
    requires k + n <= |bs|
    ensures InUse(bs) == InUse(bs[..k]) + InUse(bs[k..k + n]) + InUse(bs[k + n..])
    ensures InUse(Splice(bs, k, n, mid)) == InUse(bs[..k]) + InUse(mid) + InUse(bs[k + n..])
  {
    assert bs == bs[..k] + bs[k..k + n] + bs[k + n..];
    InUseConcat(bs[..k] + bs[k..k + n], bs[k + n..]);
    InUseConcat(bs[..k], bs[k..k + n]);
    InUseConcat(bs[..k] + mid, bs[k + n..]);
    InUseConcat(bs[..k], mid);
  }

  // ----- malloc: split and mark -----

  /** The pieces split_block makes of b: one of the given size and the free rest, or b itself. */
  function Carve(b: Block, size: nat): seq<Block> {
    if b.size >= size + HEADER + 16 then
      [Block(b.off, size, b.use), Block(b.off + HEADER + size, b.size - size - HEADER, Vacant)]
    else
      [b]
  }

  function SplitAt(bs: seq<Block>, k: nat, size: nat): seq<Block>
    requires k < |bs|
  {
    Splice(bs, k, 1, Carve(bs[k], size))
  }

  function Place(bs: seq<Block>, k: nat, n: nat): seq<Block>
    requires k < |bs|
  {
    var split := SplitAt(bs, k, Align16(n));
    split[k := split[k].(use := Used(n))]
  }

  predicate Fits(b: Block, size: nat) {
    b.use.Vacant? && b.size >= size
  }

  /** The index of the first block that fits, or |bs|. */
  function FirstFit(bs: seq<Block>, size: nat): (k: nat)
    ensures k <= |bs|
    ensures k < |bs| ==> Fits(bs[k], size)
    ensures forall i :: 0 <= i < k ==> !Fits(bs[i], size)
  {
    if bs == [] then 0 else if Fits(bs[0], size) then 0 else 1 + FirstFit(bs[1..], size)
  }

  /** The blocks after malloc(n). */
  function Malloced(bs: seq<Block>, n: nat): seq<Block> {
    var k := FirstFit(bs, Align16(n));
    if n == 0 || k == |bs| then bs else Place(bs, k, n)
  }

  /** Rounding covers the request exactly when the addition does not wrap. */
  lemma AlignCovers(n: nat)
    requires n <= SIZE_MAX
    ensures Align16(n) >= n <==> n <= SIZE_MAX - 15
    ensures Align16(n) <= n + 15
  {
  }

  /** A block in use covers its request exactly when rounding the request did not wrap. */
  lemma GrantCovers(bs: seq<Block>, b: Block)
    requires Granted(bs) && b in InUse(bs)
    ensures b.size >= b.use.request <==> b.use.request <= SIZE_MAX - 15
  {
    AlignCovers(b.use.request);
    if b.use.request > SIZE_MAX - 15 { WrapsToZero(b.use.request); }
    hide Align16;
  }

  lemma WrapsToZero(n: nat)
    requires SIZE_MAX - 15 < n <= SIZE_MAX
    ensures Align16(n) == 0
  {
  }

  lemma AlignMultiple(n: nat)
    ensures Align16(n) % 16 == 0
  {
  }

  lemma SplitTiles(bs: seq<Block>, k: nat, size: nat)
    requires Tiled(bs) && k < |bs| && size % 8 == 0
    ensures Tiled(SplitAt(bs, k, size))
  {
    SpliceTiled(bs, k, 1, Carve(bs[k], size));
  }

  lemma CarveCovers(bs: seq<Block>, k: nat, size: nat)
    requires k < |bs| && bs[k].size % 8 == 0 && size % 8 == 0
    ensures Covers(Carve(bs[k], size), bs, k, 1)
  {
  }

  lemma PlaceIsSplice(bs: seq<Block>, k: nat, n: nat)
    requires k < |bs|
    ensures var c := Carve(bs[k], Align16(n));
      Place(bs, k, n) == Splice(bs, k, 1, c[0 := c[0].(use := Used(n))])
  {
  }

  lemma PlaceInUse(bs: seq<Block>, k: nat, n: nat)
    requires Tiled(bs) && k < |bs| && Fits(bs[k], Align16(n))
    ensures var p := Place(bs, k, n);
      && k < |p| && p[k].off == bs[k].off && p[k].use == Used(n)
      && InUse(p) == InUse(bs) + {p[k]}
  {
    var c := Carve(bs[k], Align16(n));
    var mid := c[0 := c[0].(use := Used(n))];
    PlaceIsSplice(bs, k, n);
    SpliceInUse(bs, k, 1, mid);
    assert InUse(mid) == {mid[0]};
    assert bs[k..k + 1] == [bs[k]];
    assert InUse(bs[k..k + 1]) == {};
  }

  /** No live block starts where a placed one does. */
  lemma PlaceFresh(bs: seq<Block>, k: nat, n: nat)
    requires Tiled(bs) && k < |bs| && Fits(bs[k], Align16(n))
    ensures forall c :: c in InUse(bs) ==> c.off != bs[k].off
    ensures var p := Place(bs, k, n);
      k < |p| && p[k].off == bs[k].off && InUse(p) == InUse(bs) + {p[k]}
  {
    PlaceInUse(bs, k, n);
    OrderedAll(bs);
  }

  lemma PlaceTiled(bs: seq<Block>, k: nat, n: nat)
    requires Tiled(bs) && k < |bs| && Fits(bs[k], Align16(n))
    ensures Tiled(Place(bs, k, n))
  {
    hide Align16;
    AlignMultiple(n);
    CarveCovers(bs, k, Align16(n));
    var c := Carve(bs[k], Align16(n));
    var mid := c[0 := c[0].(use := Used(n))];
    PlaceIsSplice(bs, k, n);
    SpliceTiled(bs, k, 1, mid);
  }

  lemma PlaceGood(bs: seq<Block>, k: nat, n: nat)
    requires Good(bs) && k < |bs| && 1 <= n <= SIZE_MAX && Fits(bs[k], Align16(n))
    ensures Good(Place(bs, k, n))
  {
    hide Align16;
    PlaceTiled(bs, k, n);
    PlaceInUse(bs, k, n);
    PlaceGranted(bs, k, n);
    PlaceCoalesced(bs, k, n);
  }

  lemma CarveGrants(b: Block, a: nat)
    requires b.size >= a && b.size % 8 == 0 && a % 8 == 0
    ensures a <= Carve(b, a)[0].size <= a + 32
  {
  }

  lemma PlaceGranted(bs: seq<Block>, k: nat, n: nat)
    requires Granted(bs) && k < |bs| && 1 <= n <= SIZE_MAX && Fits(bs[k], Align16(n)) && bs[k].size % 8 == 0
    requires var p := Place(bs, k, n); k < |p| && InUse(p) == InUse(bs) + {p[k]}
    ensures Granted(Place(bs, k, n))
  {
    hide Align16;
    AlignMultiple(n);
    CarveGrants(bs[k], Align16(n));
    var p := Place(bs, k, n);
    assert p[k] == Carve(bs[k], Align16(n))[0].(use := Used(n));
    hide Carve, Place;
    forall b | b in p && b.use.Used?
      ensures 1 <= b.use.request <= SIZE_MAX && Align16(b.use.request) <= b.size <= Align16(b.use.request) + 32
    {
      assert b in InUse(p);
      assert b != p[k] ==> b in InUse(bs);
    }
  }

  lemma PlaceCoalesced(bs: seq<Block>, k: nat, n: nat)
    requires Coalesced(bs) && k < |bs| && bs[k].use.Vacant?
    ensures Coalesced(Place(bs, k, n))
  {
    var p := Place(bs, k, n);
    var d := |p| - |bs|;
    forall i | 0 <= i < |p| - 1 ensures p[i].use.Used? || p[i + 1].use.Used? {
      if i + 1 < k {
        assert p[i] == bs[i] && p[i + 1] == bs[i + 1];
      } else if i > k + d {
        assert p[i] == bs[i - d] && p[i + 1] == bs[i - d + 1];
      } else if i == k + d {
        assert bs[k].use.Used? || bs[k + 1].use.Used?;
      }
    }
  }

  // ----- free: mark and coalesce -----

  /** Block k grown over its successor. */
  function Merged(bs: seq<Block>, k: nat): Block
    requires k + 1 < |bs|
  {
    Block(bs[k].off, bs[k].size + HEADER + bs[k + 1].size, bs[k].use)
  }

  /** bs with blocks k and k + 1 merged into one. */
  function MergeAt(bs: seq<Block>, k: nat): seq<Block>
    requires k + 1 < |bs|
  {
    Splice(bs, k, 2, [Merged(bs, k)])
  }

  /** One coalescing pass over the blocks from index k on. */
  function Coalesce(bs: seq<Block>, k: nat): seq<Block>
    requires k < |bs|
    decreases |bs| - k
  {
    if k + 1 >= |bs| then bs
    else if bs[k].use.Vacant? && bs[k + 1].use.Vacant? then Coalesce(MergeAt(bs, k), k)
    else Coalesce(bs, k + 1)
  }

  function Release(bs: seq<Block>, k: nat): seq<Block>
    requires k < |bs|
  {
    Coalesce(bs[k := bs[k].(use := Vacant)], 0)
  }

  /** A pass from k on, over a list already coalesced up to k, leaves a coalesced tiling with the
      same blocks in use. */
  lemma {:induction false} CoalesceSpec(bs: seq<Block>, k: nat)
    requires Tiled(bs) && k < |bs| && Coalesced(bs[..k + 1])
    ensures Tiled(Coalesce(bs, k))
    ensures Coalesced(Coalesce(bs, k))
    ensures InUse(Coalesce(bs, k)) == InUse(bs)
    decreases |bs| - k
  {
    if k + 1 >= |bs| {
      assert bs[..k + 1] == bs;
    } else if bs[k].use.Vacant? && bs[k + 1].use.Vacant? {
      MergeStep(bs, k);
      CoalesceSpec(MergeAt(bs, k), k);
    } else {
      assert Coalesced(bs[..k + 2]) by {
        assert bs[..k + 2][..k + 1] == bs[..k + 1];
        forall i | 0 <= i < k + 1 ensures bs[i].use.Used? || bs[i + 1].use.Used? {
          if i < k { assert bs[..k + 1][i] == bs[i] && bs[..k + 1][i + 1] == bs[i + 1]; }
        }
      }
      CoalesceSpec(bs, k + 1);
    }
  }

  lemma MergeCovers(bs: seq<Block>, k: nat)
    requires Tiled(bs) && k + 1 < |bs|
    ensures Covers([Merged(bs, k)], bs, k, 2)
  {
  }

  lemma MergeInUse(bs: seq<Block>, k: nat)
    requires Tiled(bs) && k + 1 < |bs| && bs[k].use.Vacant? && bs[k + 1].use.Vacant?
    ensures Tiled(MergeAt(bs, k))
    ensures InUse(MergeAt(bs, k)) == InUse(bs)
  {
    hide Tiled, Covers;
    var mid := [Merged(bs, k)];
    MergeCovers(bs, k);
    SpliceTiled(bs, k, 2, mid);
    SpliceInUse(bs, k, 2, mid);
    assert bs[k..k + 2] == [bs[k], bs[k + 1]];
    assert InUse(mid) == {} == InUse(bs[k..k + 2]);
  }

  lemma MergeStep(bs: seq<Block>, k: nat)
    requires Tiled(bs) && k + 1 < |bs| && bs[k].use.Vacant? && bs[k + 1].use.Vacant?
    requires Coalesced(bs[..k + 1])
    ensures Tiled(MergeAt(bs, k)) && Coalesced(MergeAt(bs, k)[..k + 1])
    ensures InUse(MergeAt(bs, k)) == InUse(bs)
  {
    MergeInUse(bs, k);
    var m := MergeAt(bs, k)[..k + 1];
    forall i | 0 <= i < k ensures m[i].use.Used? || m[i + 1].use.Used? {
      assert bs[..k + 1][i].use.Used? || bs[..k + 1][i + 1].use.Used?;
    }
  }

  lemma UnmarkInUse(bs: seq<Block>, k: nat)
    requires Tiled(bs) && k < |bs| && bs[k].use.Used?
    ensures var marked := bs[k := bs[k].(use := Vacant)];
      Tiled(marked) && InUse(marked) == InUse(bs) - {bs[k]}
  {
    var mid := [bs[k].(use := Vacant)];
    assert Covers(mid, bs, k, 1);
    hide Tiled, Covers;
    assert bs[k := mid[0]] == Splice(bs, k, 1, mid);
    SpliceTiled(bs, k, 1, mid);
    OnlyOnce(bs, k);
    SpliceInUse(bs, k, 1, mid);
    assert bs[k..k + 1] == [bs[k]];
    assert InUse(mid) == {} && InUse([bs[k]]) == {bs[k]};
    assert bs[k] !in InUse(bs[..k]) && bs[k] !in InUse(bs[k + 1..]);
  }

  /** after is before with the live block b marked free and the pass made. */
  ghost predicate Freed(before: seq<Block>, b: Block, after: seq<Block>) {
    b.use.Used? && exists k: nat :: k < |before| && before[k] == b && after == Release(before, k)
  }

  lemma ReleaseSpec(bs: seq<Block>, k: nat)
    requires Good(bs) && k < |bs| && bs[k].use.Used?
    ensures Good(Release(bs, k)) && InUse(Release(bs, k)) == InUse(bs) - {bs[k]}
  {
    var marked := bs[k := bs[k].(use := Vacant)];
    UnmarkInUse(bs, k);
    CoalesceSpec(marked, 0);
    forall b | b in Release(bs, k) && b.use.Used? ensures b in bs {
      assert b in InUse(Release(bs, k));
    }
  }

  // ----- The layout is determined by the live blocks -----

  lemma FreeMeetsFree(a: seq<Block>, b: seq<Block>, i: nat)
    requires Tiled(a) && Tiled(b) && InUse(a) == InUse(b)
    requires i < |a| && i < |b| && a[i].off == b[i].off
    ensures a[i].use.Vacant? ==> b[i].use.Vacant?
  {
    if b[i].use.Used? {
      assert b[i] in InUse(a);
      var j :| 0 <= j < |a| && a[j] == b[i];
      OrderedAll(a);
      assert j == i;
    }
  }

  lemma FreeNotShorter(a: seq<Block>, b: seq<Block>, i: nat)
    requires Tiled(a) && Tiled(b) && Coalesced(a) && InUse(a) == InUse(b)
    requires i < |a| && i < |b| && a[i].off == b[i].off && a[i].use.Vacant?
    ensures b[i].size <= a[i].size
  {
    OrderedAll(b);
    if i + 1 < |a| {
      assert a[i].use.Used? || a[i + 1].use.Used?;
      assert a[i + 1] in InUse(b);
      var j :| 0 <= j < |b| && b[j] == a[i + 1];
      assert b[j].off == a[i].End();
    }
  }

  lemma {:induction false} SamePrefix(a: seq<Block>, b: seq<Block>, n: nat)
    requires Tiled(a) && Tiled(b) && Coalesced(a) && Coalesced(b) && InUse(a) == InUse(b)
    requires n <= |a|
    ensures n <= |b| && a[..n] == b[..n]
  {
    if n > 0 {
      SamePrefix(a, b, n - 1);
      var i := n - 1;
      if i > 0 {
        assert a[i - 1] == a[..i][i - 1] == b[..i][i - 1] == b[i - 1];
        OrderedAll(a);
        assert a[i - 1 + 1].off == a[i - 1].End();
        assert i < |b|;
        assert b[i - 1 + 1].off == b[i - 1].End();
      }
      SameBlock(a, b, i);
    }
  }

  lemma SameBlock(a: seq<Block>, b: seq<Block>, i: nat)
    requires Tiled(a) && Tiled(b) && Coalesced(a) && Coalesced(b) && InUse(a) == InUse(b)
    requires i < |a| && i < |b| && a[i].off == b[i].off
    ensures a[i] == b[i]
  {
    FreeMeetsFree(a, b, i);
    FreeMeetsFree(b, a, i);
    if a[i].use.Vacant? {
      FreeNotShorter(a, b, i);
      FreeNotShorter(b, a, i);
    } else {
      assert a[i] in InUse(b);
      var j :| 0 <= j < |b| && b[j] == a[i];
      OrderedAll(b);
      assert j == i;
    }
  }

  /** The heap keeps no memory of its history: two coalesced tilings with the same live blocks
      are the same list. */
  lemma LayoutDetermined(a: seq<Block>, b: seq<Block>)
    requires Tiled(a) && Tiled(b) && Coalesced(a) && Coalesced(b) && InUse(a) == InUse(b)
    ensures a == b
  {
    SamePrefix(a, b, |a|);
    SamePrefix(b, a, |b|);
    assert a[..|a|] == a && b[..|b|] == b;
  }
}
