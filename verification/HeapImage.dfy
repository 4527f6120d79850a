/** How the block list is written into the heap's own bytes, and what clients see of it. */
module HeapImage {
  import opened Memory
  import opened Blocks

  // Byte offsets of the fields of a block header.
  const FREE_FIELD: nat := 8
  const NEXT_FIELD: nat := 16

  /** The address stored as the successor of block i: NULL for the last one. */
  function NextAddress(base: nat, bs: seq<Block>, i: nat): nat
    requires i < |bs|
  {
    if i + 1 < |bs| then base + bs[i + 1].off else 0
  }

  /** The 24 bytes in front of block i hold its size, its free flag and its successor. */
  ghost predicate HeaderOk(m: seq<byte>, base: nat, bs: seq<Block>, i: nat)
    requires i < |bs|
  {
    var off := bs[i].off;
    && off + HEADER <= |m|
    && Load(m, off, 8) == bs[i].size
    && Load(m, off + FREE_FIELD, 4) == (if bs[i].use.Vacant? then 1 else 0)
    && Load(m, off + NEXT_FIELD, 8) == NextAddress(base, bs, i)
  }

  ghost predicate Rep(m: seq<byte>, base: nat, bs: seq<Block>) {
    && |m| == HEAP_SIZE
    && Tiled(bs)
    && forall i :: 0 <= i < |bs| ==> HeaderOk(m, base, bs, i)
  }

  lemma HeaderFrame(m: seq<byte>, m': seq<byte>, base: nat, bs: seq<Block>, i: nat, bs': seq<Block>, i': nat)
    requires i < |bs| && i' < |bs'| && HeaderOk(m, base, bs, i)
    requires SameOn(m, m', bs[i].off, bs[i].off + HEADER)
    requires bs[i] == bs'[i'] && NextAddress(base, bs, i) == NextAddress(base, bs', i')
    ensures HeaderOk(m', base, bs', i')
  {
    var off := bs[i].off;
    LoadFrame(m, m', off, 8);
    LoadFrame(m, m', off + FREE_FIELD, 4);
    LoadFrame(m, m', off + NEXT_FIELD, 8);
  }

  /** Replacing blocks k .. k+n-1 by mid is represented in m' when m' carries mid's headers and
      has not touched a byte outside the replaced blocks. */
  lemma SpliceRep(m: seq<byte>, m': seq<byte>, base: nat, bs: seq<Block>, k: nat, n: nat, mid: seq<Block>)
    requires Rep(m, base, bs) && Covers(mid, bs, k, n)
    requires SameOn(m, m', 0, bs[k].off) && SameOn(m, m', bs[k + n - 1].End(), HEAP_SIZE)
    requires forall i :: k <= i < k + |mid| ==> HeaderOk(m', base, Splice(bs, k, n, mid), i)
    ensures Rep(m', base, Splice(bs, k, n, mid))
  {
    var r := Splice(bs, k, n, mid);
    SpliceTiled(bs, k, n, mid);
    forall i | 0 <= i < |r| ensures HeaderOk(m', base, r, i) {
      if i < k {
        Ordered(bs, i, k);
        HeaderFrame(m, m', base, bs, i, r, i);
      } else if i >= k + |mid| {
        Ordered(bs, k + n - 1, i - |mid| + n);
        HeaderFrame(m, m', base, bs, i - |mid| + n, r, i);
      }
    }
  }

  /** A header's three cells at offset off. */
  ghost predicate Cells(m: seq<byte>, off: nat, size: nat, free: nat, next: nat) {
    && off + HEADER <= |m|
    && Load(m, off, 8) == size
    && Load(m, off + FREE_FIELD, 4) == free
    && Load(m, off + NEXT_FIELD, 8) == next
  }

  lemma CellsFrame(m: seq<byte>, m': seq<byte>, off: nat, size: nat, free: nat, next: nat)
    requires Cells(m, off, size, free, next) && SameOn(m, m', off, off + HEADER)
    ensures Cells(m', off, size, free, next)
  {
    LoadFrame(m, m', off, 8);
    LoadFrame(m, m', off + FREE_FIELD, 4);
    LoadFrame(m, m', off + NEXT_FIELD, 8);
  }

  lemma BlockInside(bs: seq<Block>, k: nat)
    requires Tiled(bs) && k < |bs|
    ensures bs[k].End() <= HEAP_SIZE && bs[k].size % 8 == 0
    ensures k + 1 < |bs| ==> bs[k + 1].off == bs[k].End()
  {
    if k < |bs| - 1 { Ordered(bs, k, |bs| - 1); }
  }

  lemma CellsOf(m: seq<byte>, base: nat, bs: seq<Block>, k: nat)
    requires Rep(m, base, bs) && k < |bs|
    ensures Cells(m, bs[k].off, bs[k].size, if bs[k].use.Vacant? then 1 else 0, NextAddress(base, bs, k))
  {
    assert HeaderOk(m, base, bs, k);
  }

  /** What split_block leaves in memory when it is asked to carve the block at off. */
  ghost predicate Carved(m: seq<byte>, m': seq<byte>, base: nat, off: nat, blockSize: nat, size: nat, next: nat) {
    if blockSize >= size + HEADER + 16 then
      var rest := off + HEADER + size;
      && SameOn(m, m', 0, off) && SameOn(m, m', rest + HEADER, HEAP_SIZE)
      && Cells(m', off, size, 1, base + rest)
      && Cells(m', rest, blockSize - size - HEADER, 1, next)
    else
      m' == m
  }

  lemma SplitHeaders(m: seq<byte>, base: nat, bs: seq<Block>, k: nat, a: Block, b: Block, next: nat)
    requires k < |bs| && next == NextAddress(base, bs, k) && a.use.Vacant? && b.use.Vacant?
    requires Cells(m, a.off, a.size, 1, base + b.off) && Cells(m, b.off, b.size, 1, next)
    ensures var r := Splice(bs, k, 1, [a, b]); HeaderOk(m, base, r, k) && HeaderOk(m, base, r, k + 1)
  {
    var r := Splice(bs, k, 1, [a, b]);
    assert r[k] == a && r[k + 1] == b;
    assert k + 1 < |bs| ==> r[k + 2] == bs[k + 1];
  }

  lemma SplitRep(m: seq<byte>, m': seq<byte>, base: nat, bs: seq<Block>, k: nat, size: nat)
    requires Rep(m, base, bs) && k < |bs| && bs[k].use.Vacant? && size % 8 == 0
    requires Carved(m, m', base, bs[k].off, bs[k].size, size, NextAddress(base, bs, k))
    ensures Rep(m', base, SplitAt(bs, k, size))
  {
    var mid := Carve(bs[k], size);
    BlockInside(bs, k);
    CarveCovers(bs, k, size);
    hide Tiled, HeaderOk, Covers;
    if |mid| == 2 {
      assert mid == [mid[0], mid[1]];
      SplitHeaders(m', base, bs, k, mid[0], mid[1], NextAddress(base, bs, k));
      SpliceRep(m, m', base, bs, k, 1, mid);
    } else {
      assert Splice(bs, k, 1, mid) == bs;
    }
  }

  lemma UseRep(m: seq<byte>, m': seq<byte>, base: nat, bs: seq<Block>, k: nat, use: Use)
    requires Rep(m, base, bs) && k < |bs|
    requires SameOn(m, m', 0, bs[k].off) && SameOn(m, m', bs[k].off + HEADER, HEAP_SIZE)
    requires Cells(m', bs[k].off, bs[k].size, if use.Vacant? then 1 else 0, NextAddress(base, bs, k))
    ensures Rep(m', base, bs[k := bs[k].(use := use)])
  {
    var mid := [bs[k].(use := use)];
    var r := Splice(bs, k, 1, mid);
    assert r == bs[k := bs[k].(use := use)];
    assert HeaderOk(m', base, r, k);
    SpliceRep(m, m', base, bs, k, 1, mid);
  }

  // ----- The clients' view: from live pointers to byte strings -----

  function Pointer(base: nat, b: Block): nat {
    base + b.off + HEADER
  }

  function Payload(m: seq<byte>, b: Block): seq<byte>
    requires b.End() <= |m|
  {
    m[b.off + HEADER..b.End()]
  }

  /** live lists the blocks in use by the pointers clients hold. */
  ghost predicate Indexes(live: map<nat, Block>, base: nat, us: set<Block>) {
    && (forall p :: p in live ==> live[p] in us && p == Pointer(base, live[p]))
    && (forall b :: b in us ==> Pointer(base, b) in live && live[Pointer(base, b)] == b)
  }

  ghost predicate Inside(live: map<nat, Block>) {
    forall p :: p in live ==> live[p].End() <= HEAP_SIZE
  }

  ghost function View(m: seq<byte>, live: map<nat, Block>): map<nat, seq<byte>>
    requires |m| == HEAP_SIZE && Inside(live)
  {
    map p | p in live :: Payload(m, live[p])
  }

  lemma ViewAt(m: seq<byte>, live: map<nat, Block>, p: nat)
    requires |m| == HEAP_SIZE && Inside(live) && p in live
    ensures p in View(m, live) && View(m, live)[p] == Payload(m, live[p]) && |View(m, live)[p]| == live[p].size
  {
  }

  lemma IndexAdd(live: map<nat, Block>, base: nat, us: set<Block>, b: Block, us': set<Block>)
    requires Indexes(live, base, us) && us' == us + {b}
    requires forall c :: c in us ==> c.off != b.off
    ensures Pointer(base, b) !in live
    ensures Indexes(live[Pointer(base, b) := b], base, us')
  {
  }

  lemma IndexRemove(live: map<nat, Block>, base: nat, us: set<Block>, p: nat, us': set<Block>)
    requires Indexes(live, base, us) && p in live && us' == us - {live[p]}
    ensures Indexes(live - {p}, base, us')
  {
  }

  lemma ViewFrame(m: seq<byte>, m': seq<byte>, live: map<nat, Block>)
    requires |m| == |m'| == HEAP_SIZE && Inside(live)
    requires forall p :: p in live ==> SameOn(m, m', live[p].off + HEADER, live[p].End())
    ensures View(m, live) == View(m', live)
  {
    forall p | p in live ensures Payload(m, live[p]) == Payload(m', live[p]) {}
  }

  /** The payloads clients see lie inside the heap, apart from each other and from every header. */
  lemma PayloadsApart(m: seq<byte>, base: nat, bs: seq<Block>, live: map<nat, Block>, p: nat, q: nat)
    requires |m| == HEAP_SIZE && Tiled(bs) && Indexes(live, base, InUse(bs))
    ensures Inside(live)
    ensures p in live ==> base + HEADER <= p && p + |View(m, live)[p]| <= base + HEAP_SIZE
    ensures p in live && q in live && p < q ==> p + |View(m, live)[p]| + HEADER <= q
    ensures p in live ==> forall k :: 0 <= k < |bs| ==>
      base + bs[k].off + HEADER <= p || p + |View(m, live)[p]| <= base + bs[k].off
  {
    InsideAll(bs, base, live);
    if p in live {
      ViewAt(m, live, p);
      HeadersApart(bs, base, live, p);
    }
    hide View, Payload, Inside, Tiled;
    if p in live && q in live && p < q {
      var i :| 0 <= i < |bs| && bs[i] == live[p];
      var j :| 0 <= j < |bs| && bs[j] == live[q];
      Elsewhere(bs, i, j);
    }
  }

  lemma HeadersApart(bs: seq<Block>, base: nat, live: map<nat, Block>, p: nat)
    requires Tiled(bs) && Indexes(live, base, InUse(bs)) && p in live
    ensures p == base + live[p].off + HEADER && live[p].End() <= HEAP_SIZE
    ensures forall k :: 0 <= k < |bs| ==> bs[k].off <= live[p].off || live[p].End() <= bs[k].off
  {
    hide Tiled;
    var i :| 0 <= i < |bs| && bs[i] == live[p];
    BlockInside(bs, i);
    forall k | 0 <= k < |bs| ensures bs[k].off <= live[p].off || live[p].End() <= bs[k].off {
      if k != i { Elsewhere(bs, i, k); }
    }
  }

  lemma InsideAll(bs: seq<Block>, base: nat, live: map<nat, Block>)
    requires Tiled(bs) && Indexes(live, base, InUse(bs))
    ensures Inside(live)
  {
    OrderedAll(bs);
  }

  /** Clients see the same bytes when only block k, a free one, and its header changed. */
  lemma FreeBlockFrame(m: seq<byte>, m': seq<byte>, base: nat, bs: seq<Block>, live: map<nat, Block>, k: nat, hi: nat)
    requires |m| == |m'| == HEAP_SIZE && Tiled(bs) && Indexes(live, base, InUse(bs))
    requires k < |bs| && hi <= bs[k].End() && (bs[k].use.Vacant? || hi <= bs[k].off + HEADER)
    requires SameOn(m, m', 0, bs[k].off) && SameOn(m, m', hi, HEAP_SIZE)
    ensures Inside(live) && View(m, live) == View(m', live)
  {
    InsideAll(bs, base, live);
    forall p | p in live ensures SameOn(m, m', live[p].off + HEADER, live[p].End()) {
      var i :| 0 <= i < |bs| && bs[i] == live[p];
      if i != k { Elsewhere(bs, i, k); }
    }
    ViewFrame(m, m', live);
  }

  lemma MergedHeader(m: seq<byte>, base: nat, bs: seq<Block>, k: nat)
    requires k + 1 < |bs| && bs[k].use.Vacant?
    requires Cells(m, bs[k].off, bs[k].size + HEADER + bs[k + 1].size, 1, NextAddress(base, bs, k + 1))
    ensures HeaderOk(m, base, MergeAt(bs, k), k)
  {
    var r := MergeAt(bs, k);
    assert r[k].off == bs[k].off && r[k].size == bs[k].size + HEADER + bs[k + 1].size;
    assert k + 2 < |bs| ==> r[k + 1] == bs[k + 2];
  }

  /** Merging block k with its successor: the list is still represented, and clients see no change. */
  lemma MergeRep(m: seq<byte>, m': seq<byte>, base: nat, bs: seq<Block>, live: map<nat, Block>, k: nat)
    requires Rep(m, base, bs) && Indexes(live, base, InUse(bs)) && Inside(live)
    requires k + 1 < |bs| && bs[k].use.Vacant? && bs[k + 1].use.Vacant?
    requires SameOn(m, m', 0, bs[k].off) && SameOn(m, m', bs[k].off + HEADER, HEAP_SIZE)
    requires Cells(m', bs[k].off, bs[k].size + HEADER + bs[k + 1].size, 1, NextAddress(base, bs, k + 1))
    ensures Rep(m', base, MergeAt(bs, k))
    ensures InUse(MergeAt(bs, k)) == InUse(bs) && View(m', live) == View(m, live)
  {
    hide Tiled, HeaderOk, Indexes, View, Covers, InUse, Cells, NextAddress, Inside;
    MergedHeader(m', base, bs, k);
    BlockInside(bs, k);
    BlockInside(bs, k + 1);
    MergeCovers(bs, k);
    SpliceRep(m, m', base, bs, k, 2, [Merged(bs, k)]);
    MergeInUse(bs, k);
    FreeBlockFrame(m, m', base, bs, live, k, bs[k].End());
  }

  /** Carving free block k and clearing its free flag: the placed list is represented, and
      clients' bytes are where they were. */
  lemma PlaceRep(m0: seq<byte>, m1: seq<byte>, m2: seq<byte>, base: nat, bs: seq<Block>, live: map<nat, Block>, k: nat, n: nat)
    requires Rep(m0, base, bs) && Indexes(live, base, InUse(bs)) && Inside(live)
    requires k < |bs| && Fits(bs[k], Align16(n))
    requires |m1| == |m2| == HEAP_SIZE && bs[k].off + HEADER <= HEAP_SIZE
    requires Carved(m0, m1, base, bs[k].off, bs[k].size, Align16(n), NextAddress(base, bs, k))
    requires SameOn(m1, m2, 0, bs[k].off + FREE_FIELD) && SameOn(m1, m2, bs[k].off + FREE_FIELD + 4, HEAP_SIZE)
    requires Load(m1, bs[k].off, 8) == Load(m2, bs[k].off, 8)
    requires Load(m1, bs[k].off + NEXT_FIELD, 8) == Load(m2, bs[k].off + NEXT_FIELD, 8)
    requires Load(m2, bs[k].off + FREE_FIELD, 4) == 0
    ensures Rep(m2, base, Place(bs, k, n))
    ensures View(m2, live) == View(m0, live)
  {
    hide Tiled, HeaderOk, Indexes, View, InUse, Inside, Align16, Carve;
    AlignMultiple(n);
    var split := SplitAt(bs, k, Align16(n));
    SplitRep(m0, m1, base, bs, k, Align16(n));
    SplitHead(bs, k, Align16(n));
    CellsOf(m1, base, split, k);
    UseRep(m1, m2, base, split, k, Used(n));
    BlockInside(bs, k);
    CarvedFrame(m0, m1, base, bs, k, Align16(n));
    FreeBlockFrame(m0, m2, base, bs, live, k, bs[k].End());
  }

  lemma SplitHead(bs: seq<Block>, k: nat, size: nat)
    requires k < |bs|
    ensures k < |SplitAt(bs, k, size)| && SplitAt(bs, k, size)[k].off == bs[k].off && SplitAt(bs, k, size)[k].use == bs[k].use
  {
  }

  /** Carving changes nothing outside the block. */
  lemma CarvedFrame(m: seq<byte>, m': seq<byte>, base: nat, bs: seq<Block>, k: nat, size: nat)
    requires |m| == |m'| == HEAP_SIZE && k < |bs|
    requires Carved(m, m', base, bs[k].off, bs[k].size, size, NextAddress(base, bs, k))
    ensures SameOn(m, m', 0, bs[k].off) && SameOn(m, m', bs[k].End(), HEAP_SIZE)
  {
  }

  lemma ViewExtend(m: seq<byte>, live: map<nat, Block>, p: nat, b: Block)
    requires |m| == HEAP_SIZE && Inside(live) && b.End() <= HEAP_SIZE
    ensures Inside(live[p := b])
    ensures View(m, live[p := b]) == View(m, live)[p := Payload(m, b)]
  {
  }

  lemma ViewShrink(m: seq<byte>, live: map<nat, Block>, p: nat)
    requires |m| == HEAP_SIZE && Inside(live)
    ensures Inside(live - {p})
    ensures View(m, live - {p}) == View(m, live) - {p}
  {
  }

  lemma HeadersKept(m: seq<byte>, m': seq<byte>, base: nat, bs: seq<Block>, k: nat)
    requires Rep(m, base, bs) && k < |bs|
    requires SameOn(m, m', 0, bs[k].off + HEADER) && SameOn(m, m', bs[k].End(), HEAP_SIZE)
    ensures Rep(m', base, bs)
  {
    hide HeaderOk, Tiled;
    forall i | 0 <= i < |bs| ensures HeaderOk(m', base, bs, i) {
      if i != k { Elsewhere(bs, i, k); }
      HeaderFrame(m, m', base, bs, i, bs, i);
    }
  }

  /** Writing behind a live pointer changes no header and no other client's bytes. */
  lemma PayloadWrite(m: seq<byte>, m': seq<byte>, base: nat, bs: seq<Block>, live: map<nat, Block>, p: nat)
    requires Rep(m, base, bs) && Indexes(live, base, InUse(bs)) && Inside(live) && p in live
    requires SameOn(m, m', 0, live[p].off + HEADER) && SameOn(m, m', live[p].End(), HEAP_SIZE)
    ensures Rep(m', base, bs)
    ensures View(m', live) == View(m, live)[p := Payload(m', live[p])]
  {
    hide HeaderOk, Tiled, Payload;
    var k :| 0 <= k < |bs| && bs[k] == live[p];
    HeadersKept(m, m', base, bs, k);
    forall q | q in live && q != p ensures Payload(m', live[q]) == Payload(m, live[q]) {
      OthersKept(m, m', base, bs, live, p, k, q);
    }
  }

  lemma OthersKept(m: seq<byte>, m': seq<byte>, base: nat, bs: seq<Block>, live: map<nat, Block>, p: nat, k: nat, q: nat)
    requires |m| == |m'| == HEAP_SIZE && Tiled(bs) && Indexes(live, base, InUse(bs)) && Inside(live)
    requires p in live && k < |bs| && bs[k] == live[p] && q in live && p != q
    requires SameOn(m, m', 0, live[p].off + HEADER) && SameOn(m, m', live[p].End(), HEAP_SIZE)
    ensures Payload(m', live[q]) == Payload(m, live[q])
  {
    var i :| 0 <= i < |bs| && bs[i] == live[q];
    Elsewhere(bs, i, k);
  }

  lemma PokeView(m: seq<byte>, m': seq<byte>, base: nat, bs: seq<Block>, live: map<nat, Block>, p: nat, i: nat, v: byte)
    requires Rep(m, base, bs) && Indexes(live, base, InUse(bs)) && Inside(live) && p in live
    requires i < live[p].size && m' == m[live[p].off + HEADER + i := v]
    ensures Rep(m', base, bs)
    ensures p in View(m, live) && i < |View(m, live)[p]|
    ensures View(m', live) == View(m, live)[p := Poked(View(m, live)[p], i, v)]
  {
    hide Tiled, HeaderOk, Indexes, View, InUse, Poked;
    PayloadWrite(m, m', base, bs, live, p);
    ViewAt(m, live, p);
    PokeSlice(m, live[p].off + HEADER, live[p].End(), i, v);
  }

  lemma CopyFits(m: seq<byte>, base: nat, bs: seq<Block>, live: map<nat, Block>, dst: nat, src: nat)
    requires |m| == HEAP_SIZE && Tiled(bs) && Indexes(live, base, InUse(bs)) && Inside(live)
    requires dst in live && src in live && dst != src && live[src].size <= live[dst].size
    ensures base + HEADER <= dst && dst + live[src].size <= base + HEAP_SIZE
    ensures base + HEADER <= src && src + live[src].size <= base + HEAP_SIZE
    ensures dst + live[src].size <= src || src + live[src].size <= dst
  {
    ViewAt(m, live, src);
    ViewAt(m, live, dst);
    PayloadsApart(m, base, bs, live, dst, src);
    PayloadsApart(m, base, bs, live, src, dst);
  }

  lemma CopyView(m: seq<byte>, m': seq<byte>, base: nat, bs: seq<Block>, live: map<nat, Block>, dst: nat, src: nat, n: nat)
    requires Rep(m, base, bs) && Indexes(live, base, InUse(bs)) && Inside(live)
    requires dst in live && src in live && n == live[src].size <= live[dst].size
    requires base <= dst && base <= src && dst - base + n <= |m| == |m'| && src - base + n <= |m|
    requires SameOn(m, m', 0, dst - base) && SameOn(m, m', dst - base + n, HEAP_SIZE)
    requires m'[dst - base..dst - base + n] == m[src - base..src - base + n]
    ensures Rep(m', base, bs)
    ensures View(m', live) == View(m, live)[dst := Payload(m', live[dst])]
    ensures Payload(m, live[src]) <= Payload(m', live[dst])
  {
    hide View, Tiled, HeaderOk;
    PayloadWrite(m, m', base, bs, live, dst);
    CopySlice(m, m', live[src].off + HEADER, live[dst].off + HEADER, n, live[dst].size);
  }

  lemma ClearView(m: seq<byte>, m': seq<byte>, base: nat, bs: seq<Block>, live: map<nat, Block>, p: nat, n: nat)
    requires Rep(m, base, bs) && Indexes(live, base, InUse(bs)) && Inside(live)
    requires p in live && n <= live[p].size && base <= p && p - base + n <= |m| == |m'|
    requires SameOn(m, m', 0, p - base) && SameOn(m, m', p - base + n, HEAP_SIZE)
    requires forall a :: p - base <= a < p - base + n ==> m'[a] == 0
    ensures Rep(m', base, bs)
    ensures View(m', live) == View(m, live)[p := Payload(m', live[p])]
    ensures forall j :: 0 <= j < n ==> Payload(m', live[p])[j] == 0
  {
    hide View, Tiled, HeaderOk;
    PayloadWrite(m, m', base, bs, live, p);
  }
}
