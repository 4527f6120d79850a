/** The allocator itself: malloc, free, calloc and realloc over a byte array that holds its own headers. */
module Heap {
  import opened Memory
  import opened Blocks
  import opened HeapImage
  import opened HeapRuns

  const NULL: nat := 0
  const ENOMEM: int := 12

  class Allocator {
    const heap: array<byte>
    const base: nat            // the address of heap[0]
    var heapInit: bool
    var freeList: nat
    var errno: int
    ghost var blocks: seq<Block>
    ghost var live: map<nat, Block>

    /** The headers in the heap's bytes spell out the block list. */
    ghost predicate Linked()
      reads this, heap
    {
      && heap.Length == HEAP_SIZE
      && 0 < base && base + HEAP_SIZE <= SIZE_MAX
      && heapInit && freeList == base
      && Rep(heap[..], base, blocks)
    }

    ghost predicate Valid()
      reads this, heap
    {
      && heap.Length == HEAP_SIZE
      && 0 < base && base + HEAP_SIZE <= SIZE_MAX
      && (if heapInit then Linked() else blocks == Initial)
      && Good(blocks) && Reachable(blocks)
      && Indexes(live, base, InUse(blocks))
      && Inside(live)
    }

    /** What clients see: the bytes behind every live pointer. */
    ghost function Contents(): map<nat, seq<byte>>
      requires Valid()
      reads this, heap
    {
      View(heap[..], live)
    }

    constructor (heapBase: nat)
      requires 0 < heapBase && heapBase + HEAP_SIZE <= SIZE_MAX
      ensures Valid() && fresh(heap) && base == heapBase
      ensures blocks == Initial && live == map[] && Contents() == map[]
    {
      InitialReachable();
      heap := new byte[HEAP_SIZE](_ => 0);
      base := heapBase;
      heapInit, freeList, errno := false, NULL, 0;
      blocks, live := Initial, map[];
    }

    // ----- Header fields -----

    predicate HasHeader(p: nat)
      reads heap
    {
      heap.Length == HEAP_SIZE && base <= p && p + HEADER <= base + HEAP_SIZE
    }

    function SizeOf(p: nat): nat
      requires HasHeader(p)
      reads heap
    {
      Load(heap[..], p - base, 8)
    }

    predicate IsFree(p: nat)
      requires HasHeader(p)
      reads heap
    {
      Load(heap[..], p - base + FREE_FIELD, 4) != 0
    }

    function Next(p: nat): nat
      requires HasHeader(p)
      reads heap
    {
      Load(heap[..], p - base + NEXT_FIELD, 8)
    }

    method Store(a: nat, n: nat, v: nat)
      requires a + n <= heap.Length && v < Radix(n)
      modifies heap
      ensures SameOn(old(heap[..]), heap[..], 0, a) && SameOn(old(heap[..]), heap[..], a + n, heap.Length)
      ensures Load(heap[..], a, n) == v
    {
      var cell := Encode(v, n);
      forall i | 0 <= i < n {
        heap[a + i] := cell[i];
      }
      assert heap[..][a..a + n] == cell;
      DecodeEncode(v, n);
    }

    method StoreSize(p: nat, v: nat)
      requires HasHeader(p) && v <= SIZE_MAX
      modifies heap
      ensures SameOn(old(heap[..]), heap[..], 0, p - base) && SameOn(old(heap[..]), heap[..], p - base + 8, HEAP_SIZE)
      ensures SizeOf(p) == v && IsFree(p) == old(IsFree(p)) && Next(p) == old(Next(p))
      ensures Load(heap[..], p - base + FREE_FIELD, 4) == old(Load(heap[..], p - base + FREE_FIELD, 4))
    {
      RadixOfCells();
      Store(p - base, 8, v);
      LoadFrame(old(heap[..]), heap[..], p - base + FREE_FIELD, 4);
      LoadFrame(old(heap[..]), heap[..], p - base + NEXT_FIELD, 8);
    }

    method StoreFree(p: nat, v: nat)
      requires HasHeader(p) && v <= 1
      modifies heap
      ensures SameOn(old(heap[..]), heap[..], 0, p - base + FREE_FIELD)
      ensures SameOn(old(heap[..]), heap[..], p - base + FREE_FIELD + 4, HEAP_SIZE)
      ensures SizeOf(p) == old(SizeOf(p)) && Next(p) == old(Next(p))
      ensures Load(heap[..], p - base + FREE_FIELD, 4) == v
    {
      RadixOfCells();
      Store(p - base + FREE_FIELD, 4, v);
      LoadFrame(old(heap[..]), heap[..], p - base, 8);
      LoadFrame(old(heap[..]), heap[..], p - base + NEXT_FIELD, 8);
    }

    method StoreNext(p: nat, v: nat)
      requires HasHeader(p) && v <= SIZE_MAX
      modifies heap
      ensures SameOn(old(heap[..]), heap[..], 0, p - base + NEXT_FIELD)
      ensures SameOn(old(heap[..]), heap[..], p - base + HEADER, HEAP_SIZE)
      ensures SizeOf(p) == old(SizeOf(p)) && Next(p) == v
      ensures Load(heap[..], p - base + FREE_FIELD, 4) == old(Load(heap[..], p - base + FREE_FIELD, 4))
    {
      RadixOfCells();
      Store(p - base + NEXT_FIELD, 8, v);
      LoadFrame(old(heap[..]), heap[..], p - base, 8);
      LoadFrame(old(heap[..]), heap[..], p - base + FREE_FIELD, 4);
    }

    /** Write all three fields of a header. */
    method FillHeader(p: nat, size: nat, free: nat, next: nat)
      requires HasHeader(p) && size <= SIZE_MAX && free <= 1 && next <= SIZE_MAX
      modifies heap
      ensures SameOn(old(heap[..]), heap[..], 0, p - base)
      ensures SameOn(old(heap[..]), heap[..], p - base + HEADER, HEAP_SIZE)
      ensures Cells(heap[..], p - base, size, free, next)
    {
      StoreSize(p, size);
      StoreFree(p, free);
      StoreNext(p, next);
    }

    /** Write the size and the successor of a header. */
    method Relink(p: nat, size: nat, next: nat)
      requires HasHeader(p) && size <= SIZE_MAX && next <= SIZE_MAX
      modifies heap
      ensures SameOn(old(heap[..]), heap[..], 0, p - base)
      ensures SameOn(old(heap[..]), heap[..], p - base + HEADER, HEAP_SIZE)
      ensures Cells(heap[..], p - base, size, old(Load(heap[..], p - base + FREE_FIELD, 4)), next)
    {
      StoreSize(p, size);
      StoreNext(p, next);
    }

    // ----- The allocator's steps -----

    method InitHeap()
      requires Valid()
      modifies this, heap
      ensures Valid() && heapInit && blocks == old(blocks) && live == old(live) && errno == old(errno)
      ensures Contents() == old(Contents())
      ensures old(heapInit) ==> unchanged(heap)
    {
      if heapInit {
        return;
      }
      freeList := base;
      FillHeader(freeList, HEAP_SIZE - HEADER, 1, NULL);
      heapInit := true;
      assert HeaderOk(heap[..], base, blocks, 0);
      assert InUse(blocks) == {};
      assert live == map[];
    }

    /** split_block, on the bytes alone. */
    method SplitBlock(block: nat, size: nat)
      requires HasHeader(block) && block + HEADER + SizeOf(block) <= base + HEAP_SIZE <= SIZE_MAX
      requires size <= SizeOf(block) && Load(heap[..], block - base + FREE_FIELD, 4) == 1 && Next(block) <= SIZE_MAX
      modifies heap
      ensures Carved(old(heap[..]), heap[..], base, block - base, old(SizeOf(block)), size, old(Next(block)))
    {
      if SizeOf(block) >= size + HEADER + 16 {
        var newBlock := block + HEADER + size;
        ghost var m0, rest, next := heap[..], SizeOf(block) - size - HEADER, Next(block);
        FillHeader(newBlock, SizeOf(block) - size - HEADER, 1, Next(block));
        ghost var m1 := heap[..];
        LoadFrame(m0, m1, block - base + FREE_FIELD, 4);
        Relink(block, size, newBlock);
        CellsFrame(m1, heap[..], newBlock - base, rest, 1, next);
      }
    }

    /** curr is the address of block k. */
    ghost predicate At(curr: nat, k: nat)
      reads this, heap
    {
      Linked() && k < |blocks| && curr == base + blocks[k].off
    }

    lemma Here(curr: nat, k: nat)
      requires At(curr, k)
      ensures HasHeader(curr) && SizeOf(curr) == blocks[k].size
      ensures Load(heap[..], curr - base + FREE_FIELD, 4) == (if blocks[k].use.Vacant? then 1 else 0)
      ensures Next(curr) == NextAddress(base, blocks, k)
      ensures curr + HEADER + blocks[k].size <= base + HEAP_SIZE
    {
      CellsOf(heap[..], base, blocks, k);
      BlockInside(blocks, k);
    }

    /** The body of the merging branch: curr takes over the block after it. */
    method AbsorbNext(curr: nat, ghost k: nat)
      requires At(curr, k) && Indexes(live, base, InUse(blocks)) && Inside(live)
      requires k + 1 < |blocks| && blocks[k].use.Vacant? && blocks[k + 1].use.Vacant?
      modifies heap, `blocks
      ensures At(curr, k) && blocks == MergeAt(old(blocks), k)
      ensures InUse(blocks) == old(InUse(blocks)) && View(heap[..], live) == old(View(heap[..], live))
    {
      Here(curr, k);
      Here(base + blocks[k + 1].off, k + 1);
      ghost var m0 := heap[..];
      var after := Next(Next(curr));
      if k + 2 < |blocks| { BlockInside(blocks, k + 2); }
      Relink(curr, SizeOf(curr) + HEADER + SizeOf(Next(curr)), after);
      MergeRep(m0, heap[..], base, blocks, live, k);
      blocks := MergeAt(blocks, k);
    }

    /** merge_free_blocks: one pass along the list. */
    method MergeFreeBlocks()
      requires Linked() && Indexes(live, base, InUse(blocks)) && Inside(live)
      modifies heap, `blocks
      ensures Linked() && blocks == Coalesce(old(blocks), 0)
      ensures InUse(blocks) == old(InUse(blocks)) && View(heap[..], live) == old(View(heap[..], live))
    {
      var curr := freeList;
      ghost var k := 0;
      Here(curr, k);
      while curr != NULL && Next(curr) != NULL
        invariant At(curr, k) && HasHeader(curr) && Next(curr) == NextAddress(base, blocks, k)
        invariant Coalesce(blocks, k) == Coalesce(old(blocks), 0)
        invariant InUse(blocks) == old(InUse(blocks))
        invariant View(heap[..], live) == old(View(heap[..], live))
        decreases |blocks| - k
      {
        Here(curr, k);
        Here(Next(curr), k + 1);
        if IsFree(curr) && IsFree(Next(curr)) {
          AbsorbNext(curr, k);
        } else {
          curr := Next(curr);
          k := k + 1;
        }
        Here(curr, k);
      }
    }
  
    /** Split the fitting block at curr and clear its free flag, on the bytes. */
    method CarveAndMark(curr: nat, n: nat, ghost k: nat)
      requires At(curr, k) && Indexes(live, base, InUse(blocks)) && Inside(live)
      requires Fits(blocks[k], Align16(n))
      modifies heap
      ensures Rep(heap[..], base, Place(blocks, k, n))
      ensures View(heap[..], live) == old(View(heap[..], live))
    {
      Here(curr, k);
      if k + 1 < |blocks| { BlockInside(blocks, k + 1); }
      ghost var m0 := heap[..];
      SplitBlock(curr, Align16(n));
      ghost var m1 := heap[..];
      StoreFree(curr, 0);
      PlaceRep(m0, m1, heap[..], base, blocks, live, k, n);
    }

    /** The body of malloc's search loop once curr fits. */
    method Take(curr: nat, n: nat, ghost k: nat)
      requires Valid() && At(curr, k) && 1 <= n <= SIZE_MAX && Fits(blocks[k], Align16(n))
      requires k == FirstFit(blocks, Align16(n))
      modifies heap, `blocks, `live
      ensures Valid() && k < |blocks| && blocks == Place(old(blocks), k, n) && blocks[k].End() <= HEAP_SIZE
      ensures blocks[k].use == Used(n)
      ensures Pointer(base, blocks[k]) == curr + HEADER && curr + HEADER !in old(live)
      ensures live == old(live)[curr + HEADER := blocks[k]]
      ensures Contents() == old(Contents())[curr + HEADER := Payload(heap[..], blocks[k])]
    {
      hide Rep, View, Align16, Tiled, Granted, Coalesced, Reachable, FirstFit;
      ReachableStep(blocks, MallocCall(n), Malloced(blocks, n));
      CarveAndMark(curr, n, k);
      PlaceGood(blocks, k, n);
      ghost var us := InUse(blocks);
      PlaceFresh(blocks, k, n);
      blocks := Place(blocks, k, n);
      IndexAdd(live, base, us, blocks[k], InUse(blocks));
      BlockInside(blocks, k);
      ViewExtend(heap[..], live, curr + HEADER, blocks[k]);
      live := live[curr + HEADER := blocks[k]];
    }

    /** malloc's walk along the list: it stops at the first block that fits, or at its end. */
    method Search(size: nat) returns (curr: nat, ghost k: nat)
      requires Linked()
      ensures k == FirstFit(blocks, size)
      ensures if k == |blocks| then curr == NULL else curr != NULL && At(curr, k)
      ensures var first := FirstFit(blocks, size); curr == if first < |blocks| then base + blocks[first].off else NULL
    {
      curr, k := freeList, 0;
      while curr != NULL
        invariant k <= |blocks|
        invariant if curr == NULL then k == |blocks| else At(curr, k)
        invariant forall i :: 0 <= i < k ==> !Fits(blocks[i], size)
        decreases |blocks| - k
      {
        Here(curr, k);
        if IsFree(curr) && SizeOf(curr) >= size {
          return;
        }
        curr, k := Next(curr), k + 1;
      }
    }

    method Malloc(n: nat) returns (r: nat)
      requires Valid() && n <= SIZE_MAX
      modifies this, heap
      ensures Valid() && (n > 0 ==> heapInit)
      ensures n == 0 ==> r == NULL && unchanged(this) && unchanged(heap)
      ensures blocks == Malloced(old(blocks), n) && Step(old(blocks), MallocCall(n), blocks)
      ensures r == NULL && n > 0 <==> n > 0 && FirstFit(old(blocks), Align16(n)) == |old(blocks)|
      ensures r == NULL ==>
        && blocks == old(blocks) && live == old(live) && Contents() == old(Contents())
        && (n > 0 ==> errno == ENOMEM) && (old(heapInit) ==> unchanged(heap))
      ensures r != NULL ==>
        var k := FirstFit(old(blocks), Align16(n));
        && k < |old(blocks)| && r == Pointer(base, old(blocks)[k]) && r !in old(live)
        && errno == old(errno)
        && blocks == Place(old(blocks), k, n) && k < |blocks| && blocks[k].End() <= HEAP_SIZE
        && live == old(live)[r := blocks[k]] && blocks[k].use == Used(n)
        && Contents() == old(Contents())[r := Payload(heap[..], blocks[k])]
    {
      hide Good, Reachable, Rep, Indexes, Inside, View, Place, Payload;
      if n == 0 {
        return NULL;
      }
      if !heapInit {
        InitHeap();
      }
      var curr, k := Search(Align16(n));
      if curr != NULL {
        Take(curr, n, k);
        return curr + HEADER;
      }
      errno := ENOMEM;
      return NULL;
    }

    /** Set the free flag of the live block k, on the bytes. */
    method MarkFree(block: nat, ghost k: nat)
      requires Valid() && At(block, k) && blocks[k].use.Used?
      modifies heap
      ensures Rep(heap[..], base, blocks[k := blocks[k].(use := Vacant)])
      ensures View(heap[..], live) == old(View(heap[..], live))
    {
      Here(block, k);
      ghost var m0 := heap[..];
      StoreFree(block, 1);
      UseRep(m0, heap[..], base, blocks, k, Vacant);
      BlockInside(blocks, k);
      FreeBlockFrame(m0, heap[..], base, blocks, live, k, blocks[k].off + HEADER);
    }

    /** Make the live block k a free one and take its pointer from the clients. */
    method Unlink(p: nat, ghost k: nat)
      requires Valid() && p in live && k < |blocks| && blocks[k] == live[p]
      modifies heap, `blocks, `live
      ensures Linked() && blocks == old(blocks)[k := old(blocks)[k].(use := Vacant)]
      ensures live == old(live) - {p} && Indexes(live, base, InUse(blocks)) && Inside(live)
      ensures View(heap[..], live) == old(Contents()) - {p}
    {
      Known(p);
      UnmarkInUse(blocks, k);
      IndexRemove(live, base, InUse(blocks), p, InUse(blocks) - {blocks[k]});
      hide Good, Reachable, Rep, View, InUse, Tiled, Indexes;
      MarkFree(p - HEADER, k);
      ViewShrink(heap[..], live, p);
      blocks, live := blocks[k := blocks[k].(use := Vacant)], live - {p};
    }

    lemma PositionOf(p: nat) returns (k: nat)
      requires Valid() && p in live
      ensures k < |blocks| && blocks[k] == live[p] && live[p] in InUse(blocks)
      ensures var after := Coalesce(blocks[k := blocks[k].(use := Vacant)], 0);
        Good(after) && Reachable(after) && Freed(blocks, live[p], after)
    {
      k :| 0 <= k < |blocks| && blocks[k] == live[p];
      assert blocks[k] in InUse(blocks);
      ReleaseSpec(blocks, k);
      ReachableStep(blocks, FreeCall(live[p]), Release(blocks, k));
    }

    method Free(p: nat)
      requires Valid() && (p == NULL || p in live)
      modifies this, heap
      ensures Valid() && errno == old(errno) && heapInit == old(heapInit)
      ensures p == NULL ==> unchanged(this) && unchanged(heap)
      ensures p != NULL ==>
        && Dropped(old(blocks), old(live), old(Contents()), p)
        && Step(old(blocks), FreeCall(old(live)[p]), blocks)
    {
      if p == NULL {
        return;
      }
      ghost var k := PositionOf(p);
      hide Good, Reachable, Rep, View, Coalesce, Inside, Indexes, InUse, Tiled;
      Unlink(p, k);
      MergeFreeBlocks();
    }

    /** memset on the heap's bytes. */
    method Memset(dst: nat, c: byte, n: nat)
      requires base <= dst && dst + n <= base + heap.Length
      modifies heap
      ensures SameOn(old(heap[..]), heap[..], 0, dst - base)
      ensures SameOn(old(heap[..]), heap[..], dst - base + n, heap.Length)
      ensures forall a :: dst - base <= a < dst - base + n ==> heap[a] == c
    {
      for i := 0 to n
        invariant SameOn(old(heap[..]), heap[..], 0, dst - base)
        invariant SameOn(old(heap[..]), heap[..], dst - base + n, heap.Length)
        invariant forall a :: dst - base <= a < dst - base + i ==> heap[a] == c
      {
        heap[dst - base + i] := c;
      }
    }

    /** memcpy on the heap's bytes; the two areas do not overlap. */
    method Memcpy(dst: nat, src: nat, n: nat)
      requires base <= dst && dst + n <= base + heap.Length
      requires base <= src && src + n <= base + heap.Length
      requires dst + n <= src || src + n <= dst
      modifies heap
      ensures SameOn(old(heap[..]), heap[..], 0, dst - base)
      ensures SameOn(old(heap[..]), heap[..], dst - base + n, heap.Length)
      ensures heap[dst - base..dst - base + n] == old(heap[src - base..src - base + n])
    {
      for i := 0 to n
        invariant SameOn(old(heap[..]), heap[..], 0, dst - base)
        invariant SameOn(old(heap[..]), heap[..], dst - base + n, heap.Length)
        invariant heap[dst - base..dst - base + i] == old(heap[src - base..src - base + i])
      {
        heap[dst - base + i] := heap[src - base + i];
      }
    }

    /** A client reads one byte of its own block. */
    method Peek(p: nat, i: nat) returns (v: byte)
      requires Valid() && p in live && i < live[p].size
      ensures p in Contents() && i < |Contents()[p]| && v == Contents()[p][i]
    {
      ViewAt(heap[..], live, p);
      v := heap[p - base + i];
    }

    /** A client writes one byte of its own block. */
    method Poke(p: nat, i: nat, v: byte)
      requires Valid() && p in live && i < live[p].size && p in Contents() && i < |Contents()[p]|
      modifies heap
      ensures Valid()
      ensures Contents() == old(Contents())[p := Poked(old(Contents())[p], i, v)]
    {
      assert heapInit by { assert live[p] in InUse(blocks); }
      hide Good, Reachable, Rep, View, Poked;
      ghost var m0 := heap[..];
      heap[p - base + i] := v;
      PokeView(m0, heap[..], base, blocks, live, p, i, v);
    }

    /** r is a new live block whose first total bytes, all that was asked for, are zero. */
    ghost predicate Zeroed(r: nat, total: nat)
      requires Valid()
      reads this, heap
    {
      && r in live && live[r].use == Used(total)
      && r in Contents() && total <= |Contents()[r]|
      && forall j :: 0 <= j < total ==> Contents()[r][j] == 0
    }

    /** calloc once the product is known not to overflow. */
    method MallocZeroed(total: nat) returns (r: nat)
      requires Valid() && 0 < total <= SIZE_MAX - 15
      modifies this, heap
      ensures Valid() && blocks == Malloced(old(blocks), total)
      ensures r == NULL ==> live == old(live) && Contents() == old(Contents()) && errno == ENOMEM
      ensures r != NULL ==>
        && r !in old(live) && Zeroed(r, total)
        && live == old(live)[r := live[r]] && Contents() == old(Contents())[r := Contents()[r]]
    {
      hide Good, Reachable, Rep, View, FirstFit, Place, Malloced;
      r := Malloc(total);
      if r != NULL {
        Granting(r);
        ClearPayload(r, total);
      }
    }

    method Calloc(nmemb: nat, size: nat) returns (r: nat)
      requires Valid() && nmemb <= SIZE_MAX && size <= SIZE_MAX
      requires nmemb * size <= SIZE_MAX ==> nmemb * size <= SIZE_MAX - 15
      modifies this, heap
      ensures Valid()
      ensures nmemb == 0 || size == 0 ==> r == NULL && unchanged(this) && unchanged(heap)
      ensures nmemb * size > SIZE_MAX ==> r == NULL && errno == ENOMEM && blocks == old(blocks) && unchanged(heap)
      ensures Step(old(blocks), CallocCall(nmemb, size), blocks)
      ensures r == NULL ==> live == old(live) && Contents() == old(Contents())
      ensures r == NULL && nmemb != 0 && size != 0 ==> errno == ENOMEM
      ensures r != NULL ==>
        && r !in old(live) && Zeroed(r, nmemb * size)
        && live == old(live)[r := live[r]] && Contents() == old(Contents())[r := Contents()[r]]
    {
      if nmemb == 0 || size == 0 {
        return NULL;
      }
      hide Good, Reachable, Rep, View, Indexes, Inside, FirstFit, Place, Malloced, Zeroed, Step;
      Overflow(nmemb, size);
      CallocStep(blocks, nmemb, size);
      if nmemb > SIZE_MAX / size {
        errno := ENOMEM;
        return NULL;
      }
      r := MallocZeroed(nmemb * size);
    }

    method Realloc(p: nat, size: nat) returns (r: nat)
      requires Valid() && size <= SIZE_MAX && (p == NULL || p in live)
      requires p != NULL && live[p].size < size ==> size <= SIZE_MAX - 15
      modifies this, heap
      ensures Valid()
      ensures p == NULL ==> Step(old(blocks), MallocCall(size), blocks)
      ensures p != NULL ==> Step(old(blocks), ReallocCall(old(live)[p], size), blocks)
      ensures p == NULL && r != NULL ==>
        && r !in old(live) && r in live && live == old(live)[r := live[r]] && live[r].use == Used(size)
        && r in Contents() && Contents() == old(Contents())[r := Contents()[r]]
      ensures p == NULL && r == NULL ==>
        live == old(live) && Contents() == old(Contents()) && (size > 0 ==> errno == ENOMEM)
      ensures p != NULL && size == 0 ==> r == NULL && Dropped(old(blocks), old(live), old(Contents()), p)
      ensures p != NULL && 0 < size <= old(live)[p].size ==> r == p && unchanged(this) && unchanged(heap)
      ensures p != NULL && old(live)[p].size < size ==>
        && (r == NULL ==>
            && blocks == old(blocks) && live == old(live) && Contents() == old(Contents()) && errno == ENOMEM)
        && (r != NULL ==> Moved(old(blocks), old(live), old(Contents()), p, r, size))
    {
      if p == NULL {
        r := Malloc(size);
        return;
      }
      if size == 0 {
        Free(p);
        return NULL;
      }
      Known(p);
      var block := p - HEADER;
      if SizeOf(block) >= size {
        return p;
      }
      r := Grow(p, SizeOf(block), size);
    }

    /** p is gone from what was there before, and nothing else. */
    ghost predicate Dropped(blocks0: seq<Block>, live0: map<nat, Block>, contents0: map<nat, seq<byte>>, p: nat)
      requires Valid()
      reads this, heap
    {
      && p in live0
      && Freed(blocks0, live0[p], blocks)
      && live == live0 - {p} && Contents() == contents0 - {p}
    }

    /** The block behind p has moved, with all its bytes, to the new and larger block r. */
    ghost predicate Moved(blocks0: seq<Block>, live0: map<nat, Block>, contents0: map<nat, seq<byte>>,
                          p: nat, r: nat, size: nat)
      requires Valid()
      reads this, heap
    {
      && p in live0 && r !in live0 && r in live && live[r].use == Used(size)
      && Freed(Malloced(blocks0, size), live0[p], blocks)
      && live == live0[r := live[r]] - {p}
      && p in contents0 && r in Contents()
      && Contents() == contents0[r := Contents()[r]] - {p}
      && size <= |Contents()[r]| && contents0[p] <= Contents()[r]
    }

    /** A live pointer's header is where realloc and free look for it. */
    lemma Known(p: nat)
      requires Valid() && p in live
      ensures heapInit && HEADER <= p && HasHeader(p - HEADER) && SizeOf(p - HEADER) == live[p].size
    {
      var k :| 0 <= k < |blocks| && blocks[k] == live[p];
      Here(p - HEADER, k);
    }

    lemma Granting(p: nat)
      requires Valid() && p in live
      ensures live[p].use.Used?
      ensures live[p].size >= live[p].use.request <==> live[p].use.request <= SIZE_MAX - 15
    {
      GrantCovers(blocks, live[p]);
    }

    /** realloc's slow path: a new block, a copy, and the old block freed. */
    method Grow(p: nat, oldSize: nat, size: nat) returns (r: nat)
      requires Valid() && p in live && live[p].size == oldSize < size <= SIZE_MAX - 15
      modifies this, heap
      ensures Valid()
      ensures r == NULL ==>
        && blocks == old(blocks) && live == old(live) && Contents() == old(Contents()) && errno == ENOMEM
      ensures r == NULL <==> FirstFit(old(blocks), Align16(size)) == |old(blocks)|
      ensures r != NULL ==> Moved(old(blocks), old(live), old(Contents()), p, r, size)
    {
      hide Good, Reachable, Rep, View, FirstFit, Place, Malloced;
      r := Malloc(size);
      if r == NULL {
        return;
      }
      Granting(r);
      CopyPayload(r, p, oldSize);
      Free(p);
    }

    /** memcpy of the whole block behind src to the front of the block behind dst. */
    method CopyPayload(dst: nat, src: nat, n: nat)
      requires Valid() && dst in live && src in live && dst != src && live[src].size == n <= live[dst].size
      modifies heap
      ensures Valid()
      ensures src in old(Contents()) && dst in Contents()
      ensures Contents() == old(Contents())[dst := Contents()[dst]] && |Contents()[dst]| == live[dst].size
      ensures old(Contents())[src] <= Contents()[dst]
    {
      hide Good, Reachable, View, Payload, Inside, Indexes, SameOn, InUse, Tiled, HeaderOk;
      Known(src);
      ghost var m0 := heap[..];
      CopyFits(m0, base, blocks, live, dst, src);
      ViewAt(m0, live, src);
      Memcpy(dst, src, n);
      CopyView(m0, heap[..], base, blocks, live, dst, src, n);
      ViewAt(heap[..], live, dst);
    }

    /** memset on the front of a live block. */
    method ClearPayload(p: nat, n: nat)
      requires Valid() && p in live && n <= live[p].size
      modifies heap
      ensures Valid()
      ensures p in Contents() && Contents() == old(Contents())[p := Contents()[p]] && |Contents()[p]| == live[p].size
      ensures forall j :: 0 <= j < n ==> Contents()[p][j] == 0
    {
      Known(p);
      InHeap(p);
      hide Good, Reachable, Rep, View, Payload, Inside, Indexes, SameOn, InUse, Tiled;
      ghost var m0 := heap[..];
      Memset(p, 0, n);
      ClearView(m0, heap[..], base, blocks, live, p, n);
      ViewAt(heap[..], live, p);
    }

    lemma InHeap(p: nat)
      requires Valid() && p in live
      ensures base <= p && p + live[p].size <= base + HEAP_SIZE
    {
      ViewAt(heap[..], live, p);
      PayloadsApart(heap[..], base, blocks, live, p, p);
    }
  }

  lemma CallocStep(bs: seq<Block>, nmemb: nat, size: nat)
    ensures Step(bs, CallocCall(nmemb, size), if nmemb * size <= SIZE_MAX then Malloced(bs, nmemb * size) else bs)
  {
  }

  lemma Overflow(nmemb: nat, size: nat)
    requires 0 < size
    ensures nmemb > SIZE_MAX / size <==> nmemb * size > SIZE_MAX
  {
    var q := SIZE_MAX / size;
    assert q * size <= SIZE_MAX < (q + 1) * size;
    if nmemb > q {
      assert nmemb * size >= (q + 1) * size;
    } else {
      assert nmemb * size <= q * size;
    }
  }
}
