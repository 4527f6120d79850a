/** What holds in every heap that any run of allocator calls can reach. */
module HeapRuns {
  import opened Memory
  import opened Blocks

  // ----- Calls and runs -----

  /** The calls a client makes; pointers are named by the live block behind them. */
  datatype Call =
    | MallocCall(n: nat)
    | CallocCall(nmemb: nat, size: nat)
    | ReallocCall(b: Block, n: nat)
    | FreeCall(b: Block)

  ghost predicate Step(bs: seq<Block>, call: Call, bs': seq<Block>) {
    match call
    case MallocCall(n) =>
      n <= SIZE_MAX && bs' == Malloced(bs, n)
    case CallocCall(nmemb, size) =>
      bs' == if nmemb * size <= SIZE_MAX then Malloced(bs, nmemb * size) else bs
    case FreeCall(b) =>
      Freed(bs, b, bs')
    case ReallocCall(b, n) =>
      && b in InUse(bs) && n <= SIZE_MAX
      && if n == 0 then Freed(bs, b, bs')
         else if b.size >= n || FirstFit(bs, Align16(n)) == |bs| then bs' == bs
         else Freed(Malloced(bs, n), b, bs')
  }

  ghost predicate Run(trace: seq<seq<Block>>, calls: seq<Call>) {
    && |trace| == |calls| + 1
    && trace[0] == Initial
    && forall i :: 0 <= i < |calls| ==> Step(trace[i], calls[i], trace[i + 1])
  }

  ghost predicate Reachable(bs: seq<Block>) {
    exists trace, calls :: Run(trace, calls) && bs == trace[|calls|]
  }

  lemma InitialGood()
    ensures Good(Initial)
  {
  }

  lemma MallocedGood(bs: seq<Block>, n: nat)
    requires Good(bs) && n <= SIZE_MAX
    ensures Good(Malloced(bs, n)) && InUse(bs) <= InUse(Malloced(bs, n))
  {
    var k := FirstFit(bs, Align16(n));
    if n > 0 && k < |bs| {
      PlaceGood(bs, k, n);
      PlaceInUse(bs, k, n);
    }
  }

  lemma FreedGood(bs: seq<Block>, b: Block, bs': seq<Block>)
    requires Good(bs) && Freed(bs, b, bs')
    ensures Good(bs') && InUse(bs') == InUse(bs) - {b}
  {
    var k: nat :| k < |bs| && bs[k] == b && bs' == Release(bs, k);
    ReleaseSpec(bs, k);
  }

  lemma StepGood(bs: seq<Block>, call: Call, bs': seq<Block>)
    requires Good(bs) && Step(bs, call, bs')
    ensures Good(bs')
  {
    hide Good, Malloced, FirstFit, Freed;
    match call
    case MallocCall(n) => MallocedGood(bs, n);
    case CallocCall(nmemb, size) => if nmemb * size <= SIZE_MAX { MallocedGood(bs, nmemb * size); }
    case FreeCall(b) => FreedGood(bs, b, bs');
    case ReallocCall(b, n) =>
      MallocedGood(bs, n);
      if n == 0 {
        FreedGood(bs, b, bs');
      } else if bs' != bs {
        FreedGood(Malloced(bs, n), b, bs');
      }
  }

  lemma {:induction false} RunGood(trace: seq<seq<Block>>, calls: seq<Call>, i: nat)
    requires Run(trace, calls) && i <= |calls|
    ensures Good(trace[i])
  {
    if i == 0 {
      InitialGood();
    } else {
      RunGood(trace, calls, i - 1);
      StepGood(trace[i - 1], calls[i - 1], trace[i - 1 + 1]);
    }
  }

  /** Every reachable heap is a coalesced tiling whose live blocks were granted what they asked for. */
  lemma ReachableGood(bs: seq<Block>)
    requires Reachable(bs)
    ensures Good(bs)
  {
    var trace, calls :| Run(trace, calls) && bs == trace[|calls|];
    RunGood(trace, calls, |calls|);
  }

  lemma RunGrows(trace: seq<seq<Block>>, calls: seq<Call>, call: Call, bs: seq<Block>)
    requires Run(trace, calls) && Step(trace[|calls|], call, bs)
    ensures Run(trace + [bs], calls + [call])
  {
    hide Step;
    var trace', calls' := trace + [bs], calls + [call];
    forall i | 0 <= i < |calls'| ensures Step(trace'[i], calls'[i], trace'[i + 1]) {
      if i < |calls| { assert Step(trace[i], calls[i], trace[i + 1]); }
    }
  }

  /** A run goes on with any further call. */
  lemma ReachableStep(bs: seq<Block>, call: Call, bs': seq<Block>)
    requires Reachable(bs) && Step(bs, call, bs')
    ensures Reachable(bs')
  {
    hide Step;
    var trace, calls :| Run(trace, calls) && bs == trace[|calls|];
    RunGrows(trace, calls, call, bs');
    assert (trace + [bs'])[|calls + [call]|] == bs';
  }

  lemma InitialReachable()
    ensures Reachable(Initial)
  {
    assert Run([Initial], []);
  }

  /** A run that has freed everything is back at the single block init_heap builds. */
  lemma AllFreedIsInitial(bs: seq<Block>)
    requires Reachable(bs) && InUse(bs) == {}
    ensures bs == Initial
  {
    ReachableGood(bs);
    InitialGood();
    assert InUse(Initial) == {};
    LayoutDetermined(bs, Initial);
  }

  /** Two runs that leave the same blocks live leave the same heap, whatever came before. */
  lemma HistoryIndependent(a: seq<Block>, b: seq<Block>)
    requires Reachable(a) && Reachable(b) && InUse(a) == InUse(b)
    ensures a == b
  {
    ReachableGood(a);
    ReachableGood(b);
    LayoutDetermined(a, b);
  }

  // ----- Every block has at least 16 bytes -----

  ghost predicate Roomy(bs: seq<Block>) {
    forall i :: 0 <= i < |bs| ==> bs[i].size >= 16
  }

  /** The call asks for a size that rounds up without wrapping. */
  predicate Modest(call: Call) {
    match call
    case MallocCall(n) => n <= SIZE_MAX - 15
    case CallocCall(nmemb, size) => nmemb * size <= SIZE_MAX - 15 || nmemb * size > SIZE_MAX
    case ReallocCall(b, n) => n <= SIZE_MAX - 15
    case FreeCall(b) => true
  }

  lemma MallocedRoomy(bs: seq<Block>, n: nat)
    requires Roomy(bs) && n <= SIZE_MAX - 15
    ensures Roomy(Malloced(bs, n))
  {
    var k := FirstFit(bs, Align16(n));
    if n > 0 && k < |bs| {
      AlignCovers(n);
      AlignMultiple(n);
      hide Align16;
      var p := Place(bs, k, n);
      forall i | 0 <= i < |p| ensures p[i].size >= 16 {
        assert i > k + |p| - |bs| ==> p[i] == bs[i - |p| + |bs|];
      }
    }
  }

  lemma {:induction false} CoalesceRoomy(bs: seq<Block>, k: nat)
    requires Roomy(bs) && k < |bs|
    ensures Roomy(Coalesce(bs, k))
    decreases |bs| - k
  {
    if k + 1 >= |bs| {
    } else if bs[k].use.Vacant? && bs[k + 1].use.Vacant? {
      var m := MergeAt(bs, k);
      forall i | 0 <= i < |m| ensures m[i].size >= 16 {
        assert i > k ==> m[i] == bs[i + 1];
      }
      CoalesceRoomy(m, k);
    } else {
      CoalesceRoomy(bs, k + 1);
    }
  }

  lemma FreedRoomy(bs: seq<Block>, b: Block, bs': seq<Block>)
    requires Roomy(bs) && Freed(bs, b, bs')
    ensures Roomy(bs')
  {
    var k: nat :| k < |bs| && bs[k] == b && bs' == Release(bs, k);
    CoalesceRoomy(bs[k := bs[k].(use := Vacant)], 0);
  }

  lemma StepRoomy(bs: seq<Block>, call: Call, bs': seq<Block>)
    requires Roomy(bs) && Step(bs, call, bs') && Modest(call)
    ensures Roomy(bs')
  {
    hide Malloced, FirstFit, Roomy, Freed;
    match call
    case MallocCall(n) => MallocedRoomy(bs, n);
    case CallocCall(nmemb, size) => if nmemb * size <= SIZE_MAX { MallocedRoomy(bs, nmemb * size); }
    case FreeCall(b) => FreedRoomy(bs, b, bs');
    case ReallocCall(b, n) =>
      MallocedRoomy(bs, n);
      if n == 0 {
        FreedRoomy(bs, b, bs');
      } else if bs' != bs {
        FreedRoomy(Malloced(bs, n), b, bs');
      }
  }

  lemma {:induction false} RunRoomy(trace: seq<seq<Block>>, calls: seq<Call>, i: nat)
    requires Run(trace, calls) && i <= |calls| && forall c :: c in calls ==> Modest(c)
    ensures Roomy(trace[i])
  {
    if i > 0 {
      RunRoomy(trace, calls, i - 1);
      StepRoomy(trace[i - 1], calls[i - 1], trace[i - 1 + 1]);
    }
  }

  // ----- Conservation -----

  ghost function LiveCount(bs: seq<Block>): nat {
    if bs == [] then 0 else (if bs[0].use.Used? then 1 else 0) + LiveCount(bs[1..])
  }

  ghost function FreeCount(bs: seq<Block>): nat {
    if bs == [] then 0 else (if bs[0].use.Used? then 0 else 1) + FreeCount(bs[1..])
  }

  ghost function LiveBytes(bs: seq<Block>): nat {
    if bs == [] then 0 else (if bs[0].use.Used? then bs[0].size else 0) + LiveBytes(bs[1..])
  }

  ghost function FreeBytes(bs: seq<Block>): nat {
    if bs == [] then 0 else (if bs[0].use.Used? then 0 else bs[0].size) + FreeBytes(bs[1..])
  }

  /** The sum of n + 47 over the requests n behind the live blocks. */
  ghost function Reserve(bs: seq<Block>): nat {
    if bs == [] then 0 else (if bs[0].use.Used? then bs[0].use.request + 47 else 0) + Reserve(bs[1..])
  }

  lemma {:induction false} SpanConserved(bs: seq<Block>)
    requires |bs| > 0 && forall i :: 0 <= i < |bs| - 1 ==> bs[i + 1].off == bs[i].End()
    ensures bs[|bs| - 1].End() - bs[0].off == LiveBytes(bs) + FreeBytes(bs) + HEADER * (LiveCount(bs) + FreeCount(bs))
  {
    if |bs| > 1 {
      assert bs[0 + 1].off == bs[0].End();
      forall i | 0 <= i < |bs[1..]| - 1 ensures bs[1..][i + 1].off == bs[1..][i].End() {
        assert bs[i + 1 + 1].off == bs[i + 1].End();
      }
      SpanConserved(bs[1..]);
    }
  }

  /** Live bytes, free bytes and one header per block make up the whole heap. */
  lemma Conservation(bs: seq<Block>)
    requires Reachable(bs)
    ensures LiveBytes(bs) + FreeBytes(bs) + HEADER * (LiveCount(bs) + FreeCount(bs)) == HEAP_SIZE
  {
    ReachableGood(bs);
    SpanConserved(bs);
  }

  lemma {:induction false} FreeAlternates(bs: seq<Block>)
    requires Coalesced(bs)
    ensures FreeCount(bs) <= LiveCount(bs) + 1
    ensures |bs| > 0 && bs[0].use.Used? ==> FreeCount(bs) <= LiveCount(bs)
  {
    if |bs| > 0 {
      forall i | 0 <= i < |bs[1..]| - 1 ensures bs[1..][i].use.Used? || bs[1..][i + 1].use.Used? {
        assert bs[i + 1].use.Used? || bs[i + 1 + 1].use.Used?;
      }
      FreeAlternates(bs[1..]);
      if |bs| > 1 { assert bs[0].use.Used? || bs[0 + 1].use.Used?; }
    }
  }

  /** Coalescing keeps the free blocks to at most one more than the live ones. */
  lemma FewFreeBlocks(bs: seq<Block>)
    requires Reachable(bs)
    ensures FreeCount(bs) <= LiveCount(bs) + 1
  {
    ReachableGood(bs);
    FreeAlternates(bs);
  }

  // ----- When malloc must succeed -----

  lemma {:induction false} Pigeonhole(bs: seq<Block>, size: nat)
    requires forall i :: 0 <= i < |bs| ==> !Fits(bs[i], size)
    ensures FreeBytes(bs) <= FreeCount(bs) * (size - 1)
  {
    if bs != [] {
      assert !Fits(bs[0], size);
      forall i | 0 <= i < |bs[1..]| ensures !Fits(bs[1..][i], size) {
        assert !Fits(bs[i + 1], size);
      }
      Pigeonhole(bs[1..], size);
      var f := FreeCount(bs[1..]);
      assert (f + 1) * (size - 1) == f * (size - 1) + (size - 1);
    }
  }

  lemma {:induction false} LiveWithinReserve(bs: seq<Block>)
    requires Granted(bs)
    ensures LiveBytes(bs) <= Reserve(bs)
  {
    if bs != [] {
      if bs[0].use.Used? {
        assert bs[0] in bs;
        AlignCovers(bs[0].use.request);
      }
      assert forall b :: b in bs[1..] ==> b in bs;
      LiveWithinReserve(bs[1..]);
    }
  }

  /** malloc(n) finds a block whenever the heap, less what the live requests and the headers can
      at worst take up, exceeds what the free blocks could hold while each is too small. */
  lemma MallocMustSucceed(bs: seq<Block>, n: nat)
    requires Reachable(bs) && 1 <= n <= SIZE_MAX - 15
    requires var k := LiveCount(bs);
      HEAP_SIZE - Reserve(bs) - HEADER * (2 * k + 1) > (k + 1) * (Align16(n) - 1)
    ensures FirstFit(bs, Align16(n)) < |bs|
  {
    ReachableGood(bs);
    var size, k, f := Align16(n), LiveCount(bs), FreeCount(bs);
    AlignCovers(n);
    Conservation(bs);
    FewFreeBlocks(bs);
    LiveWithinReserve(bs);
    if FirstFit(bs, size) == |bs| {
      Pigeonhole(bs, size);
      ProductGrows(f, k + 1, size - 1);
      assert false;
    }
  }

  lemma ProductGrows(a: nat, b: nat, c: nat)
    requires a <= b
    ensures a * c <= b * c
  {
  }

  // ----- Alignment -----

  /** The number of blocks whose size is a multiple of 16. */
  ghost function SixteensIn(bs: seq<Block>): nat {
    if bs == [] then 0 else SixteensIn(bs[..|bs| - 1]) + if bs[|bs| - 1].size % 16 == 0 then 1 else 0
  }

  lemma {:induction false} OffsetParity(bs: seq<Block>, i: nat)
    requires Tiled(bs) && i < |bs|
    ensures bs[i].off % 16 == if SixteensIn(bs[..i]) % 2 == 1 then 8 else 0
  {
    if i > 0 {
      OffsetParity(bs, i - 1);
      assert bs[..i][..i - 1] == bs[..i - 1];
      assert bs[i - 1 + 1].off == bs[i - 1].End();
      ParityStep(bs[i - 1].off, bs[i - 1].size, SixteensIn(bs[..i - 1]));
    }
  }

  /** A block moves the next header by 8 modulo 16 exactly when its size is a multiple of 16. */
  lemma ParityStep(off: nat, size: nat, n: nat)
    requires size % 8 == 0 && off % 16 == if n % 2 == 1 then 8 else 0
    ensures (off + HEADER + size) % 16 == if (n + if size % 16 == 0 then 1 else 0) % 2 == 1 then 8 else 0
  {
    assert size % 16 == 0 || size % 16 == 8;
    var x, y, r := off / 16, size / 16, off % 16 + size % 16 + 8;
    assert off + HEADER + size == 16 * (x + y + 1) + r;
    SmallResidue(x + y + 1, r);
  }

  lemma SmallResidue(q: nat, r: nat)
    requires r == 8 || r == 16 || r == 24
    ensures (16 * q + r) % 16 == if r == 16 then 0 else 8
  {
  }

  /** In a heap that starts at a multiple of 16 every pointer is a multiple of 8, and one is a
      multiple of 16 if and only if an odd number of the blocks before it have sizes that are. */
  lemma PointerAlignment(bs: seq<Block>, base: nat, i: nat)
    requires Reachable(bs) && i < |bs| && base % 16 == 0
    ensures (base + bs[i].off + HEADER) % 8 == 0
    ensures (base + bs[i].off + HEADER) % 16 == 0 <==> SixteensIn(bs[..i]) % 2 == 1
  {
    hide *;
    ReachableGood(bs);
    GoodTiled(bs);
    OffsetParity(bs, i);
    PointerResidue(base, bs[i].off);
  }

  lemma GoodTiled(bs: seq<Block>)
    requires Good(bs)
    ensures Tiled(bs)
  {
  }

  lemma PointerResidue(base: nat, off: nat)
    requires base % 16 == 0 && (off % 16 == 0 || off % 16 == 8)
    ensures (base + off + HEADER) % 8 == 0
    ensures (base + off + HEADER) % 16 == if off % 16 == 8 then 0 else 8
  {
    var x, y, r := base / 16, off / 16, off % 16;
    assert base == 16 * x && off == 16 * y + r;
    Residue(x + y + 1, r + 8);
  }

  lemma Residue(q: nat, s: nat)
    requires s == 8 || s == 16
    ensures (16 * q + s) % 16 == s % 16 && (16 * q + s) % 8 == 0
  {
    assert 16 * q + s == 8 * (2 * q + s / 8);
  }

  /** The first malloc of a run returns the 24th byte of the heap, not a multiple of 16. */
  lemma FirstPointerMisaligned(base: nat, n: nat)
    requires base % 16 == 0 && 1 <= n <= HEAP_SIZE - HEADER - 8
    ensures FirstFit(Initial, Align16(n)) == 0
    ensures Malloced(Initial, n)[0].off == 0 && Malloced(Initial, n)[0].use == Used(n)
    ensures (base + Malloced(Initial, n)[0].off + HEADER) % 16 == 8
  {
  }
}
