/** The allocator as clients see it: over any run it behaves as a map from pointers to byte strings. */
module HeapClient {
  import opened Memory
  import opened Blocks
  import opened HeapImage
  import opened HeapRuns
  import opened Heap

  /** The bytes behind every live pointer. */
  type Store = map<nat, seq<byte>>

  datatype Request =
    | MallocRequest(n: nat)
    | CallocRequest(nmemb: nat, size: nat)
    | ReallocRequest(p: nat, n: nat)
    | FreeRequest(p: nat)
    | ReadRequest(p: nat, i: nat)
    | WriteRequest(p: nat, i: nat, v: byte)

  /** What clients may ask for: they name live pointers and stay inside their blocks. */
  predicate Legal(store: Store, request: Request) {
    match request
    case MallocRequest(n) => n <= SIZE_MAX
    case CallocRequest(nmemb, size) =>
      && nmemb <= SIZE_MAX && size <= SIZE_MAX
      && (nmemb * size <= SIZE_MAX ==> nmemb * size <= SIZE_MAX - 15)
    case ReallocRequest(p, n) =>
      && (p == NULL || p in store) && n <= SIZE_MAX
      && (p != NULL && |store[p]| < n ==> n <= SIZE_MAX - 15)
    case FreeRequest(p) => p == NULL || p in store
    case ReadRequest(p, i) => p in store && i < |store[p]|
    case WriteRequest(p, i, v) => p in store && i < |store[p]|
  }

  /** r is NULL and nothing has happened, or r is a new pointer to n bytes or more. */
  ghost predicate Obtained(store: Store, n: nat, r: nat, store': Store) {
    if r == NULL then store' == store
    else
      && n > 0 && r !in store && r in store' && store' == store[r := store'[r]]
      && (n <= SIZE_MAX - 15 ==> n <= |store'[r]|)
  }

  /** r is an answer to the request that leaves the store as store'. */
  ghost predicate Answered(store: Store, request: Request, r: nat, store': Store)
    requires Legal(store, request)
  {
    match request
    case MallocRequest(n) => Obtained(store, n, r, store')
    case CallocRequest(nmemb, size) =>
      && Obtained(store, nmemb * size, r, store')
      && (nmemb * size > SIZE_MAX ==> r == NULL)
      && (r != NULL ==> forall j :: 0 <= j < nmemb * size ==> store'[r][j] == 0)
    case ReallocRequest(p, n) =>
      if p == NULL then Obtained(store, n, r, store')
      else if n == 0 then r == NULL && store' == store - {p}
      else if n <= |store[p]| then r == p && store' == store
      else if r == NULL then store' == store
      else
        && r !in store && r in store' && store' == store[r := store'[r]] - {p}
        && n <= |store'[r]| && store[p] <= store'[r]
    case FreeRequest(p) => store' == if p == NULL then store else store - {p}
    case ReadRequest(p, i) => store' == store && r == store[p][i] as nat
    case WriteRequest(p, i, v) => store' == store[p := Poked(store[p], i, v)]
  }

  /** The areas behind different pointers do not overlap, and NULL is not one of them. */
  ghost predicate Apart(store: Store) {
    && NULL !in store
    && forall p, q :: p in store && q in store && p < q ==> p + |store[p]| <= q
  }

  /** A client decides on its next request from the answers it has had. */
  type Client = seq<nat> -> Request

  /** The client's run on a map of byte strings: stores[i] is what is there after i requests. */
  ghost predicate MapRun(client: Client, stores: seq<Store>, answers: seq<nat>) {
    && |stores| == |answers| + 1
    && forall i :: 0 <= i < |answers| ==>
      && Legal(stores[i], client(answers[..i]))
      && Answered(stores[i], client(answers[..i]), answers[i], stores[i + 1])
  }

  /** Whatever the map answers, the client's first n requests are legal. */
  ghost predicate Careful(client: Client, start: Store, n: nat) {
    forall stores, answers ::
      MapRun(client, stores, answers) && stores[0] == start && |answers| < n ==>
        Legal(stores[|answers|], client(answers))
  }

  lemma StoreApart(a: Allocator)
    requires a.Valid()
    ensures Apart(a.Contents())
  {
    var store := a.Contents();
    forall p, q | p in store && q in store && p < q ensures p + |store[p]| <= q {
      PayloadsApart(a.heap[..], a.base, a.blocks, a.live, p, q);
    }
  }

  lemma SameSizes(a: Allocator)
    requires a.Valid()
    ensures forall p :: p in a.live <==> p in a.Contents()
    ensures forall p :: p in a.live ==> |a.Contents()[p]| == a.live[p].size
    ensures NULL !in a.Contents()
  {
    forall p | p in a.live ensures |a.Contents()[p]| == a.live[p].size { ViewAt(a.heap[..], a.live, p); }
    StoreApart(a);
  }

  /** A pointer that malloc or calloc has just returned has the bytes it was asked for. */
  lemma GrantedBytes(a: Allocator, r: nat, n: nat)
    requires a.Valid() && r in a.live && a.live[r].use == Used(n)
    ensures r in a.Contents() && (n <= SIZE_MAX - 15 ==> n <= |a.Contents()[r]|)
  {
    SameSizes(a);
    a.Granting(r);
  }

  /** When clients hold nothing, the heap is the single free block it began as. */
  lemma EmptyStoreIsInitial(a: Allocator)
    requires a.Valid() && a.Contents() == map[]
    ensures a.blocks == Initial
  {
    SameSizes(a);
    assert forall b :: b in InUse(a.blocks) ==> Pointer(a.base, b) in a.Contents();
    AllFreedIsInitial(a.blocks);
  }

  method AnswerMalloc(a: Allocator, n: nat) returns (r: nat)
    requires a.Valid() && n <= SIZE_MAX
    modifies a, a.heap
    ensures a.Valid() && Obtained(old(a.Contents()), n, r, a.Contents())
  {
    SameSizes(a);
    hide Good, Reachable, Rep, Indexes, Inside, View, FirstFit, Place, Malloced, Payload, Align16;
    r := a.Malloc(n);
    if r != NULL { GrantedBytes(a, r, n); }
  }

  method AnswerCalloc(a: Allocator, nmemb: nat, size: nat) returns (r: nat)
    requires a.Valid() && Legal(a.Contents(), CallocRequest(nmemb, size))
    modifies a, a.heap
    ensures a.Valid() && Answered(old(a.Contents()), CallocRequest(nmemb, size), r, a.Contents())
  {
    SameSizes(a);
    hide Good, Reachable, Rep, Indexes, Inside, View, FirstFit, Malloced;
    r := a.Calloc(nmemb, size);
  }

  method AnswerReallocNull(a: Allocator, n: nat) returns (r: nat)
    requires a.Valid() && n <= SIZE_MAX
    modifies a, a.heap
    ensures a.Valid() && Obtained(old(a.Contents()), n, r, a.Contents())
  {
    SameSizes(a);
    hide Good, Reachable, Rep, Indexes, Inside, View, Step;
    r := a.Realloc(NULL, n);
    if r != NULL { GrantedBytes(a, r, n); }
  }

  method AnswerReallocLive(a: Allocator, p: nat, n: nat) returns (r: nat)
    requires a.Valid() && p != NULL && Legal(a.Contents(), ReallocRequest(p, n))
    modifies a, a.heap
    ensures a.Valid() && Answered(old(a.Contents()), ReallocRequest(p, n), r, a.Contents())
  {
    SameSizes(a);
    hide Good, Reachable, Rep, Indexes, Inside, View, Step, Freed, Malloced;
    r := a.Realloc(p, n);
  }

  method AnswerAccess(a: Allocator, request: Request) returns (r: nat)
    requires a.Valid() && Legal(a.Contents(), request) && (request.ReadRequest? || request.WriteRequest?)
    modifies a.heap
    ensures a.Valid() && Answered(old(a.Contents()), request, r, a.Contents())
  {
    SameSizes(a);
    hide Good, Reachable, Rep, Indexes, Inside, View, Poked;
    match request
    case ReadRequest(p, i) =>
      var v := a.Peek(p, i);
      r := v as nat;
    case WriteRequest(p, i, v) =>
      a.Poke(p, i, v);
      r := NULL;
  }

  /** One request, served by the allocator. */
  method Answer(a: Allocator, request: Request) returns (r: nat)
    requires a.Valid() && Legal(a.Contents(), request)
    modifies a, a.heap
    ensures a.Valid() && Answered(old(a.Contents()), request, r, a.Contents())
  {
    SameSizes(a);
    hide Good, Reachable, Rep, Indexes, Inside, View, Obtained, Freed;
    match request
    case MallocRequest(n) => r := AnswerMalloc(a, n);
    case CallocRequest(nmemb, size) => r := AnswerCalloc(a, nmemb, size);
    case ReallocRequest(p, n) => if p == NULL { r := AnswerReallocNull(a, n); } else { r := AnswerReallocLive(a, p, n); }
    case FreeRequest(p) => a.Free(p); r := NULL;
    case _ => r := AnswerAccess(a, request);
  }

  lemma MapRunGrows(client: Client, stores: seq<Store>, answers: seq<nat>, r: nat, store: Store)
    requires MapRun(client, stores, answers) && Legal(stores[|answers|], client(answers))
    requires Answered(stores[|answers|], client(answers), r, store)
    ensures MapRun(client, stores + [store], answers + [r])
  {
    hide Legal, Answered;
    var stores', answers' := stores + [store], answers + [r];
    forall i | 0 <= i < |answers'|
      ensures Legal(stores'[i], client(answers'[..i])) && Answered(stores'[i], client(answers'[..i]), answers'[i], stores'[i + 1])
    {
      assert answers'[..i] == if i < |answers| then answers[..i] else answers;
      if i < |answers| { assert answers[i] == answers'[i]; }
    }
  }

  /** However a client goes on, what it sees of the heap is what it would see of a map. */
  method Perform(a: Allocator, client: Client, n: nat) returns (answers: seq<nat>, ghost stores: seq<Store>)
    requires a.Valid() && Careful(client, a.Contents(), n)
    modifies a, a.heap
    ensures a.Valid() && |answers| == n && MapRun(client, stores, answers)
    ensures stores[0] == old(a.Contents()) && stores[n] == a.Contents()
    ensures forall store :: store in stores ==> Apart(store)
    ensures stores[n] == map[] ==> a.blocks == Initial
  {
    hide Good, Reachable, Rep, Indexes, Inside, View, Apart, Legal, Answered;
    answers, stores := [], [a.Contents()];
    StoreApart(a);
    while |answers| < n
      invariant |answers| <= n && a.Valid() && MapRun(client, stores, answers)
      invariant stores[0] == old(a.Contents()) && stores[|answers|] == a.Contents()
      invariant forall store :: store in stores ==> Apart(store)
      decreases n - |answers|
    {
      var r := Answer(a, client(answers));
      StoreApart(a);
      MapRunGrows(client, stores, answers, r, a.Contents());
      answers, stores := answers + [r], stores + [a.Contents()];
    }
    if a.Contents() == map[] { EmptyStoreIsInitial(a); }
  }
}
