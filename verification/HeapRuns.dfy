/** Whole runs of the kernel heap. A run is any sequence of allocator calls and client
    writes; beside the heap it carries the ledger of blocks the clients still hold. */
module HeapRuns {
  import opened Words
  import opened HeapModel

  datatype Block = Block(blocks: nat, size: nat)

  /** `live` maps the first block of every allocation still held to its extent and size. */
  datatype World = World(heap: Heap, live: map<nat, Block>)

  datatype Call =
    | Malloc(size: u32)
    | Calloc(num: u32, elem: u32)
    | Realloc(ptr: u32, size: u32)
    | Free(ptr: u32)
    | Write(block: nat, offset: nat, value: byte)

  // --------------------------------------------------------------- invariant

  predicate InExtent(live: map<nat, Block>, s: nat, i: int)
    requires s in live
  {
    s <= i < s + live[s].blocks
  }

  ghost predicate Disjoint(live: map<nat, Block>) {
    forall s, t, i {:trigger InExtent(live, s, i), InExtent(live, t, i)} ::
      s in live && t in live && InExtent(live, s, i) && InExtent(live, t, i) ==> s == t
  }

  predicate Covered(live: map<nat, Block>, i: int) {
    exists s :: s in live && InExtent(live, s, i)
  }

  predicate BitmapAgrees(h: Heap, live: map<nat, Block>) {
    forall i :: 0 <= i < TOTAL_BLOCKS ==> (h.used[i] <==> Covered(live, i))
  }

  predicate Sound(h: Heap, live: map<nat, Block>, s: nat)
    requires s in live
  {
    && 1 <= live[s].blocks
    && s + live[s].blocks <= TOTAL_BLOCKS
    && 1 <= live[s].size <= Capacity(live[s].blocks)
    && HeaderAt(h.mem, s * BLOCK_SIZE) == Header(MAGIC, s, live[s].blocks, live[s].size)
  }

  /** The three records agree: ledger, bitmap and in-band headers. */
  ghost predicate Inv(w: World) {
    && w.heap.ready
    && (forall s :: s in w.live ==> Sound(w.heap, w.live, s))
    && Disjoint(w.live)
    && BitmapAgrees(w.heap, w.live)
  }

  // -------------------------------------------------------------------- runs

  /** Block index a payload pointer belongs to, if it is one a live allocation returned. */
  function LiveAt(w: World, p: u32): (r: Option<nat>)
    ensures r.Some? ==> r.value in w.live && r.value < TOTAL_BLOCKS && PayloadAddr(w.heap, r.value) == p
    ensures r.None? ==> forall s :: s in w.live && s < TOTAL_BLOCKS ==> PayloadAddr(w.heap, s) != p
  {
    var s := (p - w.heap.base - HEADER_SIZE) / BLOCK_SIZE;
    if s in w.live && 0 <= s < TOTAL_BLOCKS && PayloadAddr(w.heap, s) == p then Some(s) else None
  }

  /** A pointer a client may pass: null, outside the pool, held, or without a valid header
      (such as one just freed). */
  predicate PtrOk(w: World, p: u32) {
    p == NULL || !InPool(w.heap, p) || LiveAt(w, p).Some? || HeaderOf(w.heap, p).magic != MAGIC
  }

  /** What the clients owe the allocator. */
  predicate Legal(w: World, c: Call) {
    match c
    case Malloc(size) => Honoured(w.heap, size)
    case Calloc(num, elem) => Honoured(w.heap, Wrap(num * elem))
    case Realloc(p, size) =>
      PtrOk(w, p) && Honoured(w.heap, size) && (p == NULL || size == 0 || InPool(w.heap, p))
    case Free(p) => PtrOk(w, p)
    case Write(s, k, _) => s in w.live && k < Capacity(w.live[s].blocks)
  }

  /** The model of the call is defined: no access it makes depends on bytes outside the pool. */
  predicate Defined(w: World, c: Call) {
    match c
    case Malloc(_) => true
    case Calloc(num, elem) => Honoured(w.heap, Wrap(num * elem))
    case Realloc(p, size) => Reallocatable(w.heap, p, size)
    case Free(_) => true
    case Write(s, k, _) => s * BLOCK_SIZE + HEADER_SIZE + k < POOL_SIZE
  }

  /** The ledger after a request for `size` bytes. */
  function Held(w: World, size: u32): map<nat, Block> {
    match Placement(w.heap, size)
    case None => w.live
    case Some(s) => w.live[s := Block(BlocksNeeded(size), size)]
  }

  /** The ledger after `p` is given back. */
  function Dropped(w: World, p: u32): map<nat, Block> {
    match LiveAt(w, p)
    case None => w.live
    case Some(s) => w.live - {s}
  }

  function Resized(w: World, p: u32, size: u32): map<nat, Block> {
    if p == NULL then Held(w, size)
    else if size == 0 then Dropped(w, p)
    else match LiveAt(w, p)
      case None => w.live
      case Some(s) =>
        if size <= Capacity(w.live[s].blocks) then w.live[s := Block(w.live[s].blocks, size)]
        else if Placement(w.heap, size).None? then w.live
        else Held(w, size) - {s}
  }

  /** One call. An undefined call is outside the model; StepKeepsInv shows none is reached. */
  function Step(w: World, c: Call): World {
    if !Defined(w, c) then w
    else match c
      case Malloc(size) => World(AfterKmalloc(w.heap, size).0, Held(w, size))
      case Calloc(num, elem) => World(AfterKcalloc(w.heap, num, elem).0, Held(w, Wrap(num * elem)))
      case Realloc(p, size) => World(AfterKrealloc(w.heap, p, size).0, Resized(w, p, size))
      case Free(p) => World(AfterKfree(w.heap, p), Dropped(w, p))
      case Write(s, k, v) => World(w.heap.(mem := w.heap.mem[s * BLOCK_SIZE + HEADER_SIZE + k := v]), w.live)
  }

  function Run(w: World, calls: seq<Call>): World
    decreases |calls|
  {
    if calls == [] then w else Run(Step(w, calls[0]), calls[1..])
  }

  predicate LegalRun(w: World, calls: seq<Call>)
    decreases |calls|
  {
    calls == [] || (Legal(w, calls[0]) && LegalRun(Step(w, calls[0]), calls[1..]))
  }

  function Fresh(h: Heap): World {
    World(AfterInit(h), map[])
  }

  // ----------------------------------------------------- separation of blocks

  lemma ExtentsApart(w: World, s: nat, t: nat)
    requires Inv(w) && s in w.live && t in w.live && s < t
    ensures s + w.live[s].blocks <= t
  {
    assert Sound(w.heap, w.live, s) && Sound(w.heap, w.live, t);
    assert InExtent(w.live, t, t);
    assert InExtent(w.live, s, t) <==> t < s + w.live[s].blocks;
  }

  lemma DropCoverage(live: map<nat, Block>, s: nat, i: int)
    requires Disjoint(live) && s in live
    ensures Covered(live - {s}, i) <==> Covered(live, i) && !InExtent(live, s, i)
  {
    var less := live - {s};
    if Covered(less, i) {
      var t :| t in less && InExtent(less, t, i);
      assert InExtent(live, t, i);
    } else if Covered(live, i) {
      var t :| t in live && InExtent(live, t, i);
      assert t in less ==> InExtent(less, t, i);
    }
  }

  lemma DropDisjoint(live: map<nat, Block>, s: nat)
    requires Disjoint(live)
    ensures Disjoint(live - {s})
  {
    var less := live - {s};
    forall a, b, i | a in less && b in less && InExtent(less, a, i) && InExtent(less, b, i)
      ensures a == b
    {
      assert InExtent(live, a, i) && InExtent(live, b, i);
    }
  }

  lemma AddCoverage(live: map<nat, Block>, s: nat, b: Block, i: int)
    requires s !in live
    ensures Covered(live[s := b], i) <==> Covered(live, i) || s <= i < s + b.blocks
  {
    var more := live[s := b];
    if Covered(live, i) {
      var t :| t in live && InExtent(live, t, i);
      assert InExtent(more, t, i);
    } else if Covered(more, i) {
      var t :| t in more && InExtent(more, t, i);
      assert t != s ==> InExtent(live, t, i);
    } else {
      assert !InExtent(more, s, i);
    }
  }

  /** Disjointness and coverage read only the extents. */
  lemma SameExtents(a: map<nat, Block>, b: map<nat, Block>)
    requires a.Keys == b.Keys
    requires forall s :: s in a ==> a[s].blocks == b[s].blocks
    ensures Disjoint(a) ==> Disjoint(b)
    ensures forall i :: Covered(a, i) <==> Covered(b, i)
  {
    assert forall s, i :: s in a ==> (InExtent(a, s, i) <==> InExtent(b, s, i));
  }

  lemma FreeRunMissesLive(w: World, r: nat, n: nat, t: nat, i: int)
    requires Inv(w) && FreeRun(w.heap.used, r, n) && t in w.live && InExtent(w.live, t, i)
    ensures !(r <= i < r + n)
  {
    assert Sound(w.heap, w.live, t);
    assert Covered(w.live, i);
  }

  lemma PlacementNotHeld(w: World, size: u32)
    requires Inv(w) && Placement(w.heap, size).Some?
    ensures Placement(w.heap, size).value !in w.live
  {
    var r := Placement(w.heap, size).value;
    if r in w.live {
      assert Sound(w.heap, w.live, r) && InExtent(w.live, r, r);
      FreeRunMissesLive(w, r, BlocksNeeded(size), r, r);
    }
  }

  lemma LivePointerOwned(w: World, p: u32)
    requires Inv(w) && LiveAt(w, p).Some?
    ensures Owned(w.heap, p)
    ensures var s := LiveAt(w, p).value;
            HeaderOf(w.heap, p) == Header(MAGIC, s, w.live[s].blocks, w.live[s].size)
  {
    var s := LiveAt(w, p).value;
    assert Sound(w.heap, w.live, s);
    forall i | s <= i < s + w.live[s].blocks
      ensures w.heap.used[i]
    {
      assert InExtent(w.live, s, i);
      assert Covered(w.live, i);
    }
  }

  /** Freeing a held pointer clears exactly its blocks and its header's magic. */
  lemma FreedBlock(w: World, p: u32)
    requires Inv(w) && LiveAt(w, p).Some?
    ensures var s := LiveAt(w, p).value;
            AfterKfree(w.heap, p) == w.heap.(used := Mark(w.heap.used, s, s + w.live[s].blocks, false),
                                             mem := Splice(w.heap.mem, s * BLOCK_SIZE, EncodeWord(0)))
  {
    hide HeaderAt, EncodeWord, Mark, Splice, Disjoint, BitmapAgrees;
    LivePointerOwned(w, p);
  }

  /** The invariant reads only the headers of the pool: client data cannot break it. */
  lemma HeadersSuffice(w: World, m: seq<byte>)
    requires Inv(w) && |m| == POOL_SIZE
    requires forall s, i :: s in w.live && s * BLOCK_SIZE <= i < s * BLOCK_SIZE + HEADER_SIZE && i < POOL_SIZE
                            ==> m[i] == w.heap.mem[i]
    ensures Inv(World(w.heap.(mem := m), w.live))
  {
    var h := w.heap.(mem := m);
    forall s | s in w.live
      ensures Sound(h, w.live, s)
    {
      assert Sound(w.heap, w.live, s);
      HeaderFrame(w.heap.mem, m, s * BLOCK_SIZE);
    }
  }

  lemma PayloadMissesHeaders(w: World, t: nat, s: nat, i: int)
    requires Inv(w) && t in w.live && s in w.live
    requires t * BLOCK_SIZE + HEADER_SIZE <= i < (t + w.live[t].blocks) * BLOCK_SIZE
    ensures !(s * BLOCK_SIZE <= i < s * BLOCK_SIZE + HEADER_SIZE)
  {
    if s < t {
      ExtentsApart(w, s, t);
    } else if t < s {
      ExtentsApart(w, t, s);
    }
  }

  lemma PayloadWriteKeepsInv(w: World, t: nat, o: nat, data: seq<byte>)
    requires Inv(w) && t in w.live && t * BLOCK_SIZE + HEADER_SIZE <= o
    requires o + |data| <= (t + w.live[t].blocks) * BLOCK_SIZE <= POOL_SIZE
    ensures Inv(World(w.heap.(mem := Splice(w.heap.mem, o, data)), w.live))
  {
    var m := Splice(w.heap.mem, o, data);
    forall s, i | s in w.live && s * BLOCK_SIZE <= i < s * BLOCK_SIZE + HEADER_SIZE && i < POOL_SIZE
      ensures m[i] == w.heap.mem[i]
    {
      if o <= i < o + |data| {
        PayloadMissesHeaders(w, t, s, i);
      }
    }
    HeadersSuffice(w, m);
  }

  // ------------------------------------------------- each call keeps the invariant

  lemma MallocKeepsInv(w: World, size: u32)
    requires Inv(w) && Honoured(w.heap, size)
    ensures Inv(World(AfterKmalloc(w.heap, size).0, Held(w, size)))
  {
    if Placement(w.heap, size).Some? {
      BlocksNeededExact(size);
      var r, n := Placement(w.heap, size).value, BlocksNeeded(size);
      var h, live := AfterKmalloc(w.heap, size).0, Held(w, size);
      HeaderRoundTrip(w.heap.mem, r * BLOCK_SIZE, Header(MAGIC, r, n, size));
      forall t | t in live
        ensures Sound(h, live, t)
      {
        if t != r {
          assert Sound(w.heap, w.live, t);
          HeaderElsewhere(w.heap.mem, r, t, EncodeHeader(Header(MAGIC, r, n, size)));
        }
      }
      forall s, t, i | s in live && t in live && InExtent(live, s, i) && InExtent(live, t, i)
        ensures s == t
      {
        if s != r && t != r {
          assert InExtent(w.live, s, i) && InExtent(w.live, t, i);
        } else if s != r {
          FreeRunMissesLive(w, r, n, s, i);
        } else if t != r {
          FreeRunMissesLive(w, r, n, t, i);
        }
      }
      MallocBitmapAgrees(w, size);
    }
  }

  lemma MallocBitmapAgrees(w: World, size: u32)
    requires Inv(w) && Placement(w.heap, size).Some?
    ensures BitmapAgrees(AfterKmalloc(w.heap, size).0, Held(w, size))
  {
    var r, n := Placement(w.heap, size).value, BlocksNeeded(size);
    var h, live := AfterKmalloc(w.heap, size).0, Held(w, size);
    PlacementNotHeld(w, size);
    forall i | 0 <= i < TOTAL_BLOCKS
      ensures h.used[i] <==> Covered(live, i)
    {
      AddCoverage(w.live, r, Block(n, size), i);
    }
  }

  lemma FreeKeepsInv(w: World, p: u32)
    requires Inv(w) && PtrOk(w, p)
    ensures Inv(World(AfterKfree(w.heap, p), Dropped(w, p)))
  {
    if LiveAt(w, p).Some? {
      FreeKeepsHeaders(w, p);
      FreeBitmapAgrees(w, p);
      DropDisjoint(w.live, LiveAt(w, p).value);
    }
  }

  lemma FreeKeepsHeaders(w: World, p: u32)
    requires Inv(w) && LiveAt(w, p).Some?
    ensures forall t :: t in Dropped(w, p) ==> Sound(AfterKfree(w.heap, p), Dropped(w, p), t)
  {
    FreedBlock(w, p);
    var s, live := LiveAt(w, p).value, Dropped(w, p);
    forall t | t in live
      ensures Sound(AfterKfree(w.heap, p), live, t)
    {
      assert Sound(w.heap, w.live, t);
      HeaderElsewhere(w.heap.mem, s, t, EncodeWord(0));
    }
  }

  lemma FreeBitmapAgrees(w: World, p: u32)
    requires Inv(w) && LiveAt(w, p).Some?
    ensures BitmapAgrees(AfterKfree(w.heap, p), Dropped(w, p))
  {
    FreedBlock(w, p);
    forall i | 0 <= i < TOTAL_BLOCKS
      ensures AfterKfree(w.heap, p).used[i] <==> Covered(Dropped(w, p), i)
    {
      DropCoverage(w.live, LiveAt(w, p).value, i);
    }
  }

  lemma CallocKeepsInv(w: World, num: u32, elem: u32)
    requires Inv(w) && Honoured(w.heap, Wrap(num * elem))
    ensures Inv(World(AfterKcalloc(w.heap, num, elem).0, Held(w, Wrap(num * elem))))
  {
    hide HeaderAt, EncodeHeader, Disjoint, BitmapAgrees, FirstFit, BlocksNeeded;
    var total := Wrap(num * elem);
    MallocKeepsInv(w, total);
    if Placement(w.heap, total).Some? {
      BlocksNeededExact(total);
      var r := Placement(w.heap, total).value;
      PayloadWriteKeepsInv(World(AfterKmalloc(w.heap, total).0, Held(w, total)), r,
                           r * BLOCK_SIZE + HEADER_SIZE, Zeros(total));
    }
  }

  lemma ResizeInPlaceKeepsInv(w: World, p: u32, size: u32)
    requires Inv(w) && LiveAt(w, p).Some? && 1 <= size <= Capacity(w.live[LiveAt(w, p).value].blocks)
    ensures var s := LiveAt(w, p).value;
            var b := Block(w.live[s].blocks, size);
            Inv(World(w.heap.(mem := Splice(w.heap.mem, s * BLOCK_SIZE,
                                            EncodeHeader(Header(MAGIC, s, b.blocks, size)))),
                      w.live[s := b]))
  {
    hide HeaderAt;
    var s := LiveAt(w, p).value;
    assert Sound(w.heap, w.live, s);
    var hd := Header(MAGIC, s, w.live[s].blocks, size);
    var h := w.heap.(mem := Splice(w.heap.mem, s * BLOCK_SIZE, EncodeHeader(hd)));
    var live := w.live[s := Block(w.live[s].blocks, size)];
    HeaderRoundTrip(w.heap.mem, s * BLOCK_SIZE, hd);
    forall t | t in live
      ensures Sound(h, live, t)
    {
      assert Sound(w.heap, w.live, t);
      if t != s {
        HeaderElsewhere(w.heap.mem, s, t, EncodeHeader(hd));
      }
    }
    SameExtents(w.live, live);
  }

  /** The world after the growing path of `krealloc` has copied but not yet freed. */
  function Copied(w: World, s: nat, size: u32): World
    requires s in w.live && (s + w.live[s].blocks) * BLOCK_SIZE <= POOL_SIZE
    requires w.live[s].size <= Capacity(w.live[s].blocks)
    requires Placement(w.heap, size).Some? && size <= MAX_REQUEST
  {
    PlacementFits(w.heap, size);
    var r := Placement(w.heap, size).value;
    var h := AfterKmalloc(w.heap, size).0;
    var from := s * BLOCK_SIZE + HEADER_SIZE;
    var kept := w.heap.mem[from..from + Min(w.live[s].size, size)];
    World(h.(mem := Splice(h.mem, r * BLOCK_SIZE + HEADER_SIZE, kept)), Held(w, size))
  }

  lemma CopiedKeepsInv(w: World, s: nat, size: u32)
    requires Inv(w) && s in w.live && Sound(w.heap, w.live, s)
    requires Placement(w.heap, size).Some? && size <= MAX_REQUEST
    ensures Inv(Copied(w, s, size))
    ensures Placement(w.heap, size).value != s
  {
    hide HeaderAt;
    MallocKeepsInv(w, size);
    BlocksNeededExact(size);
    var r := Placement(w.heap, size).value;
    var from := s * BLOCK_SIZE + HEADER_SIZE;
    PayloadWriteKeepsInv(World(AfterKmalloc(w.heap, size).0, Held(w, size)), r,
                         r * BLOCK_SIZE + HEADER_SIZE,
                         w.heap.mem[from..from + Min(w.live[s].size, size)]);
    assert InExtent(w.live, s, s);
    FreeRunMissesLive(w, r, BlocksNeeded(size), s, s);
  }

  /** The growing path is an allocation, a copy into its payload, and a release. */
  lemma GrowIsCopyThenFree(w: World, p: u32, size: u32)
    requires Inv(w) && LiveAt(w, p).Some? && size <= MAX_REQUEST
    requires size > Capacity(w.live[LiveAt(w, p).value].blocks) && Placement(w.heap, size).Some?
    ensures var s := LiveAt(w, p).value;
            Sound(w.heap, w.live, s) && Inv(Copied(w, s, size))
            && LiveAt(Copied(w, s, size), p) == Some(s)
            && Reallocatable(w.heap, p, size)
            && Step(w, Realloc(p, size)) == Step(Copied(w, s, size), Free(p))
            && AfterKrealloc(w.heap, p, size).1 == PayloadAddr(w.heap, Placement(w.heap, size).value)
  {
    hide HeaderAt, EncodeHeader, AfterKfree, Disjoint, BitmapAgrees, FirstFit, BlocksNeeded;
    var s := LiveAt(w, p).value;
    assert Sound(w.heap, w.live, s);
    LivePointerOwned(w, p);
    PlacementFits(w.heap, size);
    CopiedKeepsInv(w, s, size);
  }

  lemma ReallocKeepsInv(w: World, p: u32, size: u32)
    requires Inv(w) && Legal(w, Realloc(p, size))
    ensures Reallocatable(w.heap, p, size)
    ensures Inv(World(AfterKrealloc(w.heap, p, size).0, Resized(w, p, size)))
  {
    hide HeaderAt;
    if p == NULL {
      MallocKeepsInv(w, size);
    } else if size == 0 {
      FreeKeepsInv(w, p);
    } else if LiveAt(w, p).Some? {
      LivePointerOwned(w, p);
      var s := LiveAt(w, p).value;
      if size <= Capacity(w.live[s].blocks) {
        ResizeInPlaceKeepsInv(w, p, size);
      } else if Placement(w.heap, size).Some? {
        GrowIsCopyThenFree(w, p, size);
        FreeKeepsInv(Copied(w, s, size), p);
      }
    }
  }

  lemma StepKeepsInv(w: World, c: Call)
    requires Inv(w) && Legal(w, c)
    ensures Defined(w, c)
    ensures Inv(Step(w, c))
  {
    hide HeaderAt;
    match c
    case Malloc(size) => MallocKeepsInv(w, size);
    case Calloc(num, elem) => CallocKeepsInv(w, num, elem);
    case Realloc(p, size) => ReallocKeepsInv(w, p, size);
    case Free(p) => FreeKeepsInv(w, p);
    case Write(s, k, v) =>
      assert Sound(w.heap, w.live, s);
      var o := s * BLOCK_SIZE + HEADER_SIZE + k;
      PayloadWriteKeepsInv(w, s, o, [v]);
      assert Splice(w.heap.mem, o, [v]) == w.heap.mem[o := v];
  }

  lemma FreshInv(h: Heap)
    ensures Inv(Fresh(h))
  {
  }

  lemma {:induction false} RunKeepsInv(w: World, calls: seq<Call>)
    requires Inv(w) && LegalRun(w, calls)
    ensures Inv(Run(w, calls))
    decreases |calls|
  {
    if calls == [] {
    } else {
      StepKeepsInv(w, calls[0]);
      RunKeepsInv(Step(w, calls[0]), calls[1..]);
    }
  }
}
