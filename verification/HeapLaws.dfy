/** What clients of the kernel heap can rely on over whole runs: isolation of their
    bytes, the meaning of `krealloc` and `kcalloc`, conservation of memory, and the
    harmlessness of a second `kfree`. */
module HeapLaws {
  import opened Words
  import opened HeapModel
  import opened HeapRuns

  // ---------------------------------------------------- limits of the guarantees

  /** The pool starts without a single live header: until something is allocated, `kfree` of
      any pointer whatsoever changes nothing. */
  lemma FreshIgnoresEveryPointer(h: Heap, p: u32)
    ensures AfterKfree(AfterInit(h), p) == AfterInit(h)
  {
    var start := AfterInit(h);
    if InPool(start, p) {
      var o := p - h.base - HEADER_SIZE;
      assert start.mem[o..o + 4] == [0, 0, 0, 0];
    }
  }

  /** A granted request leaves the records in agreement exactly when it is at most MAX_REQUEST. */
  lemma MallocSoundExactly(w: World, size: u32)
    requires Inv(w) && Placement(w.heap, size).Some?
    ensures Inv(Step(w, Malloc(size))) <==> size <= MAX_REQUEST
  {
    BlocksNeededExact(size);
    if size <= MAX_REQUEST {
      MallocKeepsInv(w, size);
    } else {
      var r := Placement(w.heap, size).value;
      var after := Step(w, Malloc(size));
      assert r in after.live && !Sound(after.heap, after.live, r);
    }
  }

  /** When `krealloc` moves a block, the bytes it copies fit the new one exactly when the
      request is at most MAX_REQUEST or the old contents are at most 16 bytes. */
  lemma ReallocCopyFits(w: World, s: nat, size: u32)
    requires Inv(w) && s in w.live && Placement(w.heap, size).Some?
    requires size > Capacity(w.live[s].blocks)
    ensures Min(w.live[s].size, size) <= Capacity(BlocksNeeded(size)) <==>
            size <= MAX_REQUEST || w.live[s].size <= 16
  {
    hide HeaderAt, Disjoint, BitmapAgrees, BlocksNeeded, FirstFit;
    assert Sound(w.heap, w.live, s);
    BlocksNeededExact(size);
  }

  /** Such a move exists: 100 bytes are held and a resize to 4294967281 bytes is granted one
      block, which cannot take them. */
  lemma ReallocOverflows(h: Heap)
    ensures var w := Step(Fresh(h), Malloc(100));
            && Inv(w) && 0 in w.live && w.live[0] == Block(4, 100)
            && Placement(w.heap, MAX_REQUEST + 1) == Some(4)
            && Min(100, MAX_REQUEST + 1) > Capacity(BlocksNeeded(MAX_REQUEST + 1))
  {
    hide HeaderAt, EncodeHeader, Disjoint;
    var w := Step(Fresh(h), Malloc(100));
    FreshInv(h);
    StepKeepsInv(Fresh(h), Malloc(100));
    assert FreeRun(Fresh(h).heap.used, 0, 4);
    assert w.heap.used[0] && w.heap.used[1] && w.heap.used[2] && w.heap.used[3];
    assert FreeRun(w.heap.used, 4, 1);
  }

  // ------------------------------------------------------------------ isolation

  predicate Touches(w: World, c: Call, t: nat) {
    match c
    case Malloc(_) => false
    case Calloc(_, _) => false
    case Realloc(p, _) => LiveAt(w, p) == Some(t)
    case Free(p) => LiveAt(w, p) == Some(t)
    case Write(s, _, _) => s == t
  }

  /** Block `t` is held in both worlds, with the same extent, header and payload bytes. */
  ghost predicate SameBlock(w: World, w': World, t: nat) {
    && t in w.live && t in w'.live
    && w.live[t] == w'.live[t]
    && forall i :: t * BLOCK_SIZE <= i < (t + w.live[t].blocks) * BLOCK_SIZE && i < POOL_SIZE
                   ==> w.heap.mem[i] == w'.heap.mem[i]
  }

  lemma FreeRunApart(w: World, r: nat, n: nat, t: nat)
    requires Inv(w) && t in w.live && FreeRun(w.heap.used, r, n) && 1 <= n
    ensures r + n <= t || t + w.live[t].blocks <= r
  {
    assert Sound(w.heap, w.live, t);
    var i := if r < t then t else r;
    if InExtent(w.live, t, i) {
      FreeRunMissesLive(w, r, n, t, i);
    }
  }

  lemma MallocIsolates(w: World, size: u32, t: nat)
    requires Inv(w) && t in w.live
    ensures SameBlock(w, World(AfterKmalloc(w.heap, size).0, Held(w, size)), t)
  {
    hide HeaderAt, EncodeHeader;
    if Placement(w.heap, size).Some? {
      FreeRunApart(w, Placement(w.heap, size).value, BlocksNeeded(size), t);
    }
  }

  lemma FreeIsolates(w: World, p: u32, t: nat)
    requires Inv(w) && PtrOk(w, p) && t in w.live && LiveAt(w, p) != Some(t)
    ensures SameBlock(w, World(AfterKfree(w.heap, p), Dropped(w, p)), t)
  {
    hide HeaderAt;
    if LiveAt(w, p).Some? {
      FreedBlock(w, p);
      HeaderSlotApart(w, LiveAt(w, p).value, t);
    }
  }

  lemma HeaderSlotApart(w: World, s: nat, t: nat)
    requires Inv(w) && s in w.live && t in w.live && s != t
    ensures (s + 1) * BLOCK_SIZE <= t * BLOCK_SIZE || (t + w.live[t].blocks) * BLOCK_SIZE <= s * BLOCK_SIZE
  {
    if t < s {
      ExtentsApart(w, t, s);
    }
  }

  lemma CopiedIsolates(w: World, s: nat, size: u32, t: nat)
    requires Inv(w) && s in w.live && Sound(w.heap, w.live, s) && t in w.live
    requires Placement(w.heap, size).Some? && size <= MAX_REQUEST
    ensures SameBlock(w, Copied(w, s, size), t)
  {
    hide HeaderAt, EncodeHeader, Disjoint, BitmapAgrees;
    MallocIsolates(w, size, t);
    BlocksNeededExact(size);
    FreeRunApart(w, Placement(w.heap, size).value, BlocksNeeded(size), t);
  }

  lemma CallocIsolates(w: World, num: u32, elem: u32, t: nat)
    requires Inv(w) && Honoured(w.heap, Wrap(num * elem)) && t in w.live
    ensures SameBlock(w, World(AfterKcalloc(w.heap, num, elem).0, Held(w, Wrap(num * elem))), t)
  {
    hide HeaderAt, EncodeHeader, Disjoint, BitmapAgrees;
    var total := Wrap(num * elem);
    MallocIsolates(w, total, t);
    if Placement(w.heap, total).Some? {
      BlocksNeededExact(total);
      FreeRunApart(w, Placement(w.heap, total).value, BlocksNeeded(total), t);
    }
  }

  lemma ReallocIsolates(w: World, p: u32, size: u32, t: nat)
    requires Inv(w) && Legal(w, Realloc(p, size)) && t in w.live && LiveAt(w, p) != Some(t)
    ensures SameBlock(w, Step(w, Realloc(p, size)), t)
  {
    hide HeaderAt, EncodeHeader, Disjoint, BitmapAgrees;
    StepKeepsInv(w, Realloc(p, size));
    if p == NULL {
      MallocIsolates(w, size, t);
    } else if size == 0 {
      FreeIsolates(w, p, t);
    } else if LiveAt(w, p).Some? {
      LivePointerOwned(w, p);
      var s := LiveAt(w, p).value;
      if size <= Capacity(w.live[s].blocks) {
        HeaderSlotApart(w, s, t);
      } else if Placement(w.heap, size).Some? {
        GrowIsCopyThenFree(w, p, size);
        CopiedIsolates(w, s, size, t);
        FreeIsolates(Copied(w, s, size), p, t);
      }
    }
  }

  /** No call changes a byte of a held block that it does not name. */
  lemma StepIsolates(w: World, c: Call, t: nat)
    requires Inv(w) && Legal(w, c) && t in w.live && !Touches(w, c, t)
    ensures SameBlock(w, Step(w, c), t)
  {
    hide HeaderAt, EncodeHeader, Disjoint, BitmapAgrees;
    StepKeepsInv(w, c);
    match c
    case Malloc(size) => MallocIsolates(w, size, t);
    case Calloc(num, elem) => CallocIsolates(w, num, elem, t);
    case Realloc(p, size) => ReallocIsolates(w, p, size, t);
    case Free(p) => FreeIsolates(w, p, t);
    case Write(s, k, v) =>
      assert Sound(w.heap, w.live, s);
      if s < t { ExtentsApart(w, s, t); } else { ExtentsApart(w, t, s); }
  }

  predicate Untouched(w: World, calls: seq<Call>, t: nat)
    decreases |calls|
  {
    calls == [] || (!Touches(w, calls[0], t) && Untouched(Step(w, calls[0]), calls[1..], t))
  }

  /** Through any run that never names a held block, the block stays held, byte for byte. */
  lemma {:induction false} RunIsolates(w: World, calls: seq<Call>, t: nat)
    requires Inv(w) && LegalRun(w, calls) && t in w.live && Untouched(w, calls, t)
    ensures SameBlock(w, Run(w, calls), t)
    decreases |calls|
  {
    if calls == [] {
    } else {
      hide HeaderAt, Disjoint, BitmapAgrees, Sound, Legal;
      StepKeepsInv(w, calls[0]);
      StepIsolates(w, calls[0], t);
      RunIsolates(Step(w, calls[0]), calls[1..], t);
    }
  }

  // ------------------------------------------------- contents across krealloc, kcalloc

  /** Byte `k` of the payload of block `s`. */
  function PayloadByte(h: Heap, s: nat, k: nat): byte
    requires s * BLOCK_SIZE + HEADER_SIZE + k < POOL_SIZE
  {
    h.mem[s * BLOCK_SIZE + HEADER_SIZE + k]
  }

  /** `krealloc` of a held pointer to a positive size. In place: same pointer, every payload
      byte kept. Moved: the first min(old, new) bytes kept and the old block released.
      Refused: null, and nothing at all has changed. */
  lemma ReallocKeepsContents(w: World, p: u32, size: u32)
    requires Inv(w) && Legal(w, Realloc(p, size)) && LiveAt(w, p).Some? && size > 0
    ensures Reallocatable(w.heap, p, size)
    ensures var s := LiveAt(w, p).value;
            var w' := Step(w, Realloc(p, size));
            var q := AfterKrealloc(w.heap, p, size).1;
            Sound(w.heap, w.live, s) &&
            if size <= Capacity(w.live[s].blocks) then
              && q == p && w'.live == w.live[s := Block(w.live[s].blocks, size)]
              && forall k: nat :: k < Capacity(w.live[s].blocks) ==>
                   PayloadByte(w'.heap, s, k) == PayloadByte(w.heap, s, k)
            else if q == NULL then
              && w' == w
              && forall r: nat :: !FreeRun(w.heap.used, r, IdealBlocks(size))
            else exists r: nat ::
              && r < TOTAL_BLOCKS && q == PayloadAddr(w.heap, r) && r !in w.live
              && w'.live == w.live[r := Block(IdealBlocks(size), size)] - {s}
              && r * BLOCK_SIZE + HEADER_SIZE + size <= POOL_SIZE
              && forall k: nat :: k < Min(w.live[s].size, size) ==>
                   PayloadByte(w'.heap, r, k) == PayloadByte(w.heap, s, k)
  {
    hide HeaderAt, EncodeHeader, Disjoint, BitmapAgrees;
    var s := LiveAt(w, p).value;
    assert Sound(w.heap, w.live, s);
    LivePointerOwned(w, p);
    StepKeepsInv(w, Realloc(p, size));
    KmallocFirstFit(w.heap, size);
    if size > Capacity(w.live[s].blocks) && Placement(w.heap, size).Some? {
      MovedContents(w, p, size);
    }
  }

  lemma MovedContents(w: World, p: u32, size: u32)
    requires Inv(w) && LiveAt(w, p).Some? && size <= MAX_REQUEST
    requires var s := LiveAt(w, p).value;
             Sound(w.heap, w.live, s) && size > Capacity(w.live[s].blocks)
    requires Placement(w.heap, size).Some?
    ensures var s, r := LiveAt(w, p).value, Placement(w.heap, size).value;
            var w' := Step(w, Realloc(p, size));
            && r !in w.live
            && w'.live == w.live[r := Block(IdealBlocks(size), size)] - {s}
            && r * BLOCK_SIZE + HEADER_SIZE + size <= POOL_SIZE
            && forall k: nat :: k < Min(w.live[s].size, size) ==>
                 PayloadByte(w'.heap, r, k) == PayloadByte(w.heap, s, k)
  {
    hide HeaderAt, EncodeHeader, Inv, AfterKrealloc, AfterKfree, FirstFit, Copied, BlocksNeeded;
    var s, r := LiveAt(w, p).value, Placement(w.heap, size).value;
    GrowIsCopyThenFree(w, p, size);
    CopiedContents(w, s, size);
    BlocksNeededExact(size);
    PlacementNotHeld(w, size);
    var c := Copied(w, s, size);
    FreedBlock(c, p);
    HeaderSlotApart(c, s, r);
  }

  lemma CopiedContents(w: World, s: nat, size: u32)
    requires Inv(w) && s in w.live && Sound(w.heap, w.live, s)
    requires Placement(w.heap, size).Some? && size <= MAX_REQUEST
    ensures var r, c := Placement(w.heap, size).value, Copied(w, s, size);
            && c.live == Held(w, size) && r * BLOCK_SIZE + HEADER_SIZE + size <= POOL_SIZE
            && forall k: nat :: k < Min(w.live[s].size, size) ==> PayloadByte(c.heap, r, k) == PayloadByte(w.heap, s, k)
  {
    hide HeaderAt, EncodeHeader, Disjoint, BitmapAgrees, FirstFit, BlocksNeeded;
    PlacementFits(w.heap, size);
  }

  /** A successful `kcalloc` returns zero bytes, whatever the recycled blocks held. */
  lemma CallocReturnsZeros(h: Heap, num: u32, elem: u32)
    requires Honoured(h, Wrap(num * elem)) && AfterKcalloc(h, num, elem).1 != NULL
    ensures exists r: nat ::
              && r < TOTAL_BLOCKS && AfterKcalloc(h, num, elem).1 == PayloadAddr(h, r)
              && FreeRun(h.used, r, IdealBlocks(Wrap(num * elem)))
              && r * BLOCK_SIZE + HEADER_SIZE + Wrap(num * elem) <= POOL_SIZE
              && forall k: nat :: k < Wrap(num * elem) ==> PayloadByte(AfterKcalloc(h, num, elem).0, r, k) == 0
  {
    hide HeaderAt, EncodeHeader;
    var total := Wrap(num * elem);
    BlocksNeededExact(total);
    PlacementFits(h, total);
    var r := Placement(h, total).value;
    assert AfterKcalloc(h, num, elem).1 == PayloadAddr(h, r);
    assert FreeRun(h.used, r, IdealBlocks(total));
  }

  // --------------------------------------------------------------- conservation

  /** `kmalloc` then `kfree` of its result restores the bitmap exactly, for every request. */
  lemma MallocFreeRestores(h: Heap, size: u32)
    requires AfterKmalloc(h, size).1 != NULL
    ensures AfterKfree(AfterKmalloc(h, size).0, AfterKmalloc(h, size).1).used == h.used
  {
    hide HeaderAt, EncodeHeader, FirstFit, Placement;
    var s, n := Placement(h, size).value, BlocksNeeded(size);
    GrantedHeader(h, size);
    assert Mark(Mark(h.used, s, s + n, true), s, s + n, false) == h.used by {
      assert FreeRun(h.used, s, n);
    }
  }

  lemma GrantedHeader(h: Heap, size: u32)
    requires Placement(h, size).Some?
    ensures var s := Placement(h, size).value;
            && h.ready && FreeRun(h.used, s, BlocksNeeded(size))
            && HeaderOf(AfterKmalloc(h, size).0, PayloadAddr(h, s)) == Header(MAGIC, s, BlocksNeeded(size), size)
  {
    hide HeaderAt, EncodeHeader;
    var s, n := Placement(h, size).value, BlocksNeeded(size);
    HeaderRoundTrip(h.mem, s * BLOCK_SIZE, Header(MAGIC, s, n, size));
  }

  /** So does a client that wrote to the payload in between: only the header decides. */
  lemma WrittenFreeRestores(h: Heap, size: u32, m: seq<byte>)
    requires AfterKmalloc(h, size).1 != NULL && |m| == POOL_SIZE
    requires var (h1, p) := AfterKmalloc(h, size);
             forall i :: p - h.base - HEADER_SIZE <= i < p - h.base ==> m[i] == h1.mem[i]
    ensures var (h1, p) := AfterKmalloc(h, size);
            AfterKfree(h1.(mem := m), p).used == h.used
  {
    hide HeaderAt, EncodeHeader, FirstFit, Placement;
    GrantedHeader(h, size);
    HeaderFrame(AfterKmalloc(h, size).0.mem, m, Placement(h, size).value * BLOCK_SIZE);
    MallocFreeRestores(h, size);
  }

  ghost function AnyHeld(live: map<nat, Block>): nat
    requires live != map[]
    ensures AnyHeld(live) in live
  {
    var s :| s in live; s
  }

  /** Blocks held by all clients together. */
  ghost function SumBlocks(live: map<nat, Block>): nat
    decreases |live|
  {
    if live == map[] then 0
    else var s := AnyHeld(live); live[s].blocks + SumBlocks(live - {s})
  }

  ghost function CoveredSet(live: map<nat, Block>): set<int> {
    set i | 0 <= i < TOTAL_BLOCKS && Covered(live, i)
  }

  function Interval(lo: int, n: nat): (r: set<int>)
    ensures forall i :: i in r <==> lo <= i < lo + n
    ensures |r| == n
  {
    if n == 0 then {} else Interval(lo, n - 1) + {lo + n - 1}
  }

  lemma CoveredSplit(live: map<nat, Block>, s: nat)
    requires Disjoint(live) && s in live && s + live[s].blocks <= TOTAL_BLOCKS
    ensures CoveredSet(live) == CoveredSet(live - {s}) + Interval(s, live[s].blocks)
    ensures CoveredSet(live - {s}) !! Interval(s, live[s].blocks)
  {
    forall i
      ensures i in CoveredSet(live) <==> i in CoveredSet(live - {s}) || i in Interval(s, live[s].blocks)
      ensures !(i in CoveredSet(live - {s}) && i in Interval(s, live[s].blocks))
    {
      DropCoverage(live, s, i);
      assert InExtent(live, s, i) <==> i in Interval(s, live[s].blocks);
    }
  }

  lemma {:induction false} CoverageCount(live: map<nat, Block>)
    requires Disjoint(live)
    requires forall s :: s in live ==> s + live[s].blocks <= TOTAL_BLOCKS
    ensures |CoveredSet(live)| == SumBlocks(live)
    decreases |live|
  {
    if live == map[] {
      assert CoveredSet(live) == {};
    } else {
      hide CoveredSet;
      var s := AnyHeld(live);
      DropDisjoint(live, s);
      CoveredSplit(live, s);
      CoverageCount(live - {s});
    }
  }

  lemma UsedIsCovered(h: Heap, live: map<nat, Block>)
    requires BitmapAgrees(h, live)
    ensures UsedBlocks(h.used) == |CoveredSet(live)|
  {
    var flagged := set i | 0 <= i < |h.used| && h.used[i];
    forall i
      ensures i in flagged <==> i in CoveredSet(live)
    {
    }
    assert flagged == CoveredSet(live);
  }

  /** Used memory is 32 times the blocks held, and nothing is lost or invented. */
  lemma MemoryConserved(w: World)
    requires Inv(w)
    ensures UsedBlocks(w.heap.used) == SumBlocks(w.live)
    ensures SumBlocks(w.live) <= TOTAL_BLOCKS
  {
    hide HeaderAt, Covered;
    forall s | s in w.live
      ensures s + w.live[s].blocks <= TOTAL_BLOCKS
    {
      assert Sound(w.heap, w.live, s);
    }
    CoverageCount(w.live);
    UsedIsCovered(w.heap, w.live);
    BoundedSize(CoveredSet(w.live), |w.heap.used|);
  }

  lemma BoundedSize(s: set<int>, n: nat)
    requires forall i :: i in s ==> 0 <= i < n
    ensures |s| <= n
  {
    var all := Interval(0, n);
    assert s <= all;
    assert all == s + (all - s);
  }

  // ------------------------------------------------------------ freeing everything

  function FreeCalls(h: Heap, order: seq<nat>): seq<Call>
    requires forall i :: 0 <= i < |order| ==> order[i] < TOTAL_BLOCKS
  {
    if order == [] then [] else [Free(PayloadAddr(h, order[0]))] + FreeCalls(h, order[1..])
  }

  ghost predicate Enumerates(order: seq<nat>, live: map<nat, Block>) {
    && (forall s :: s in order <==> s in live)
    && (forall i, j :: 0 <= i < j < |order| ==> order[i] != order[j])
  }

  /** Freeing every held block, in any order, is a legal run that empties the heap. */
  lemma {:induction false} FreeingAllEmpties(w: World, order: seq<nat>)
    requires Inv(w) && Enumerates(order, w.live)
    requires forall i :: 0 <= i < |order| ==> order[i] < TOTAL_BLOCKS
    ensures LegalRun(w, FreeCalls(w.heap, order))
    ensures var w' := Run(w, FreeCalls(w.heap, order));
            w'.live == map[] && UsedBlocks(w'.heap.used) == 0
            && AfterKmalloc(w'.heap, POOL_SIZE - HEADER_SIZE).1 == PayloadAddr(w'.heap, 0)
    decreases |order|
  {
    hide HeaderAt, Disjoint;
    if order == [] {
      assert w.live == map[];
      EmptyHeapFits(w);
    } else {
      var s := order[0];
      assert s in w.live;
      var c := Free(PayloadAddr(w.heap, s));
      assert LiveAt(w, PayloadAddr(w.heap, s)) == Some(s);
      StepKeepsInv(w, c);
      var w1 := Step(w, c);
      assert w1.live == w.live - {s};
      forall t
        ensures t in order[1..] <==> t in w1.live
      {
        assert t in order[1..] ==> t in order && t != s;
        assert t in order <==> t == s || t in order[1..];
      }
      FreedBlock(w, PayloadAddr(w.heap, s));
      FreeingAllEmpties(w1, order[1..]);
      SameBase(w.heap, w1.heap, order[1..]);
      assert FreeCalls(w.heap, order)[1..] == FreeCalls(w.heap, order[1..]);
    }
  }

  lemma {:induction false} SameBase(h: Heap, h': Heap, order: seq<nat>)
    requires h.base == h'.base && forall i :: 0 <= i < |order| ==> order[i] < TOTAL_BLOCKS
    ensures FreeCalls(h, order) == FreeCalls(h', order)
    decreases |order|
  {
    if order == [] {
    } else {
      SameBase(h, h', order[1..]);
    }
  }

  lemma EmptyHeapFits(w: World)
    requires Inv(w) && w.live == map[]
    ensures UsedBlocks(w.heap.used) == 0
    ensures AfterKmalloc(w.heap, POOL_SIZE - HEADER_SIZE).1 == PayloadAddr(w.heap, 0)
  {
  }

  // ------------------------------------------------------------------ double free

  /** The magic word of the header slot of block `s` is not the live one. */
  predicate Dead(h: Heap, s: nat)
    requires s < TOTAL_BLOCKS
  {
    HeaderAt(h.mem, s * BLOCK_SIZE).magic != MAGIC
  }

  /** The call neither hands out block `s` nor lets client bytes land on its old magic word. */
  predicate Spares(w: World, c: Call, s: nat) {
    match c
    case Malloc(size) => Placement(w.heap, size) != Some(s)
    case Calloc(num, elem) => Placement(w.heap, Wrap(num * elem)) != Some(s)
    case Free(_) => true
    case Realloc(p, size) =>
      if p == NULL then Placement(w.heap, size) != Some(s)
      else match (LiveAt(w, p), Placement(w.heap, size)) {
        case (Some(t), Some(r)) =>
          size <= Capacity(w.live[t].blocks) || !(r <= s < r + BlocksNeeded(size))
        case _ => true
      }
    case Write(t, k, _) =>
      var a := t * BLOCK_SIZE + HEADER_SIZE + k;
      !(s * BLOCK_SIZE <= a < s * BLOCK_SIZE + 4)
  }

  predicate SparedRun(w: World, calls: seq<Call>, s: nat)
    decreases |calls|
  {
    calls == [] || (Spares(w, calls[0], s) && SparedRun(Step(w, calls[0]), calls[1..], s))
  }

  lemma DeadFrame(m: seq<byte>, m': seq<byte>, s: nat)
    requires |m| == |m'| == POOL_SIZE && s < TOTAL_BLOCKS
    requires forall i :: s * BLOCK_SIZE <= i < s * BLOCK_SIZE + 4 ==> m[i] == m'[i]
    ensures HeaderAt(m, s * BLOCK_SIZE).magic == HeaderAt(m', s * BLOCK_SIZE).magic
  {
  }

  lemma SpliceSparesDead(m: seq<byte>, o: nat, data: seq<byte>, s: nat)
    requires |m| == POOL_SIZE && o + |data| <= POOL_SIZE && s < TOTAL_BLOCKS
    requires o + |data| <= s * BLOCK_SIZE || s * BLOCK_SIZE + 4 <= o
    ensures HeaderAt(Splice(m, o, data), s * BLOCK_SIZE).magic == HeaderAt(m, s * BLOCK_SIZE).magic
  {
    hide HeaderAt;
    DeadFrame(m, Splice(m, o, data), s);
  }

  lemma ZerosAreDead(m: seq<byte>, o: nat, n: nat, s: nat)
    requires |m| == POOL_SIZE && o + n <= POOL_SIZE && s < TOTAL_BLOCKS
    requires HeaderAt(m, s * BLOCK_SIZE).magic != MAGIC
    ensures HeaderAt(Splice(m, o, Zeros(n)), s * BLOCK_SIZE).magic != MAGIC
  {
    var m' := Splice(m, o, Zeros(n));
    var b := s * BLOCK_SIZE;
    var before, after := m[b..b + 4], m'[b..b + 4];
    assert forall i :: 0 <= i < 4 ==> after[i] == before[i] || after[i] == 0;
    assert (forall i :: 0 <= i < 4 ==> after[i] != 0) ==> after == before;
    if DecodeWord(after) == MAGIC {
      MagicBytes(after);
    }
  }

  lemma MagicBytes(d: seq<byte>)
    requires |d| == 4 && DecodeWord(d) == MAGIC
    ensures d == [0xEF, 0xBE, 0xA9, 0x1E]
  {
  }

  lemma MallocSparesDead(w: World, size: u32, s: nat)
    requires s < TOTAL_BLOCKS && Dead(w.heap, s) && Placement(w.heap, size) != Some(s)
    ensures Dead(AfterKmalloc(w.heap, size).0, s)
  {
    hide HeaderAt, EncodeHeader;
    if Placement(w.heap, size).Some? {
      var r := Placement(w.heap, size).value;
      SpliceSparesDead(w.heap.mem, r * BLOCK_SIZE,
                       EncodeHeader(Header(MAGIC, r, BlocksNeeded(size), size)), s);
    }
  }

  lemma FreeSparesDead(w: World, p: u32, s: nat)
    requires Inv(w) && PtrOk(w, p) && s < TOTAL_BLOCKS && Dead(w.heap, s)
    ensures Dead(AfterKfree(w.heap, p), s)
  {
    hide HeaderAt;
    if LiveAt(w, p).Some? {
      FreedBlock(w, p);
      var t := LiveAt(w, p).value;
      assert Sound(w.heap, w.live, t);
      SpliceSparesDead(w.heap.mem, t * BLOCK_SIZE, EncodeWord(0), s);
    }
  }

  lemma ReallocSparesDead(w: World, p: u32, size: u32, s: nat)
    requires Inv(w) && Legal(w, Realloc(p, size)) && s < TOTAL_BLOCKS
    requires Dead(w.heap, s) && Spares(w, Realloc(p, size), s)
    ensures Dead(Step(w, Realloc(p, size)).heap, s)
  {
    hide HeaderAt, EncodeHeader, Disjoint, BitmapAgrees;
    StepKeepsInv(w, Realloc(p, size));
    if p == NULL {
      MallocSparesDead(w, size, s);
    } else if size == 0 {
      FreeSparesDead(w, p, s);
    } else if LiveAt(w, p).Some? {
      LivePointerOwned(w, p);
      var t := LiveAt(w, p).value;
      assert Sound(w.heap, w.live, t);
      if size <= Capacity(w.live[t].blocks) {
        SpliceSparesDead(w.heap.mem, t * BLOCK_SIZE,
                         EncodeHeader(Header(MAGIC, t, w.live[t].blocks, size)), s);
      } else if Placement(w.heap, size).Some? {
        GrowIsCopyThenFree(w, p, size);
        CopiedSparesDead(w, t, size, s);
        FreeSparesDead(Copied(w, t, size), p, s);
      }
    }
  }

  lemma CopiedSparesDead(w: World, t: nat, size: u32, s: nat)
    requires Inv(w) && t in w.live && Sound(w.heap, w.live, t) && size <= MAX_REQUEST
    requires s < TOTAL_BLOCKS && Dead(w.heap, s) && Placement(w.heap, size).Some?
    requires !(Placement(w.heap, size).value <= s < Placement(w.heap, size).value + BlocksNeeded(size))
    ensures Dead(Copied(w, t, size).heap, s)
  {
    hide HeaderAt, EncodeHeader, Disjoint, BitmapAgrees;
    MallocSparesDead(w, size, s);
    BlocksNeededExact(size);
    var from := t * BLOCK_SIZE + HEADER_SIZE;
    SpliceSparesDead(AfterKmalloc(w.heap, size).0.mem, Placement(w.heap, size).value * BLOCK_SIZE + HEADER_SIZE,
                     w.heap.mem[from..from + Min(w.live[t].size, size)], s);
  }

  lemma StepSparesDead(w: World, c: Call, s: nat)
    requires Inv(w) && Legal(w, c) && s < TOTAL_BLOCKS && Dead(w.heap, s) && Spares(w, c, s)
    ensures Dead(Step(w, c).heap, s)
  {
    hide HeaderAt, EncodeHeader, Disjoint, BitmapAgrees;
    StepKeepsInv(w, c);
    match c
    case Malloc(size) => MallocSparesDead(w, size, s);
    case Calloc(num, elem) =>
      var total := Wrap(num * elem);
      MallocSparesDead(w, total, s);
      if Placement(w.heap, total).Some? {
        PlacementFits(w.heap, total);
        ZerosAreDead(AfterKmalloc(w.heap, total).0.mem,
                     Placement(w.heap, total).value * BLOCK_SIZE + HEADER_SIZE, total, s);
      }
    case Realloc(p, size) => ReallocSparesDead(w, p, size, s);
    case Free(p) => FreeSparesDead(w, p, s);
    case Write(t, k, v) =>
      DeadFrame(w.heap.mem, Step(w, c).heap.mem, s);
  }

  lemma {:induction false} RunSparesDead(w: World, calls: seq<Call>, s: nat)
    requires Inv(w) && LegalRun(w, calls) && s < TOTAL_BLOCKS
    requires Dead(w.heap, s) && SparedRun(w, calls, s)
    ensures Dead(Run(w, calls).heap, s)
    decreases |calls|
  {
    if calls == [] {
    } else {
      hide HeaderAt, Disjoint, BitmapAgrees, Sound, Legal, Spares;
      StepKeepsInv(w, calls[0]);
      StepSparesDead(w, calls[0], s);
      RunSparesDead(Step(w, calls[0]), calls[1..], s);
    }
  }

  /** Freed once, a pointer stays harmless: through any legal run that neither hands it out
      again nor writes client bytes over its old magic word, another `kfree` changes nothing. */
  lemma DoubleFreeHarmless(w: World, p: u32, calls: seq<Call>)
    requires Inv(w) && LiveAt(w, p).Some?
    requires LegalRun(Step(w, Free(p)), calls)
    requires SparedRun(Step(w, Free(p)), calls, LiveAt(w, p).value)
    ensures var h := Run(Step(w, Free(p)), calls).heap; AfterKfree(h, p) == h
  {
    hide Inv, LiveAt, Dead, Step, SparedRun, AfterKfree;
    var s, w1 := LiveAt(w, p).value, Step(w, Free(p));
    FreedIsDead(w, p);
    RunSparesDead(w1, calls, s);
    RunKeepsBase(w1, calls);
    DeadFreeIgnored(Run(w1, calls).heap, p, s);
  }

  lemma FreedIsDead(w: World, p: u32)
    requires Inv(w) && LiveAt(w, p).Some?
    ensures var w1, s := Step(w, Free(p)), LiveAt(w, p).value;
            Inv(w1) && Dead(w1.heap, s) && w1.heap.base == w.heap.base && PayloadAddr(w1.heap, s) == p
  {
    hide Mark, AfterKfree, Disjoint, BitmapAgrees;
    StepKeepsInv(w, Free(p));
    FreedBlock(w, p);
    var s, w1 := LiveAt(w, p).value, Step(w, Free(p));
    assert w1.heap.mem[s * BLOCK_SIZE..s * BLOCK_SIZE + 4] == EncodeWord(0);
  }

  lemma DeadFreeIgnored(h: Heap, p: u32, s: nat)
    requires s < TOTAL_BLOCKS && PayloadAddr(h, s) == p && Dead(h, s)
    ensures AfterKfree(h, p) == h
  {
  }

  lemma StepKeepsBase(w: World, c: Call)
    ensures Step(w, c).heap.base == w.heap.base
  {
    hide HeaderAt, EncodeHeader, Splice, Mark, FirstFit;
  }

  lemma {:induction false} RunKeepsBase(w: World, calls: seq<Call>)
    ensures Run(w, calls).heap.base == w.heap.base
    decreases |calls|
  {
    if calls == [] {
    } else {
      hide Step;
      StepKeepsBase(w, calls[0]);
      RunKeepsBase(Step(w, calls[0]), calls[1..]);
    }
  }
}
