/** The kernel heap as a value: the block flags, the byte pool with its in-band
    headers, and what each allocator entry point does to them. The first-fit
    search is specified by its least solution, not by the scan that finds it. */
module HeapModel {
  import opened Words

  const BLOCK_SIZE: nat := 32
  const POOL_SIZE: nat := 262144
  const TOTAL_BLOCKS: nat := 8192
  const BITMAP_SIZE: nat := 1024
  const HEADER_SIZE: nat := 16
  const MAGIC: u32 := 0x1EA9BEEF
  const NULL: u32 := 0

  /** The largest request whose header-inclusive size does not wrap to a positive total. */
  const MAX_REQUEST: u32 := 0xFFFFFFF0

  datatype Header = Header(magic: u32, start: u32, blocks: u32, size: u32)

  /** `base` is the pool's address, `used` the meaning of the bitmap, `mem` the pool. */
  datatype HeapData = HeapData(base: u32, ready: bool, used: seq<bool>, mem: seq<byte>)

  predicate Shaped(h: HeapData) {
    && 0 < h.base
    && h.base + POOL_SIZE < TWO32
    && |h.used| == TOTAL_BLOCKS
    && |h.mem| == POOL_SIZE
  }

  type Heap = h: HeapData | Shaped(h)
    witness HeapData(4096, false, seq(TOTAL_BLOCKS, _ => false), seq(POOL_SIZE, _ => 0))

  function EncodeHeader(hd: Header): (s: seq<byte>)
    ensures |s| == HEADER_SIZE
  {
    EncodeWord(hd.magic) + EncodeWord(hd.start) + EncodeWord(hd.blocks) + EncodeWord(hd.size)
  }

  function HeaderAt(mem: seq<byte>, o: nat): Header
    requires o + HEADER_SIZE <= |mem|
  {
    Header(DecodeWord(mem[o..o + 4]), DecodeWord(mem[o + 4..o + 8]),
           DecodeWord(mem[o + 8..o + 12]), DecodeWord(mem[o + 12..o + 16]))
  }

  /** A header written into the pool reads back unchanged. */
  lemma HeaderRoundTrip(mem: seq<byte>, o: nat, hd: Header)
    requires o + HEADER_SIZE <= |mem|
    ensures HeaderAt(Splice(mem, o, EncodeHeader(hd)), o) == hd
  {
    var m := Splice(mem, o, EncodeHeader(hd));
    assert m[o..o + 4] == EncodeWord(hd.magic);
    assert m[o + 4..o + 8] == EncodeWord(hd.start);
    assert m[o + 8..o + 12] == EncodeWord(hd.blocks);
    assert m[o + 12..o + 16] == EncodeWord(hd.size);
    WordRoundTrip(hd.magic);
    WordRoundTrip(hd.start);
    WordRoundTrip(hd.blocks);
    WordRoundTrip(hd.size);
  }

  lemma HeaderFrame(m: seq<byte>, m': seq<byte>, o: nat)
    requires o + HEADER_SIZE <= |m| == |m'|
    requires forall i :: o <= i < o + HEADER_SIZE ==> m[i] == m'[i]
    ensures HeaderAt(m, o) == HeaderAt(m', o)
  {
  }

  /** Stores into one block's header slot leave every other block's header alone. */
  lemma HeaderElsewhere(mem: seq<byte>, s: nat, t: nat, data: seq<byte>)
    requires s != t && |data| <= HEADER_SIZE
    requires s * BLOCK_SIZE + |data| <= |mem| && t * BLOCK_SIZE + HEADER_SIZE <= |mem|
    ensures HeaderAt(Splice(mem, s * BLOCK_SIZE, data), t * BLOCK_SIZE) == HeaderAt(mem, t * BLOCK_SIZE)
  {
  }

  // ---------------------------------------------------------------- requests

  /** The block count the code computes, both 32-bit sums wrapping. */
  function BlocksNeeded(size: u32): u32 {
    Wrap(Wrap(HEADER_SIZE + size) + BLOCK_SIZE - 1) / BLOCK_SIZE
  }

  /** The block count a request deserves: its header and payload, rounded up. */
  function IdealBlocks(size: u32): nat {
    (size + HEADER_SIZE + BLOCK_SIZE - 1) / BLOCK_SIZE
  }

  /** Payload bytes that `n` blocks hold after their header. */
  function Capacity(n: nat): int {
    n * BLOCK_SIZE - HEADER_SIZE
  }

  /** A wrapped block count is either the deserved one or one the scan can never meet,
      exactly when the request does not exceed MAX_REQUEST. */
  lemma BlocksNeededExact(size: u32)
    ensures size <= MAX_REQUEST <==>
            (if IdealBlocks(size) <= TOTAL_BLOCKS then BlocksNeeded(size) == IdealBlocks(size)
             else BlocksNeeded(size) == 0 || BlocksNeeded(size) > TOTAL_BLOCKS)
    ensures 1 <= BlocksNeeded(size) <= TOTAL_BLOCKS ==>
              (size <= Capacity(BlocksNeeded(size)) <==> size <= MAX_REQUEST)
    ensures size > MAX_REQUEST ==> BlocksNeeded(size) == 1
  {
  }

  // --------------------------------------------------------------- first fit

  predicate FreeRun(used: seq<bool>, s: nat, n: nat) {
    s + n <= |used| && forall i :: s <= i < s + n ==> !used[i]
  }

  /** The least start of a run of `n` free blocks at or after `from`. */
  function FirstFit(used: seq<bool>, n: nat, from: nat): (r: Option<nat>)
    ensures r.None? ==> forall s :: from <= s ==> !FreeRun(used, s, n)
    ensures r.Some? ==> from <= r.value && FreeRun(used, r.value, n)
                        && forall s :: from <= s < r.value ==> !FreeRun(used, s, n)
    decreases |used| - from
  {
    if from + n > |used| then None
    else if FreeRun(used, from, n) then Some(from)
    else if from == |used| then None
    else FirstFit(used, n, from + 1)
  }

  function Mark(used: seq<bool>, lo: nat, hi: nat, v: bool): (r: seq<bool>)
    ensures |r| == |used|
    ensures forall i :: 0 <= i < |used| ==> r[i] == if lo <= i < hi then v else used[i]
  {
    seq(|used|, i requires 0 <= i < |used| => if lo <= i < hi then v else used[i])
  }

  // -------------------------------------------------------------- operations

  function PayloadAddr(h: Heap, s: nat): u32
    requires s < TOTAL_BLOCKS
  {
    h.base + s * BLOCK_SIZE + HEADER_SIZE
  }

  predicate InPool(h: Heap, p: u32) {
    h.base + HEADER_SIZE <= p < h.base + POOL_SIZE
  }

  function HeaderOf(h: Heap, p: u32): Header
    requires InPool(h, p)
  {
    HeaderAt(h.mem, p - h.base - HEADER_SIZE)
  }

  function AfterInit(h: Heap): Heap {
    h.(ready := true, used := seq(TOTAL_BLOCKS, _ => false), mem := Zeros(POOL_SIZE))
  }

  /** Where `kmalloc(size)` places its block, if it can. */
  function Placement(h: Heap, size: u32): (r: Option<nat>)
    ensures r.Some? ==> r.value < TOTAL_BLOCKS
  {
    var n := BlocksNeeded(size);
    if !h.ready || size == 0 || n == 0 || n > TOTAL_BLOCKS then None
    else FirstFit(h.used, n, 0)
  }

  function AfterKmalloc(h: Heap, size: u32): (Heap, u32) {
    match Placement(h, size)
    case None => (h, NULL)
    case Some(s) =>
      var n := BlocksNeeded(size);
      (h.(used := Mark(h.used, s, s + n, true),
          mem := Splice(h.mem, s * BLOCK_SIZE, EncodeHeader(Header(MAGIC, s, n, size)))),
       PayloadAddr(h, s))
  }

  function AfterKfree(h: Heap, p: u32): Heap {
    if p == NULL || !h.ready || !InPool(h, p) || HeaderOf(h, p).magic != MAGIC then h
    else
      var hd := HeaderOf(h, p);
      h.(used := Mark(h.used, hd.start, Wrap(hd.start + hd.blocks), false),
         mem := Splice(h.mem, p - h.base - HEADER_SIZE, EncodeWord(0)))
  }

  /** The request is refused, or gets as many bytes as it asks for (BlocksNeededExact). */
  predicate Honoured(h: Heap, size: u32) {
    size <= MAX_REQUEST || Placement(h, size).None?
  }

  /** Defined exactly where the zeroing stays inside the pool. */
  function AfterKcalloc(h: Heap, num: u32, size: u32): (Heap, u32)
    requires Honoured(h, Wrap(num * size))
  {
    var total := Wrap(num * size);
    var (h1, p) := AfterKmalloc(h, total);
    if p == NULL then (h1, p)
    else
      PlacementFits(h, total);
      (h1.(mem := Splice(h1.mem, p - h.base, Zeros(total))), p)
  }

  /** What `krealloc` relies on at a pointer whose header carries the magic: the header
      describes blocks that are in use, around this very pointer, and big enough. */
  predicate Owned(h: Heap, p: u32) {
    && InPool(h, p)
    && var hd := HeaderOf(h, p);
       && hd.magic == MAGIC
       && hd.start < TOTAL_BLOCKS
       && p == PayloadAddr(h, hd.start)
       && 1 <= hd.blocks
       && hd.start + hd.blocks <= TOTAL_BLOCKS
       && hd.size <= Capacity(hd.blocks)
       && forall i :: hd.start <= i < hd.start + hd.blocks ==> h.used[i]
  }

  /** A moving `krealloc` copies to bytes of the pool (perhaps past the new block). */
  predicate CopyStays(h: Heap, p: u32, size: u32)
    requires InPool(h, p)
  {
    var hd := HeaderOf(h, p);
    size <= Capacity(hd.blocks) ||
    match Placement(h, size)
    case None => true
    case Some(r) => r * BLOCK_SIZE + HEADER_SIZE + Min(hd.size, size) <= POOL_SIZE
  }

  predicate Reallocatable(h: Heap, p: u32, size: u32) {
    p == NULL || size == 0 ||
    (InPool(h, p) && (HeaderOf(h, p).magic != MAGIC || (Owned(h, p) && CopyStays(h, p, size))))
  }

  function AfterKrealloc(h: Heap, p: u32, size: u32): (Heap, u32)
    requires Reallocatable(h, p, size)
  {
    if p == NULL then AfterKmalloc(h, size)
    else if size == 0 then (AfterKfree(h, p), NULL)
    else
      var hd := HeaderOf(h, p);
      if hd.magic != MAGIC then (h, NULL)
      else if size <= Capacity(hd.blocks) then
        (h.(mem := Splice(h.mem, p - h.base - HEADER_SIZE, EncodeHeader(hd.(size := size)))), p)
      else
        var (h1, q) := AfterKmalloc(h, size);
        if q == NULL then (h1, NULL)
        else
          var kept := h.mem[p - h.base..p - h.base + Min(hd.size, size)];
          (AfterKfree(h1.(mem := Splice(h1.mem, q - h.base, kept)), p), q)
  }

  function UsedBlocks(used: seq<bool>): nat {
    |set i | 0 <= i < |used| && used[i]|
  }

  // ------------------------------------------------ facts about one allocation

  /** The payload a successful allocation hands out lies inside the pool. */
  lemma PlacementFits(h: Heap, size: u32)
    requires size <= MAX_REQUEST
    ensures Placement(h, size).Some? ==>
              Placement(h, size).value * BLOCK_SIZE + HEADER_SIZE + size <= POOL_SIZE
  {
  }

  /** Null leaves the heap alone; a pointer has its header before it and the request after it. */
  lemma KmallocPayload(h: Heap, size: u32)
    requires size <= MAX_REQUEST
    ensures var (h1, p) := AfterKmalloc(h, size);
            && h1.base == h.base
            && (p == NULL ==> h1 == h)
            && (p != NULL ==> InPool(h, p) && p - h.base + size <= POOL_SIZE)
  {
    PlacementFits(h, size);
  }

  /** `kmalloc` fails exactly when the heap is not ready, the size is zero, or no run of the
      deserved number of blocks is free; otherwise it takes the first such run. */
  lemma KmallocFirstFit(h: Heap, size: u32)
    requires Honoured(h, size)
    ensures AfterKmalloc(h, size).1 == NULL <==>
            !h.ready || size == 0 || forall s: nat :: !FreeRun(h.used, s, IdealBlocks(size))
    ensures forall s: nat :: s < TOTAL_BLOCKS && AfterKmalloc(h, size).1 == PayloadAddr(h, s) ==>
              FreeRun(h.used, s, IdealBlocks(size))
              && forall t: nat :: t < s ==> !FreeRun(h.used, t, IdealBlocks(size))
  {
    BlocksNeededExact(size);
    if IdealBlocks(size) > TOTAL_BLOCKS {
      assert forall s: nat :: !FreeRun(h.used, s, IdealBlocks(size));
    }
  }

  /** Above MAX_REQUEST the total wraps: a 4294967281-byte request is granted one block. */
  lemma OversizeRequestGranted(h: Heap)
    requires h.ready && !h.used[0]
    ensures AfterKmalloc(h, MAX_REQUEST + 1).1 == PayloadAddr(h, 0)
    ensures BlocksNeeded(MAX_REQUEST + 1) == 1
  {
  }

  /** A block `kcalloc` is granted holds its `num` elements exactly when their product is at most
      MAX_REQUEST; otherwise the product or its total wrapped. */
  lemma KcallocRoom(h: Heap, num: u32, size: u32)
    requires Placement(h, Wrap(num * size)).Some?
    ensures num * size <= Capacity(BlocksNeeded(Wrap(num * size))) <==> num * size <= MAX_REQUEST
  {
    BlocksNeededExact(Wrap(num * size));
  }

  /** 65536 elements of 65537 bytes: a fresh heap grants 65536 bytes for them. */
  lemma KcallocShort(h: Heap)
    ensures Placement(AfterInit(h), Wrap(65536 * 65537)) == Some(0)
    ensures Capacity(BlocksNeeded(Wrap(65536 * 65537))) < 65536 * 65537
  {
    assert Wrap(65536 * 65537) == 65536 && BlocksNeeded(65536) == 2049;
    assert FreeRun(AfterInit(h).used, 0, 2049);
  }

  /** Growing a held block elsewhere leaves its header and its bytes readable, and either the new
      payload begins after the bytes to copy or it begins before them, so that the ascending
      copy reads every byte before overwriting it. */
  lemma OwnedSurvives(h: Heap, p: u32, size: u32)
    requires Owned(h, p) && AfterKmalloc(h, size).1 != NULL
    ensures var (h1, q) := AfterKmalloc(h, size);
            var hd := HeaderOf(h, p);
            var src, n := p - h.base, Min(hd.size, size);
            && h1.base == h.base
            && HeaderOf(h1, p) == hd
            && InPool(h, q) && q == PayloadAddr(h, Placement(h, size).value)
            && src + n <= POOL_SIZE
            && (src + n <= q - h.base || q - h.base <= src)
            && h1.mem[src..src + n] == h.mem[src..src + n]
  {
    hide HeaderAt, EncodeHeader;
    var hd := HeaderOf(h, p);
    var r, n := Placement(h, size).value, BlocksNeeded(size);
    RunMissesUsed(h.used, r, n, hd.start, hd.blocks);
    HeaderElsewhere(h.mem, r, hd.start, EncodeHeader(Header(MAGIC, r, n, size)));
  }

  /** `h` after the first bytes of the payload at `p` are copied to `q` and `p` is freed. */
  function AfterTransfer(h: Heap, p: u32, q: u32, size: u32): Heap
    requires Transferable(h, p, q, size)
  {
    var n := Min(HeaderOf(h, p).size, size);
    AfterKfree(h.(mem := Splice(h.mem, q - h.base, h.mem[p - h.base..p - h.base + n])), p)
  }

  predicate Transferable(h: Heap, p: u32, q: u32, size: u32) {
    && InPool(h, p) && InPool(h, q)
    && var n := Min(HeaderOf(h, p).size, size);
       && p - h.base + n <= POOL_SIZE && q - h.base + n <= POOL_SIZE
       && (p + n <= q || q <= p)
  }

  /** The growing path of `krealloc` is an allocation followed by a transfer. */
  lemma GrowPath(h: Heap, p: u32, size: u32, h1: Heap, q: u32)
    requires Owned(h, p) && p != NULL && Capacity(HeaderOf(h, p).blocks) < size && CopyStays(h, p, size)
    requires AfterKmalloc(h, size) == (h1, q) && q != NULL
    ensures Transferable(h1, p, q, size)
    ensures AfterKrealloc(h, p, size) == (AfterTransfer(h1, p, q, size), q)
  {
    hide HeaderAt, EncodeHeader, AfterKfree, FirstFit;
    OwnedSurvives(h, p, size);
  }

  lemma GrowRefused(h: Heap, p: u32, size: u32)
    requires Owned(h, p) && p != NULL && Capacity(HeaderOf(h, p).blocks) < size && CopyStays(h, p, size)
    requires AfterKmalloc(h, size).1 == NULL
    ensures AfterKrealloc(h, p, size) == AfterKmalloc(h, size)
  {
  }

  lemma RunMissesUsed(used: seq<bool>, r: nat, n: nat, s: nat, m: nat)
    requires FreeRun(used, r, n) && n > 0 && m > 0 && s + m <= |used|
    requires forall i :: s <= i < s + m ==> used[i]
    ensures r + n <= s || s + m <= r
  {
    assert used[s] && !used[r];
  }
}
