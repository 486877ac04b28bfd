/** Which bytes of the pool each heap call reads and writes, and that these are always bytes of
    the block the call names or is granted. Offsets count from the start of the pool and may,
    for a wild pointer, lie outside it. */
module HeapAccess {
  import opened Words
  import opened HeapModel
  import opened HeapRuns
  import opened HeapLaws

  /** The sixteen bytes before a pointer, where its header would be. */
  predicate InSlot(h: Heap, p: u32, i: int) {
    p - h.base - HEADER_SIZE <= i < p - h.base
  }

  /** The header `kmalloc(size)` writes. */
  predicate InNewHeader(h: Heap, size: u32, i: int) {
    Placement(h, size).Some? &&
    var o := Placement(h, size).value * BLOCK_SIZE; o <= i < o + HEADER_SIZE
  }

  /** The first `n` bytes after the header `kmalloc(size)` writes. */
  predicate InNewPayload(h: Heap, size: u32, n: nat, i: int) {
    Placement(h, size).Some? &&
    var o := Placement(h, size).value * BLOCK_SIZE + HEADER_SIZE; o <= i < o + n
  }

  /** `kfree` looks at the header, or even finds it valid. */
  predicate Inspects(h: Heap, p: u32) {
    p != NULL && h.ready && InPool(h, p)
  }

  predicate Releases(h: Heap, p: u32) {
    Inspects(h, p) && HeaderOf(h, p).magic == MAGIC
  }

  /** `krealloc` finds a valid header and has to move the block. */
  predicate Moves(h: Heap, p: u32, size: u32) {
    && InPool(h, p) && HeaderOf(h, p).magic == MAGIC
    && size > Capacity(HeaderOf(h, p).blocks) && Placement(h, size).Some?
  }

  function Kept(h: Heap, p: u32, size: u32): nat
    requires InPool(h, p)
  {
    Min(HeaderOf(h, p).size, size)
  }

  predicate Reads(w: World, c: Call, i: int) {
    match c
    case Malloc(_) => false
    case Calloc(_, _) => false
    case Write(_, _, _) => false
    case Free(p) => Inspects(w.heap, p) && InSlot(w.heap, p, i)
    case Realloc(p, size) =>
      p != NULL &&
      if size == 0 then Inspects(w.heap, p) && InSlot(w.heap, p, i)
      else InSlot(w.heap, p, i) ||
           (Moves(w.heap, p, size) && 0 <= i - (p - w.heap.base) < Kept(w.heap, p, size))
  }

  predicate Writes(w: World, c: Call, i: int) {
    match c
    case Malloc(size) => InNewHeader(w.heap, size, i)
    case Calloc(num, elem) =>
      var total := Wrap(num * elem);
      InNewHeader(w.heap, total, i) || InNewPayload(w.heap, total, total, i)
    case Write(s, k, _) => i == s * BLOCK_SIZE + HEADER_SIZE + k
    case Free(p) => Releases(w.heap, p) && InSlot(w.heap, p, i)
    case Realloc(p, size) =>
      if p == NULL then InNewHeader(w.heap, size, i)
      else if size == 0 then Releases(w.heap, p) && InSlot(w.heap, p, i)
      else InPool(w.heap, p) && HeaderOf(w.heap, p).magic == MAGIC &&
           if size <= Capacity(HeaderOf(w.heap, p).blocks) then InSlot(w.heap, p, i)
           else Moves(w.heap, p, size) &&
                (InNewHeader(w.heap, size, i) || InNewPayload(w.heap, size, Kept(w.heap, p, size), i)
                 || InSlot(w.heap, p, i))
  }

  // --------------------------------------------------------------------- confinement

  /** The held block a call names. */
  function Named(w: World, c: Call): Option<nat> {
    match c
    case Free(p) => LiveAt(w, p)
    case Realloc(p, _) => LiveAt(w, p)
    case Write(s, _, _) => Some(s)
    case _ => None
  }

  /** The bytes a call asks for; 0 is never granted. */
  function Asked(c: Call): u32 {
    match c
    case Malloc(size) => size
    case Calloc(num, elem) => Wrap(num * elem)
    case Realloc(_, size) => size
    case _ => 0
  }

  predicate InNamed(w: World, c: Call, i: int) {
    match Named(w, c)
    case None => false
    case Some(s) => s in w.live && s * BLOCK_SIZE <= i < (s + w.live[s].blocks) * BLOCK_SIZE
  }

  predicate InGranted(w: World, c: Call, i: int) {
    match Placement(w.heap, Asked(c))
    case None => false
    case Some(r) => r * BLOCK_SIZE <= i < (r + BlocksNeeded(Asked(c))) * BLOCK_SIZE
  }

  lemma NewBytesGranted(h: Heap, size: u32, i: int)
    requires size <= MAX_REQUEST && Placement(h, size).Some?
    requires InNewHeader(h, size, i) || InNewPayload(h, size, size, i)
    ensures var r := Placement(h, size).value;
            r * BLOCK_SIZE <= i < (r + BlocksNeeded(size)) * BLOCK_SIZE <= POOL_SIZE
  {
    BlocksNeededExact(size);
  }

  lemma LiveSlot(w: World, p: u32, i: int)
    requires Inv(w) && LiveAt(w, p).Some?
    ensures var s := LiveAt(w, p).value;
            && Sound(w.heap, w.live, s)
            && (InSlot(w.heap, p, i) ==> 0 <= s * BLOCK_SIZE <= i < (s + 1) * BLOCK_SIZE)
            && (0 <= i - (p - w.heap.base) < w.live[s].size ==>
                  s * BLOCK_SIZE <= i < (s + w.live[s].blocks) * BLOCK_SIZE)
  {
    assert Sound(w.heap, w.live, LiveAt(w, p).value);
  }

  /** Every byte a legal call writes lies in the block it names or in the one it is granted. */
  lemma WritesConfined(w: World, c: Call, i: int)
    requires Inv(w) && Legal(w, c) && Writes(w, c, i)
    ensures 0 <= i < POOL_SIZE
    ensures InNamed(w, c, i) || InGranted(w, c, i)
  {
    hide HeaderAt, Disjoint, BitmapAgrees, FirstFit, BlocksNeeded;
    match c
    case Malloc(size) => NewBytesGranted(w.heap, size, i);
    case Calloc(num, elem) => NewBytesGranted(w.heap, Wrap(num * elem), i);
    case Write(s, k, v) => assert Sound(w.heap, w.live, s);
    case Free(p) => LiveSlot(w, p, i);
    case Realloc(p, size) =>
      if p == NULL {
        NewBytesGranted(w.heap, size, i);
      } else {
        LiveSlot(w, p, i);
        LivePointerOwned(w, p);
        if size != 0 && Moves(w.heap, p, size) && !InSlot(w.heap, p, i) {
          NewBytesGranted(w.heap, size, i);
        }
      }
  }

  /** Every byte a legal call reads lies in the block it names, or is where the header of the
      pointer it was given would be, inside the pool. */
  lemma ReadsConfined(w: World, c: Call, i: int)
    requires Inv(w) && Legal(w, c) && Reads(w, c, i)
    ensures 0 <= i < POOL_SIZE
    ensures InNamed(w, c, i) || InSlot(w.heap, c.ptr, i)
  {
    hide HeaderAt, Disjoint, BitmapAgrees, Placement;
    if LiveAt(w, c.ptr).Some? {
      LiveSlot(w, c.ptr, i);
      LivePointerOwned(w, c.ptr);
    }
  }

  lemma CallocChanges(w: World, num: u32, elem: u32, i: int)
    requires Inv(w) && Legal(w, Calloc(num, elem)) && 0 <= i < POOL_SIZE && !Writes(w, Calloc(num, elem), i)
    ensures AfterKcalloc(w.heap, num, elem).0.mem[i] == w.heap.mem[i]
  {
    hide Inv, HeaderAt, EncodeHeader, FirstFit, BlocksNeeded;
  }

  lemma ReallocChanges(w: World, p: u32, size: u32, i: int)
    requires Inv(w) && Legal(w, Realloc(p, size)) && p != NULL && size != 0 && LiveAt(w, p).Some?
    requires 0 <= i < POOL_SIZE && !Writes(w, Realloc(p, size), i)
    ensures Step(w, Realloc(p, size)).heap.mem[i] == w.heap.mem[i]
  {
    hide HeaderAt, EncodeHeader, Disjoint, BitmapAgrees, FirstFit, BlocksNeeded, AfterKfree;
    LivePointerOwned(w, p);
    StepKeepsInv(w, Realloc(p, size));
    var s := LiveAt(w, p).value;
    if size > Capacity(w.live[s].blocks) && Placement(w.heap, size).Some? {
      GrowIsCopyThenFree(w, p, size);
      FreeChanges(Copied(w, s, size), p, i);
    }
  }

  /** And these are all the writes: no other byte of the pool changes. */
  lemma OnlyWritesChange(w: World, c: Call, i: int)
    requires Inv(w) && Legal(w, c) && 0 <= i < POOL_SIZE && !Writes(w, c, i)
    ensures Step(w, c).heap.mem[i] == w.heap.mem[i]
  {
    hide Inv, HeaderAt, EncodeHeader, FirstFit, BlocksNeeded, AfterKfree, AfterKcalloc;
    StepKeepsInv(w, c);
    match c
    case Malloc(size) =>
    case Calloc(num, elem) => CallocChanges(w, num, elem, i);
    case Write(s, k, v) =>
    case Free(p) => FreeChanges(w, p, i);
    case Realloc(p, size) =>
      if p != NULL {
        if size == 0 {
          FreeChanges(w, p, i);
        } else if LiveAt(w, p).Some? {
          ReallocChanges(w, p, size, i);
        }
      }
  }

  lemma FreeChanges(w: World, p: u32, i: int)
    requires Inv(w) && PtrOk(w, p) && 0 <= i < POOL_SIZE
    requires !(Releases(w.heap, p) && InSlot(w.heap, p, i))
    ensures AfterKfree(w.heap, p).mem[i] == w.heap.mem[i]
  {
    hide HeaderAt, Disjoint, BitmapAgrees;
  }

  // -------------------------------------------------------------------- main theorem

  /** After `kheap_init` and any legal run: held extents are disjoint and in range, a bitmap
      flag is set exactly when its block is held, and every held header decodes to the magic,
      its own start, its block count and a size that fits. The next legal call reads and
      writes only bytes of the pool: it writes inside the block it names or is granted, and
      reads inside the block it names or the header slot of the pointer it was given. */
  lemma EveryRunSound(h: Heap, calls: seq<Call>, next: Call, i: int)
    requires LegalRun(Fresh(h), calls)
    requires Legal(Run(Fresh(h), calls), next)
    ensures var w := Run(Fresh(h), calls);
            && Inv(w)
            && Defined(w, next)
            && (Reads(w, next, i) || Writes(w, next, i) ==> 0 <= i < POOL_SIZE)
            && (Writes(w, next, i) ==> InNamed(w, next, i) || InGranted(w, next, i))
            && (Reads(w, next, i) ==> InNamed(w, next, i) || InSlot(w.heap, next.ptr, i))
            && (0 <= i < POOL_SIZE && !Writes(w, next, i) ==> Step(w, next).heap.mem[i] == w.heap.mem[i])
  {
    var w := Run(Fresh(h), calls);
    RunKeepsInv(Fresh(h), calls);
    hide Inv, Legal, Step, Run, Reads, Writes;
    StepKeepsInv(w, next);
    if Writes(w, next, i) {
      WritesConfined(w, next, i);
    } else if 0 <= i < POOL_SIZE {
      OnlyWritesChange(w, next, i);
    }
    if Reads(w, next, i) {
      ReadsConfined(w, next, i);
    }
  }
}
