/** What the allocator returns: the address each call hands back, against the free blocks it
    found and the ledger it leaves. */
module HeapAnswers {
  import opened Words
  import opened HeapModel
  import opened HeapRuns
  import opened HeapLaws
  import opened HeapAccess

  /** Blocks of 32 bytes taken for a request, a 16-byte header included. Above 4294967280
      bytes the total wraps and one block is taken. */
  function Taken(size: u32): nat {
    if size <= 0xFFFFFFF0 then (size + 47) / 32 else 1
  }

  /** `q` is the right answer to a request for `size` bytes: null when there is nothing to give,
      otherwise the address 16 bytes into the first run of free blocks that is long enough. */
  ghost predicate FirstFitAnswer(h: Heap, size: u32, q: u32) {
    if !h.ready || size == 0 || forall r: nat :: !FreeRun(h.used, r, Taken(size)) then q == 0
    else exists r: nat ::
      && FreeRun(h.used, r, Taken(size))
      && (forall t: nat :: t < r ==> !FreeRun(h.used, t, Taken(size)))
      && q == h.base + 32 * r + 16
  }

  lemma TakenExact(size: u32)
    ensures if Taken(size) <= TOTAL_BLOCKS then BlocksNeeded(size) == Taken(size) > 0
            else BlocksNeeded(size) == 0 || BlocksNeeded(size) > TOTAL_BLOCKS
  {
    BlocksNeededExact(size);
  }

  lemma KmallocAnswers(h: Heap, size: u32)
    ensures FirstFitAnswer(h, size, AfterKmalloc(h, size).1)
  {
    hide BlocksNeeded, Taken, FirstFit, EncodeHeader;
    TakenExact(size);
    if Taken(size) <= TOTAL_BLOCKS {
      if Placement(h, size).Some? {
        assert FreeRun(h.used, Placement(h, size).value, Taken(size));
      }
    } else {
      assert forall r: nat :: !FreeRun(h.used, r, Taken(size));
    }
  }

  /** `kcalloc` answers as `kmalloc` of the wrapped product does. */
  lemma KcallocAnswers(h: Heap, num: u32, elem: u32)
    requires Honoured(h, Wrap(num * elem))
    ensures FirstFitAnswer(h, Wrap(num * elem), AfterKcalloc(h, num, elem).1)
  {
    hide FirstFitAnswer;
    KmallocAnswers(h, Wrap(num * elem));
  }

  /** `krealloc` away from a held block: null is an allocation, size 0 a release that returns
      null, and a pointer without the magic word gives null and changes nothing. */
  lemma KreallocAnswers(h: Heap, p: u32, size: u32)
    requires Reallocatable(h, p, size)
    ensures p == 0 ==> FirstFitAnswer(h, size, AfterKrealloc(h, p, size).1)
    ensures p == 0 ==> AfterKrealloc(h, p, size).0 == AfterKmalloc(h, size).0
    ensures p != 0 && size == 0 ==> AfterKrealloc(h, p, size) == (AfterKfree(h, p), 0)
    ensures p != 0 && size != 0 && HeaderOf(h, p).magic != 0x1EA9BEEF ==> AfterKrealloc(h, p, size) == (h, 0)
  {
    hide FirstFitAnswer;
    KmallocAnswers(h, size);
  }

  /** The pointer a call returns; null for the calls that return nothing. */
  function Answer(w: World, c: Call): u32
    requires Defined(w, c)
  {
    match c
    case Malloc(size) => AfterKmalloc(w.heap, size).1
    case Calloc(num, elem) => AfterKcalloc(w.heap, num, elem).1
    case Realloc(p, size) => AfterKrealloc(w.heap, p, size).1
    case _ => NULL
  }

  /** How an answer and the ledgers before and after a call belong together. A pointer is held
      afterwards with exactly the size asked for, and was held by nobody before, unless it is
      the one that was to be resized; null adds nothing to what is held. */
  ghost predicate Agrees(w: World, w': World, q: u32, size: nat, resized: u32) {
    if q == 0 then w'.live.Keys <= w.live.Keys
    else
      && LiveAt(w', q).Some?
      && var r := LiveAt(w', q).value;
         && w'.live[r].size == size
         && (q == resized || LiveAt(w, q).None?)
         && forall t :: t in w'.live && t != r ==> t in w.live && w'.live[t] == w.live[t]
  }

  lemma GrantAgrees(w: World, w': World, size: u32, dropped: set<nat>, resized: u32)
    requires Inv(w) && Placement(w.heap, size).Some? && w'.heap.base == w.heap.base
    requires w'.live == Held(w, size) - dropped && Placement(w.heap, size).value !in dropped
    ensures Agrees(w, w', PayloadAddr(w.heap, Placement(w.heap, size).value), size, resized)
  {
    hide Inv, Placement, BlocksNeeded;
    PlacementNotHeld(w, size);
  }

  lemma ResizeAgrees(w: World, p: u32, size: u32)
    requires Inv(w) && Legal(w, Realloc(p, size)) && p != NULL && size > 0
    ensures Reallocatable(w.heap, p, size)
    ensures Agrees(w, Step(w, Realloc(p, size)), AfterKrealloc(w.heap, p, size).1, size, p)
  {
    hide HeaderAt, EncodeHeader, AfterKfree, FirstFit, Disjoint, BitmapAgrees;
    ReallocKeepsInv(w, p, size);
    if LiveAt(w, p).Some? {
      var s := LiveAt(w, p).value;
      LivePointerOwned(w, p);
      if size <= Capacity(w.live[s].blocks) {
      } else if Placement(w.heap, size).Some? {
        GrowIsCopyThenFree(w, p, size);
        StepKeepsBase(w, Realloc(p, size));
        PlacementNotHeld(w, size);
        GrantAgrees(w, Step(w, Realloc(p, size)), size, {s}, p);
      }
    }
  }

  /** Every answer of every legal call fits the ledgers. */
  lemma AnswerIsHeld(w: World, c: Call)
    requires Inv(w) && Legal(w, c)
    ensures Defined(w, c)
    ensures Fits(w, c, Answer(w, c))
  {
    hide HeaderAt, EncodeHeader, AfterKfree, Agrees;
    StepKeepsInv(w, c);
    StepKeepsBase(w, c);
    match c
    case Malloc(size) => RequestAgrees(w, Step(w, c), size);
    case Calloc(num, elem) => RequestAgrees(w, Step(w, c), Wrap(num * elem));
    case Realloc(p, size) =>
      if p == NULL {
        RequestAgrees(w, Step(w, c), size);
      } else if size > 0 {
        ResizeAgrees(w, p, size);
      } else {
        NothingAgrees(w, Step(w, c), 0, p);
      }
    case Free(p) => NothingAgrees(w, Step(w, c), 0, 0);
    case Write(_, _, _) => NothingAgrees(w, Step(w, c), 0, 0);
  }

  lemma RequestAgrees(w: World, w': World, size: u32)
    requires Inv(w) && w'.heap.base == w.heap.base && w'.live == Held(w, size)
    ensures Agrees(w, w', AfterKmalloc(w.heap, size).1, size, 0)
  {
    if Placement(w.heap, size).Some? {
      GrantAgrees(w, w', size, {}, 0);
    }
  }

  lemma NothingAgrees(w: World, w': World, size: nat, resized: u32)
    requires w'.live.Keys <= w.live.Keys
    ensures Agrees(w, w', 0, size, resized)
  {
  }

  /** An answer fits the ledgers around the call it was given for. */
  ghost predicate Fits(w: World, c: Call, q: u32) {
    Agrees(w, Step(w, c), q, Asked(c), if c.Realloc? then c.ptr else 0)
  }

  lemma {:induction false} RunExtends(w: World, calls: seq<Call>, i: nat)
    requires i < |calls|
    ensures Run(w, calls[..i + 1]) == Step(Run(w, calls[..i]), calls[i])
    decreases i
  {
    if i == 0 {
      assert calls[..1][1..] == [];
    } else {
      RunExtends(Step(w, calls[0]), calls[1..], i - 1);
      assert calls[..i][1..] == calls[1..][..i - 1];
      assert calls[..i + 1][1..] == calls[1..][..i];
    }
  }

  // ------------------------------------------------------------ bytes and flags

  /** The number stored in four bytes, lowest byte first. */
  function Stored(mem: seq<byte>, o: nat): int
    requires o + 4 <= |mem|
  {
    mem[o] as int + 0x100 * (mem[o + 1] as int) + 0x10000 * (mem[o + 2] as int) + 0x1000000 * (mem[o + 3] as int)
  }

  lemma EncodeStores(mem: seq<byte>, o: nat, k: nat, a: seq<byte>, v: u32, b: seq<byte>)
    requires o + |a| + 4 + |b| <= |mem| && k == |a|
    ensures Stored(Splice(mem, o, a + EncodeWord(v) + b), o + k) == v
  {
    var t := a + EncodeWord(v) + b;
    assert forall i :: 0 <= i < 4 ==> t[k + i] == EncodeWord(v)[i];
    WordRoundTrip(v);
  }

  /** What a granted request leaves in the sixteen bytes before its payload: the magic word, the
      first block, the block count and the size, each with its lowest byte first. */
  lemma HeaderBytes(h: Heap, size: u32)
    requires AfterKmalloc(h, size).1 != 0
    ensures var (h', q) := AfterKmalloc(h, size);
            var o := q - h.base - 16;
            && 0 <= o <= POOL_SIZE - 32 && o % 32 == 0
            && Stored(h'.mem, o) == 0x1EA9BEEF && Stored(h'.mem, o + 4) == o / 32
            && Stored(h'.mem, o + 8) == Taken(size) && Stored(h'.mem, o + 12) == size
  {
    hide Stored, EncodeWord, FirstFit, Splice;
    BlocksNeededExact(size);
    var r := Placement(h, size).value;
    HeaderStores(h.mem, 32 * r, Header(MAGIC, r, BlocksNeeded(size), size));
  }

  lemma HeaderStores(mem: seq<byte>, o: nat, hd: Header)
    requires o + 16 <= |mem|
    ensures var m := Splice(mem, o, EncodeHeader(hd));
            && Stored(m, o) == hd.magic && Stored(m, o + 4) == hd.start
            && Stored(m, o + 8) == hd.blocks && Stored(m, o + 12) == hd.size
  {
    hide Stored, EncodeWord, Splice;
    var a, b, c, d := EncodeWord(hd.magic), EncodeWord(hd.start), EncodeWord(hd.blocks), EncodeWord(hd.size);
    var s := EncodeHeader(hd);
    assert s == [] + a + (b + c + d) == a + b + (c + d) == (a + b) + c + d == (a + b + c) + d + [];
    EncodeStores(mem, o, 0, [], hd.magic, b + c + d);
    EncodeStores(mem, o, 4, a, hd.start, c + d);
    EncodeStores(mem, o, 8, a + b, hd.blocks, d);
    EncodeStores(mem, o, 12, a + b + c, hd.size, []);
  }

  /** `kfree` of a pointer with the magic word, whatever the rest of its header claims: a flag
      is cleared exactly when its block is in the claimed range and that range does not run
      past 2^32, and the only bytes stored are four zeros over the magic word. */
  lemma KfreeClears(h: Heap, p: u32, i: nat)
    requires h.ready && InPool(h, p) && HeaderOf(h, p).magic == 0x1EA9BEEF && i < TOTAL_BLOCKS
    ensures var h', hd := AfterKfree(h, p), HeaderOf(h, p);
            && (h.used[i] && !h'.used[i] <==> h.used[i] && hd.start <= i < hd.start + hd.blocks < 0x1_0000_0000)
            && (h'.used[i] ==> h.used[i])
            && h'.mem == Splice(h.mem, p - h.base - 16, [0, 0, 0, 0])
  {
  }
}
