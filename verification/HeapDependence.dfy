/** The reads of HeapAccess are all the reads: what a heap call does depends on no other byte
    of the pool. */
module HeapDependence {
  import opened Words
  import opened HeapModel
  import opened HeapRuns
  import opened HeapLaws
  import opened HeapAccess
  import opened HeapAnswers

  function With(w: World, m: seq<byte>): World
    requires |m| == POOL_SIZE
  {
    w.(heap := w.heap.(mem := m))
  }

  /** The pool `m` has the bytes that the call reads. */
  ghost predicate ReadsAlike(w: World, m: seq<byte>, c: Call)
    requires |m| == POOL_SIZE
  {
    forall i :: 0 <= i < POOL_SIZE && Reads(w, c, i) ==> m[i] == w.heap.mem[i]
  }

  /** Two outcomes of a call that cannot be told apart: same answer, same flags, same ledger, and
      the same values stored wherever the call stores any. */
  ghost predicate Alike(w: World, v: World, c: Call)
    requires Defined(w, c) && Defined(v, c)
  {
    && Answer(v, c) == Answer(w, c)
    && Step(v, c).heap.used == Step(w, c).heap.used && Step(v, c).live == Step(w, c).live
    && forall i :: 0 <= i < POOL_SIZE && Writes(w, c, i) ==> Step(v, c).heap.mem[i] == Step(w, c).heap.mem[i]
  }

  lemma SameHeader(w: World, m: seq<byte>, c: Call, p: u32)
    requires |m| == POOL_SIZE && ReadsAlike(w, m, c) && InPool(w.heap, p)
    requires forall i :: InSlot(w.heap, p, i) ==> Reads(w, c, i)
    ensures HeaderOf(With(w, m).heap, p) == HeaderOf(w.heap, p)
  {
    var o := p - w.heap.base - HEADER_SIZE;
    forall i | o <= i < o + HEADER_SIZE
      ensures m[i] == w.heap.mem[i]
    {
      assert InSlot(w.heap, p, i);
    }
    HeaderFrame(w.heap.mem, m, o);
  }

  lemma KfreeAlike(h: Heap, h': Heap, p: u32)
    requires h' == h.(mem := h'.mem)
    requires Inspects(h, p) ==> forall i :: InSlot(h, p, i) ==> h'.mem[i] == h.mem[i]
    ensures AfterKfree(h', p).used == AfterKfree(h, p).used
    ensures Inspects(h, p) ==> forall i :: InSlot(h, p, i) ==> AfterKfree(h', p).mem[i] == AfterKfree(h, p).mem[i]
  {
    hide HeaderAt, EncodeWord, Mark;
    if Inspects(h, p) {
      var o := p - h.base - HEADER_SIZE;
      assert forall i :: o <= i < o + HEADER_SIZE ==> InSlot(h, p, i);
      HeaderFrame(h.mem, h'.mem, o);
    }
  }

  lemma FreeAlike(w: World, m: seq<byte>, p: u32)
    requires |m| == POOL_SIZE && ReadsAlike(w, m, Free(p))
    ensures Alike(w, With(w, m), Free(p))
  {
    hide AfterKfree;
    KfreeAlike(w.heap, With(w, m).heap, p);
  }

  lemma MallocAlike(w: World, m: seq<byte>, size: u32)
    requires |m| == POOL_SIZE
    ensures Alike(w, With(w, m), Malloc(size))
  {
    hide EncodeHeader, FirstFit, BlocksNeeded;
  }

  lemma CallocAlike(w: World, m: seq<byte>, num: u32, elem: u32)
    requires |m| == POOL_SIZE && Defined(w, Calloc(num, elem))
    ensures Defined(With(w, m), Calloc(num, elem)) && Alike(w, With(w, m), Calloc(num, elem))
  {
    hide EncodeHeader, FirstFit, BlocksNeeded;
  }

  /** A header and then `kept` stored at `at`, and after that a zero word at `slot`. */
  function Moved(mem: seq<byte>, at: nat, header: seq<byte>, kept: seq<byte>, slot: nat): (m: seq<byte>)
    requires at + |header| + |kept| <= |mem| && slot + 4 <= |mem|
    ensures |m| == |mem|
  {
    Splice(Splice(Splice(mem, at, header), at + |header|, kept), slot, EncodeWord(0))
  }

  /** Where the bytes were the same, in the slot, they still are; where they were stored, they are. */
  lemma MovedAlike(mem: seq<byte>, mem': seq<byte>, at: nat, header: seq<byte>, kept: seq<byte>, slot: nat, i: nat)
    requires |mem| == |mem'| && at + |header| + |kept| <= |mem| && slot + HEADER_SIZE <= |mem|
    requires forall j :: slot <= j < slot + HEADER_SIZE ==> mem[j] == mem'[j]
    requires at <= i < at + |header| + |kept| || slot <= i < slot + HEADER_SIZE
    ensures Moved(mem, at, header, kept, slot)[i] == Moved(mem', at, header, kept, slot)[i]
  {
    hide EncodeWord;
  }

  /** The growing path of `krealloc` from offset `o`, whose header is `hd`, to block `r`, written
      out as one change of flags and three of bytes. */
  function Grown(h: Heap, hd: Header, o: nat, size: u32, r: nat): (Heap, u32)
    requires HEADER_SIZE <= o <= o + hd.size <= POOL_SIZE
    requires r < TOTAL_BLOCKS && r * BLOCK_SIZE + HEADER_SIZE + size <= POOL_SIZE
  {
    var n := BlocksNeeded(size);
    (h.(used := Mark(Mark(h.used, r, r + n, true), hd.start, hd.start + hd.blocks, false),
        mem := Moved(h.mem, r * BLOCK_SIZE, EncodeHeader(Header(MAGIC, r, n, size)),
                     h.mem[o..o + Min(hd.size, size)], o - HEADER_SIZE)),
     PayloadAddr(h, r))
  }

  predicate Grows(h: Heap, p: u32, size: u32) {
    && Owned(h, p) && p != NULL && size <= MAX_REQUEST
    && size > Capacity(HeaderOf(h, p).blocks) && Placement(h, size).Some?
  }

  lemma GrowsToGrown(h: Heap, p: u32, size: u32)
    requires Grows(h, p, size)
    ensures Reallocatable(h, p, size)
    ensures Placement(h, size).value * BLOCK_SIZE + HEADER_SIZE + size <= POOL_SIZE
    ensures AfterKrealloc(h, p, size) == Grown(h, HeaderOf(h, p), p - h.base, size, Placement(h, size).value)
  {
    hide HeaderAt, EncodeHeader, EncodeWord, FirstFit, Mark, Splice, BlocksNeeded;
    var hd, r, n := HeaderOf(h, p), Placement(h, size).value, BlocksNeeded(size);
    PlacementFits(h, size);
    BlocksNeededExact(size);
    OwnedSurvives(h, p, size);
    var (h1, q) := AfterKmalloc(h, size);
    var kept := h.mem[p - h.base..p - h.base + Min(hd.size, size)];
    RunMissesUsed(h.used, r, n, hd.start, hd.blocks);
    CopyMissesHeader(h1.mem, p - h.base - HEADER_SIZE, q - h.base, kept);
  }

  lemma CopyMissesHeader(mem: seq<byte>, o: nat, at: nat, data: seq<byte>)
    requires o + HEADER_SIZE <= |mem| && at + |data| <= |mem|
    requires at + |data| <= o || o + HEADER_SIZE <= at
    ensures HeaderAt(Splice(mem, at, data), o) == HeaderAt(mem, o)
  {
    hide HeaderAt;
    HeaderFrame(mem, Splice(mem, at, data), o);
  }

  lemma OwnedAlike(w: World, m: seq<byte>, p: u32, size: u32)
    requires |m| == POOL_SIZE && Owned(w.heap, p) && p != NULL && size > 0 && ReadsAlike(w, m, Realloc(p, size))
    ensures Owned(With(w, m).heap, p) && HeaderOf(With(w, m).heap, p) == HeaderOf(w.heap, p)
  {
    hide HeaderAt;
    SameHeader(w, m, Realloc(p, size), p);
  }

  lemma GrownAlike(w: World, m: seq<byte>, p: u32, size: u32)
    requires |m| == POOL_SIZE && Inv(w) && LiveAt(w, p).Some? && Grows(w.heap, p, size)
    requires ReadsAlike(w, m, Realloc(p, size))
    ensures Defined(With(w, m), Realloc(p, size)) && Defined(w, Realloc(p, size))
    ensures Alike(w, With(w, m), Realloc(p, size))
  {
    hide HeaderAt, EncodeHeader, Moved, FirstFit, BlocksNeeded, Inv, AfterKrealloc;
    var c, v := Realloc(p, size), With(w, m);
    OwnedAlike(w, m, p, size);
    GrowsToGrown(w.heap, p, size);
    GrowsToGrown(v.heap, p, size);
    var o, hd, r := p - w.heap.base, HeaderOf(w.heap, p), Placement(w.heap, size).value;
    var kept := w.heap.mem[o..o + Min(hd.size, size)];
    assert m[o..o + Min(hd.size, size)] == kept;
    var header := EncodeHeader(Header(MAGIC, r, BlocksNeeded(size), size));
    forall i | 0 <= i < POOL_SIZE && Writes(w, c, i)
      ensures Step(v, c).heap.mem[i] == Step(w, c).heap.mem[i]
    {
      MovedAlike(w.heap.mem, m, r * BLOCK_SIZE, header, kept, o - HEADER_SIZE, i);
    }
  }

  lemma ReallocAlike(w: World, m: seq<byte>, p: u32, size: u32)
    requires |m| == POOL_SIZE && Inv(w) && Legal(w, Realloc(p, size)) && p != NULL && size > 0
    requires ReadsAlike(w, m, Realloc(p, size))
    ensures Defined(With(w, m), Realloc(p, size)) && Defined(w, Realloc(p, size))
    ensures Alike(w, With(w, m), Realloc(p, size))
  {
    hide HeaderAt, EncodeHeader, FirstFit, BlocksNeeded, Disjoint, BitmapAgrees, AfterKfree;
    SameHeader(w, m, Realloc(p, size), p);
    if LiveAt(w, p).Some? {
      LivePointerOwned(w, p);
      OwnedAlike(w, m, p, size);
      if Grows(w.heap, p, size) {
        GrownAlike(w, m, p, size);
      }
    }
  }

  /** A call whose reads find the same bytes has the same outcome, whatever the rest of the pool
      holds: the bytes HeapAccess lists are all that it depends on. */
  lemma OnlyReadsMatter(w: World, m: seq<byte>, c: Call)
    requires |m| == POOL_SIZE && Inv(w) && Legal(w, c) && ReadsAlike(w, m, c)
    ensures Defined(w, c) && Defined(With(w, m), c)
    ensures Alike(w, With(w, m), c)
  {
    hide HeaderAt, EncodeHeader, FirstFit, BlocksNeeded, Inv, ReadsAlike, AfterKfree;
    StepKeepsInv(w, c);
    match c
    case Malloc(size) => MallocAlike(w, m, size);
    case Calloc(num, elem) => CallocAlike(w, m, num, elem);
    case Realloc(p, size) =>
      if p == NULL {
        MallocAlike(w, m, size);
      } else if size == 0 {
        ReleaseAlike(w, m, p);
      } else {
        ReallocAlike(w, m, p, size);
      }
    case Free(p) => FreeAlike(w, m, p);
    case Write(_, _, _) =>
  }

  lemma ReleaseAlike(w: World, m: seq<byte>, p: u32)
    requires |m| == POOL_SIZE && p != NULL && ReadsAlike(w, m, Realloc(p, 0))
    ensures Alike(w, With(w, m), Realloc(p, 0))
  {
    hide AfterKfree;
    KfreeAlike(w.heap, With(w, m).heap, p);
  }
}
