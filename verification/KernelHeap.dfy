/** The kernel's bitmap heap allocator: a static byte pool, a packed bitmap and an
    initialisation flag, changed in place. Every entry point is proved equal to its
    meaning on values in HeapModel. */
module KernelHeap {
  import opened Words
  import opened Bitmap
  import opened HeapModel
  import HeapRuns
  import HeapLaws
  import HeapAnswers

  class KHeap {
    const base: u32
    const memory: array<byte>
    const bitmap: array<bv8>
    var initialized: bool

    ghost predicate Valid() {
      && 0 < base
      && base + POOL_SIZE < TWO32
      && memory.Length == POOL_SIZE
      && bitmap.Length == BITMAP_SIZE
    }

    /** The heap as HeapModel sees it. */
    ghost function View(): Heap
      requires Valid()
      reads this, memory, bitmap
    {
      HeapData(base, initialized, Unpack(bitmap[..]), memory[..])
    }

    lemma BaseFixed()
      requires Valid()
      ensures View().base == base
    {
    }

    /** Static storage: zeroed, at an address the linker chose. */
    constructor (address: u32)
      requires 0 < address && address + POOL_SIZE < TWO32
      ensures Valid() && fresh(memory) && fresh(bitmap)
      ensures base == address && !initialized
    {
      base := address;
      memory := new byte[POOL_SIZE](_ => 0);
      bitmap := new bv8[BITMAP_SIZE](_ => 0);
      initialized := false;
    }

    method BitmapSet(bit: u32)
      requires Valid() && bit < TOTAL_BLOCKS
      modifies bitmap
      ensures View() == old(View()).(used := old(View()).used[bit := true])
    {
      hide BitIn, TestBit, WithBit, WithoutBit;
      SetBit(bitmap[..], bit);
      ghost var was := bitmap[..];
      bitmap[bit / 8] := WithBit(bitmap[bit / 8], bit % 8);
      assert bitmap[..] == was[bit / 8 := WithBit(was[bit / 8], bit % 8)];
    }

    method BitmapClear(bit: u32)
      requires Valid() && bit < TOTAL_BLOCKS
      modifies bitmap
      ensures View() == old(View()).(used := old(View()).used[bit := false])
    {
      hide BitIn, TestBit, WithBit, WithoutBit;
      ClearBit(bitmap[..], bit);
      ghost var was := bitmap[..];
      bitmap[bit / 8] := WithoutBit(bitmap[bit / 8], bit % 8);
      assert bitmap[..] == was[bit / 8 := WithoutBit(was[bit / 8], bit % 8)];
    }

    method BitmapTest(bit: u32) returns (r: bool)
      requires Valid() && bit < TOTAL_BLOCKS
      ensures r == View().used[bit]
    {
      r := BitIn(bitmap[bit / 8], bit % 8);
      assert TestBit(bitmap[..], bit) == r;
    }

    method Memset(at: nat, value: byte, count: u32)
      requires Valid() && at + count <= POOL_SIZE
      modifies memory
      ensures memory[..] == Splice(old(memory[..]), at, seq(count, _ => value))
    {
      var i := 0;
      while i < count
        invariant 0 <= i <= count
        invariant forall j :: 0 <= j < POOL_SIZE ==>
                    memory[j] == if at <= j < at + i then value else old(memory[j])
      {
        memory[at + i] := value;
        i := i + 1;
      }
    }

    method Memcpy(dest: nat, src: nat, count: u32)
      requires Valid() && dest + count <= POOL_SIZE && src + count <= POOL_SIZE
      requires src + count <= dest || dest <= src
      modifies memory
      ensures View() == old(View()).(mem := Splice(old(View()).mem, dest, old(View()).mem[src..src + count]))
    {
      hide Unpack, TestBit;
      var i := 0;
      while i < count
        invariant 0 <= i <= count
        invariant memory[dest..dest + i] == old(memory[src..src + i])
        invariant forall j :: 0 <= j < POOL_SIZE && !(dest <= j < dest + i) ==> memory[j] == old(memory[j])
      {
        memory[dest + i] := memory[src + i];
        i := i + 1;
      }
      assert memory[..] == Splice(old(memory[..]), dest, old(memory[..])[src..src + count]);
    }

    method StoreWord(at: nat, w: u32)
      requires Valid() && at + 4 <= POOL_SIZE
      modifies memory
      ensures memory[..] == Splice(old(memory[..]), at, EncodeWord(w))
    {
      memory[at] := w % 256;
      memory[at + 1] := w / 256 % 256;
      memory[at + 2] := w / 65536 % 256;
      memory[at + 3] := w / 16777216;
    }

    method LoadHeader(at: nat) returns (hd: Header)
      requires Valid() && at + HEADER_SIZE <= POOL_SIZE
      ensures hd == HeaderAt(View().mem, at)
    {
      hd := Header(DecodeWord(memory[at..at + 4]), DecodeWord(memory[at + 4..at + 8]),
                   DecodeWord(memory[at + 8..at + 12]), DecodeWord(memory[at + 12..at + 16]));
      assert memory[..][at..at + 4] == memory[at..at + 4];
      assert memory[..][at + 4..at + 8] == memory[at + 4..at + 8];
      assert memory[..][at + 8..at + 12] == memory[at + 8..at + 12];
      assert memory[..][at + 12..at + 16] == memory[at + 12..at + 16];
    }

    method StoreHeader(at: nat, hd: Header)
      requires Valid() && at + HEADER_SIZE <= POOL_SIZE
      modifies memory
      ensures memory[..] == Splice(old(memory[..]), at, EncodeHeader(hd))
    {
      hide EncodeWord, Splice;
      StoreWord(at, hd.magic);
      StoreWord(at + 4, hd.start);
      StoreWord(at + 8, hd.blocks);
      StoreWord(at + 12, hd.size);
      SpliceTwice(old(memory[..]), at, EncodeWord(hd.magic), EncodeWord(hd.start));
      SpliceTwice(old(memory[..]), at, EncodeWord(hd.magic) + EncodeWord(hd.start), EncodeWord(hd.blocks));
      SpliceTwice(old(memory[..]), at, EncodeWord(hd.magic) + EncodeWord(hd.start) + EncodeWord(hd.blocks),
                  EncodeWord(hd.size));
    }

    method KheapInit()
      requires Valid()
      modifies this, memory, bitmap
      ensures View() == AfterInit(old(View()))
    {
      var i := 0;
      while i < BITMAP_SIZE
        invariant 0 <= i <= BITMAP_SIZE
        invariant forall j :: 0 <= j < i ==> bitmap[j] == 0
        modifies bitmap
      {
        bitmap[i] := 0;
        i := i + 1;
      }
      Memset(0, 0, POOL_SIZE);
      initialized := true;
      assert memory[..] == Zeros(POOL_SIZE);
      assert forall j :: 0 <= j < TOTAL_BLOCKS ==> !TestBit(bitmap[..], j);
      assert Unpack(bitmap[..]) == seq(TOTAL_BLOCKS, _ => false);
    }

    /** The inner loop of `kmalloc`: marks the blocks `lo..hi`. */
    method SetRange(lo: u32, hi: u32)
      requires Valid() && lo <= hi <= TOTAL_BLOCKS
      modifies bitmap
      ensures View() == old(View()).(used := Mark(old(View()).used, lo, hi, true))
    {
      hide Unpack;
      var b := lo;
      while b < hi
        invariant lo <= b <= hi
        invariant View() == old(View()).(used := Mark(old(View()).used, lo, b, true))
      {
        BitmapSet(b);
        b := b + 1;
      }
    }

    /** The loop of `kfree`: clears those of the blocks `lo..hi` that exist. */
    method ClearRange(lo: u32, hi: u32)
      requires Valid()
      modifies bitmap
      ensures View() == old(View()).(used := Mark(old(View()).used, lo, hi, false))
    {
      hide Unpack;
      var b := lo;
      while b < hi
        invariant lo <= b && (b <= hi || b == lo)
        invariant View() == old(View()).(used := Mark(old(View()).used, lo, b, false))
      {
        if b < TOTAL_BLOCKS {
          BitmapClear(b);
        }
        b := b + 1;
      }
    }

    /** The one-pass scan of `kmalloc`, up to the block where it stops. */
    method Scan(blocksNeeded: u32) returns (r: Option<nat>)
      requires Valid()
      ensures r == if blocksNeeded == 0 then None else FirstFit(View().used, blocksNeeded, 0)
    {
      hide Unpack, TestBit;
      var consecutiveFree, startBlock := 0, 0;
      var i := 0;
      ghost var used := View().used;
      while i < TOTAL_BLOCKS
        invariant 0 <= consecutiveFree <= i <= TOTAL_BLOCKS
        invariant consecutiveFree > 0 ==> startBlock == i - consecutiveFree
        invariant blocksNeeded > 0 ==> consecutiveFree < blocksNeeded
        invariant forall j :: i - consecutiveFree <= j < i ==> !used[j]
        invariant i > consecutiveFree ==> used[i - consecutiveFree - 1]
        invariant blocksNeeded > 0 ==> forall s: nat :: s + blocksNeeded <= i ==> !FreeRun(used, s, blocksNeeded)
      {
        var taken := BitmapTest(i);
        if !taken {
          if consecutiveFree == 0 {
            startBlock := i;
          }
          consecutiveFree := consecutiveFree + 1;
          if consecutiveFree == blocksNeeded {
            assert FreeRun(used, startBlock, blocksNeeded);
            assert forall s: nat :: s < startBlock ==> !FreeRun(used, s, blocksNeeded);
            return Some(startBlock);
          }
        } else {
          consecutiveFree := 0;
        }
        i := i + 1;
      }
      return None;
    }

    method Kmalloc(size: u32) returns (ptr: u32)
      requires Valid()
      modifies memory, bitmap
      ensures (View(), ptr) == AfterKmalloc(old(View()), size)
    {
      hide EncodeHeader, Unpack, FirstFit;
      if !initialized || size == 0 {
        return NULL;
      }
      var totalNeeded := Wrap(HEADER_SIZE + size);
      var blocksNeeded := Wrap(totalNeeded + BLOCK_SIZE - 1) / BLOCK_SIZE;
      if blocksNeeded > TOTAL_BLOCKS {
        return NULL;
      }
      var found := Scan(blocksNeeded);
      if found.None? {
        return NULL;
      }
      var startBlock := found.value;
      SetRange(startBlock, startBlock + blocksNeeded);
      StoreHeader(startBlock * BLOCK_SIZE, Header(MAGIC, startBlock, blocksNeeded, size));
      return base + startBlock * BLOCK_SIZE + HEADER_SIZE;
    }

    method Kcalloc(num: u32, size: u32) returns (ptr: u32)
      requires Valid() && Honoured(View(), Wrap(num * size))
      modifies memory, bitmap
      ensures (View(), ptr) == AfterKcalloc(old(View()), num, size)
    {
      hide EncodeHeader, Unpack, FirstFit;
      var totalSize := Wrap(num * size);
      ptr := Kmalloc(totalSize);
      if ptr != NULL {
        PlacementFits(old(View()), totalSize);
        Memset(ptr - base, 0, totalSize);
      }
    }

    method Kfree(ptr: u32)
      requires Valid()
      modifies memory, bitmap
      ensures View() == AfterKfree(old(View()), ptr)
    {
      hide HeaderAt, EncodeWord, Unpack;
      if ptr == NULL || !initialized {
        return;
      }
      if ptr < base + HEADER_SIZE || ptr >= base + POOL_SIZE {
        return;
      }
      var at := ptr - base - HEADER_SIZE;
      var header := LoadHeader(at);
      if header.magic != MAGIC {
        return;
      }
      ClearRange(header.start, Wrap(header.start + header.blocks));
      StoreWord(at, 0);
    }

    method Krealloc(ptr: u32, newSize: u32) returns (r: u32)
      requires Valid() && Reallocatable(View(), ptr, newSize)
      modifies memory, bitmap
      ensures (View(), r) == AfterKrealloc(old(View()), ptr, newSize)
    {
      hide HeaderAt, EncodeHeader, Unpack, FirstFit, AfterKfree;
      if ptr == NULL {
        r := Kmalloc(newSize);
        return;
      }
      if newSize == 0 {
        Kfree(ptr);
        return NULL;
      }
      var at := ptr - base - HEADER_SIZE;
      var header := LoadHeader(at);
      if header.magic != MAGIC {
        return NULL;
      }
      var currentCapacity := header.blocks * BLOCK_SIZE - HEADER_SIZE;
      if newSize <= currentCapacity {
        StoreHeader(at, header.(size := newSize));
        return ptr;
      }
      r := Relocate(ptr, newSize);
    }

    /** The growing path of `krealloc`. */
    method Relocate(ptr: u32, newSize: u32) returns (r: u32)
      requires Valid() && ptr != NULL && newSize > 0 && Owned(View(), ptr) && CopyStays(View(), ptr, newSize)
      requires newSize > Capacity(HeaderOf(View(), ptr).blocks)
      modifies memory, bitmap
      ensures (View(), r) == AfterKrealloc(old(View()), ptr, newSize)
    {
      hide HeaderAt, View, AfterKmalloc, AfterKrealloc, AfterTransfer, Transferable;
      r := Kmalloc(newSize);
      if r == NULL {
        GrowRefused(old(View()), ptr, newSize);
      } else {
        GrowPath(old(View()), ptr, newSize, View(), r);
        Transfer(ptr, r, newSize);
      }
    }

    method Transfer(ptr: u32, newPtr: u32, newSize: u32)
      requires Valid() && Transferable(View(), ptr, newPtr, newSize)
      modifies memory, bitmap
      ensures View() == AfterTransfer(old(View()), ptr, newPtr, newSize)
    {
      hide HeaderAt, AfterKfree, View, Splice;
      BaseFixed();
      var header := LoadHeader(ptr - base - HEADER_SIZE);
      var copyBytes := if header.size < newSize then header.size else newSize;
      Memcpy(newPtr - base, ptr - base, copyBytes);
      Kfree(ptr);
    }

    method UsedMemory() returns (bytes: u32)
      requires Valid()
      ensures bytes == BLOCK_SIZE * UsedBlocks(View().used) <= POOL_SIZE
    {
      hide Unpack, TestBit;
      var usedBlocks := 0;
      var i := 0;
      ghost var used := View().used;
      ghost var counted: set<int> := {};
      while i < TOTAL_BLOCKS
        invariant 0 <= usedBlocks <= i <= TOTAL_BLOCKS
        invariant counted == set j | 0 <= j < i && used[j]
        invariant usedBlocks == |counted|
      {
        var taken := BitmapTest(i);
        if taken {
          usedBlocks := usedBlocks + 1;
          counted := counted + {i};
        }
        i := i + 1;
      }
      assert counted == set j | 0 <= j < |used| && used[j];
      bytes := usedBlocks * BLOCK_SIZE;
    }

    method FreeMemory() returns (bytes: u32)
      requires Valid()
      ensures bytes + BLOCK_SIZE * UsedBlocks(View().used) == POOL_SIZE
    {
      var used := UsedMemory();
      bytes := POOL_SIZE - used;
    }

    /** Any legal run of calls and client writes, carried out on the arrays, is the run of the
        model: the theorems about runs are theorems about this memory. Every pointer returned on
        the way is held from then on, with the size asked for. */
    method Replay(calls: seq<HeapRuns.Call>, ghost w: HeapRuns.World) returns (answers: seq<u32>)
      requires Valid() && View() == w.heap && HeapRuns.Inv(w) && HeapRuns.LegalRun(w, calls)
      modifies memory, bitmap
      ensures View() == HeapRuns.Run(w, calls).heap && HeapRuns.Inv(HeapRuns.Run(w, calls))
      ensures |answers| == |calls|
      ensures forall i :: 0 <= i < |calls| ==>
                HeapAnswers.Fits(HeapRuns.Run(w, calls[..i]), calls[i], answers[i])
    {
      hide HeapRuns.Inv, HeapRuns.Legal, HeapRuns.Step, HeapAnswers.Fits;
      ghost var now := w;
      var i := 0;
      answers := [];
      assert calls[0..] == calls && calls[..0] == [];
      while i < |calls|
        invariant 0 <= i <= |calls|
        invariant View() == now.heap && HeapRuns.Inv(now)
        invariant HeapRuns.LegalRun(now, calls[i..])
        invariant now == HeapRuns.Run(w, calls[..i])
        invariant |answers| == i
        invariant forall j :: 0 <= j < i ==> HeapAnswers.Fits(HeapRuns.Run(w, calls[..j]), calls[j], answers[j])
      {
        assert calls[i..][1..] == calls[i + 1..];
        HeapAnswers.RunExtends(w, calls, i);
        HeapRuns.StepKeepsInv(now, calls[i]);
        HeapAnswers.AnswerIsHeld(now, calls[i]);
        var q := Perform(calls[i], now);
        now := HeapRuns.Step(now, calls[i]);
        answers := answers + [q];
        i := i + 1;
      }
      assert calls[..i] == calls;
    }

    /** One call of a run. */
    method Perform(c: HeapRuns.Call, ghost w: HeapRuns.World) returns (q: u32)
      requires Valid() && View() == w.heap && HeapRuns.Defined(w, c)
      modifies memory, bitmap
      ensures View() == HeapRuns.Step(w, c).heap && q == HeapAnswers.Answer(w, c)
    {
      hide Unpack, AfterKmalloc, AfterKcalloc, AfterKrealloc, AfterKfree, HeapRuns.Held, HeapRuns.Resized;
      q := NULL;
      match c
      case Malloc(size) => q := Kmalloc(size);
      case Calloc(num, elem) => q := Kcalloc(num, elem);
      case Realloc(p, size) => q := Krealloc(p, size);
      case Free(p) => Kfree(p);
      case Write(s, k, v) =>
        memory[s * BLOCK_SIZE + HEADER_SIZE + k] := v;
    }

    /** The kernel's boot-time check: allocate 128 bytes, write a message, free. Whatever the heap
        held before, its bitmap comes back byte for byte; the message was stored in the block
        handed out, which is the first of five free ones, and stays there. */
    method SelfTest(message: seq<byte>) returns (ptr: u32)
      requires Valid() && |message| < 128
      modifies memory, bitmap
      ensures bitmap[..] == old(bitmap[..]) && HeapAnswers.FirstFitAnswer(old(View()), 128, ptr)
      ensures ptr == 0 ==> memory[..] == old(memory[..])
      ensures ptr != 0 ==>
                var at := ptr - base;
                0 <= at <= POOL_SIZE - 128 && memory[at..at + |message| + 1] == message + [0]
    {
      hide AfterKmalloc, AfterKfree, Unpack, Placement, HeapAnswers.FirstFitAnswer;
      ptr := Kmalloc(128);
      KmallocPayload(old(View()), 128);
      HeapAnswers.KmallocAnswers(old(View()), 128);
      if ptr != NULL {
        WriteText(ptr - base, message);
        HeapLaws.WrittenFreeRestores(old(View()), 128, memory[..]);
        ghost var h2 := View();
        Kfree(ptr);
        KfreeSparesText(h2, ptr, message + [0]);
      }
      UnpackInjective(bitmap[..], old(bitmap[..]));
    }

    /** Stores a text and its terminating NUL. */
    method WriteText(at: nat, text: seq<byte>)
      requires Valid() && at + |text| < POOL_SIZE
      modifies memory
      ensures View() == old(View()).(mem := Splice(old(View()).mem, at, text + [0]))
    {
      hide Unpack;
      var i := 0;
      while i < |text|
        invariant 0 <= i <= |text|
        invariant forall j :: 0 <= j < POOL_SIZE ==>
                    memory[j] == if at <= j < at + i then text[j - at] else old(memory[j])
      {
        memory[at + i] := text[i];
        i := i + 1;
      }
      memory[at + |text|] := NUL;
      assert memory[..] == Splice(old(memory[..]), at, text + [0]);
    }

    /** `kfree` changes nothing stored at its pointer. */
    static lemma KfreeSparesText(h: Heap, p: u32, text: seq<byte>)
      requires 0 <= p - h.base <= p - h.base + |text| <= POOL_SIZE
      requires forall i :: 0 <= i < |text| ==> h.mem[p - h.base + i] == text[i]
      ensures AfterKfree(h, p).mem[p - h.base..p - h.base + |text|] == text
    {
    }
  }
}
