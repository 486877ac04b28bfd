/** The kernel's paging setup: static directories, tables and frames filled in place. */
module Paging {
  import opened Words
  import opened PageTables

  class Unit {
    const layout: Layout
    const bootDir: array<u32>
    const bootTable: array<u32>
    const userDir: array<u32>
    const codeTable: array<u32>
    const stackTable: array<u32>
    /** The 16 code pages, which C lays out contiguously. */
    const codePages: array<byte>
    const stackPage: array<byte>
    var cr3: u32

    ghost predicate Valid() {
      && bootDir.Length == bootTable.Length == userDir.Length == codeTable.Length == stackTable.Length == ENTRIES
      && codePages.Length == CODE_BYTES && stackPage.Length == PAGE
      && codePages != stackPage
      && bootDir !in {bootTable, userDir, codeTable, stackTable}
      && bootTable !in {userDir, codeTable, stackTable}
      && userDir !in {codeTable, stackTable}
      && codeTable != stackTable
      && Sane(layout)
    }

    ghost function View(): Machine
      requires Valid()
      reads this, bootDir, bootTable, userDir, codeTable, stackTable, codePages, stackPage
    {
      MachineData(layout, bootDir[..], bootTable[..], userDir[..], codeTable[..], stackTable[..],
                  codePages[..], stackPage[..], cr3)
    }

    /** The memory image at boot: the loader's tables, and zeroed frames. */
    constructor (l: Layout)
      requires Sane(l)
      ensures Valid() && layout == l && Booted(View()) && cr3 == Phys(l.bootDir)
      ensures fresh(bootDir) && fresh(bootTable) && fresh(userDir) && fresh(codeTable) && fresh(stackTable)
      ensures fresh(codePages) && fresh(stackPage)
    {
      SanePhys(l);
      assert Tables(l)[1] == l.bootTable;
      var entry := Entry(Phys(l.bootTable), KERNEL_PAGE);
      layout := l;
      bootDir := new u32[ENTRIES](i => if i == 0 || i == 768 then entry else 0);
      bootTable := new u32[ENTRIES](i requires 0 <= i < ENTRIES => Entry(i * PAGE, KERNEL_PAGE));
      userDir := new u32[ENTRIES](_ => 0);
      codeTable := new u32[ENTRIES](_ => 0);
      stackTable := new u32[ENTRIES](_ => 0);
      codePages := new byte[CODE_BYTES](_ => 0);
      stackPage := new byte[PAGE](_ => 0);
      cr3 := Phys(l.bootDir);
    }

    /** Both kernel entries of the boot directory name the boot table, supervisor only. */
    method PagingInit()
      requires Valid()
      modifies bootDir
      ensures View() == AfterPagingInit(old(View()))
    {
      SanePhys(layout);
      var ptPhys := Phys(layout.bootTable);
      bootDir[0] := Entry(ptPhys, KERNEL_PAGE);
      bootDir[768] := Entry(ptPhys, KERNEL_PAGE);
    }

    method ClearTables()
      requires Valid()
      modifies userDir, codeTable, stackTable
      ensures forall i :: 0 <= i < ENTRIES ==> userDir[i] == codeTable[i] == stackTable[i] == 0
    {
      var i := 0;
      while i < ENTRIES
        invariant 0 <= i <= ENTRIES
        invariant forall j :: 0 <= j < i ==> userDir[j] == codeTable[j] == stackTable[j] == 0
      {
        userDir[i] := 0;
        codeTable[i] := 0;
        stackTable[i] := 0;
        i := i + 1;
      }
    }

    method ClearFrames()
      requires Valid()
      modifies codePages, stackPage
      ensures forall k :: 0 <= k < CODE_BYTES ==> codePages[k] == 0
      ensures stackPage[..] == Zeros(PAGE)
    {
      var p := 0;
      while p < CODE_PAGES
        invariant 0 <= p <= CODE_PAGES
        invariant forall k :: 0 <= k < p * PAGE ==> codePages[k] == 0
      {
        var i := 0;
        while i < PAGE
          invariant 0 <= i <= PAGE
          invariant forall k :: 0 <= k < p * PAGE + i ==> codePages[k] == 0
        {
          codePages[p * PAGE + i] := 0;
          i := i + 1;
        }
        p := p + 1;
      }
      var i := 0;
      while i < PAGE
        invariant 0 <= i <= PAGE
        invariant forall k :: 0 <= k < CODE_BYTES ==> codePages[k] == 0
        invariant forall k :: 0 <= k < i ==> stackPage[k] == 0
      {
        stackPage[i] := 0;
        i := i + 1;
      }
    }

    /** Copies the image page by page and maps each page. `src` is the module's memory. */
    method CopyImage(src: seq<byte>, size: u32)
      requires Valid() && Min(size, CODE_BYTES) <= |src|
      requires forall k :: 0 <= k < CODE_BYTES ==> codePages[k] == 0
      requires forall i :: 0 <= i < ENTRIES ==> codeTable[i] == 0
      modifies codePages, codeTable
      ensures codePages[..] == Loaded(src, size)
      ensures forall i :: 0 <= i < ENTRIES ==> codeTable[i] == CodePte(layout, i)
    {
      SanePhys(layout);
      hide Sane, Phys;
      var p := 0;
      while p < CODE_PAGES
        invariant 0 <= p <= CODE_PAGES
        invariant forall k :: 0 <= k < CODE_BYTES ==> codePages[k] == if k < p * PAGE && k < size then src[k] else 0
        invariant forall i :: 0 <= i < ENTRIES ==> codeTable[i] == if i < p then CodePte(layout, i) else 0
      {
        var offset := p * PAGE;
        if offset < size {
          var toCopy := PAGE;
          if offset + toCopy > size {
            toCopy := size - offset;
          }
          var i := 0;
          while i < toCopy
            invariant 0 <= i <= toCopy
            invariant forall k :: 0 <= k < CODE_BYTES ==> codePages[k] == if k < offset + i && k < size then src[k] else 0
            modifies codePages
          {
            codePages[offset + i] := src[offset + i];
            i := i + 1;
          }
        }
        codeTable[p] := Entry(Phys(layout.codePages) + p * PAGE, USER_PAGE);
        p := p + 1;
      }
    }

    method SetupUserProcess(src: seq<byte>, size: u32)
      requires Valid() && Min(size, CODE_BYTES) <= |src|
      modifies this, userDir, codeTable, stackTable, codePages, stackPage
      ensures View() == AfterSetup(old(View()), src, size)
    {
      SanePhys(layout);
      hide Sane, Phys, Entry;
      ClearTables();
      ClearFrames();
      CopyImage(src, size);
      userDir[0] := Entry(Phys(layout.codeTable), USER_PAGE);
      stackTable[ENTRIES - 1] := Entry(Phys(layout.stackPage), USER_PAGE);
      userDir[767] := Entry(Phys(layout.stackTable), USER_PAGE);
      userDir[768] := bootDir[768];
      cr3 := Phys(layout.userDir);
      assert userDir[..] == AfterSetup(old(View()), src, size).userDir;
      assert codeTable[..] == AfterSetup(old(View()), src, size).codeTable;
      assert stackTable[..] == AfterSetup(old(View()), src, size).stackTable;
    }
  }
}
