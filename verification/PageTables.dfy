/** Two-level paging as a value: the kernel's static tables and frames, the processor's walk
    (Intel SDM volume 3A, section 4.3 "32-Bit Paging" and section 4.6 "Access Rights"), and
    what every address means once a user process is set up. */
module PageTables {
  import opened Words

  const PAGE: nat := 4096
  const ENTRIES: nat := 1024
  const KERNEL_BASE: u32 := 0xC0000000
  const KERNEL_SPAN: nat := 0x400000
  const CODE_PAGES: nat := 16
  const CODE_BYTES: nat := 65536

  const KERNEL_PAGE: nat := 3
  const USER_PAGE: nat := 7

  /** Linked (virtual) addresses of the static structures. */
  datatype Layout = Layout(bootDir: u32, bootTable: u32, userDir: u32, codeTable: u32,
                           stackTable: u32, codePages: u32, stackPage: u32)

  /** `VIRTUAL_TO_PHYSICAL`. */
  function Phys(a: u32): u32 {
    Wrap(a - KERNEL_BASE)
  }

  /** `n` whole pages inside the 4 MB the kernel maps. */
  predicate InKernel(a: u32, n: nat) {
    a % PAGE == 0 && KERNEL_BASE <= a && a + n * PAGE <= KERNEL_BASE + KERNEL_SPAN
  }

  predicate Apart(a: u32, n: nat, b: u32, m: nat) {
    a + n * PAGE <= b || b + m * PAGE <= a
  }

  /** The five tables, in a fixed order. */
  function Tables(l: Layout): seq<u32> {
    [l.bootDir, l.bootTable, l.userDir, l.codeTable, l.stackTable]
  }

  /** Page-aligned, inside the kernel's 4 MB, and nothing shares a page. */
  ghost predicate Sane(l: Layout) {
    && (forall i :: 0 <= i < 5 ==> InKernel(Tables(l)[i], 1))
    && InKernel(l.codePages, CODE_PAGES) && InKernel(l.stackPage, 1)
    && (forall i, j :: 0 <= i < j < 5 ==> Tables(l)[i] != Tables(l)[j])
    && (forall i :: 0 <= i < 5 ==> Apart(Tables(l)[i], 1, l.codePages, CODE_PAGES))
    && (forall i :: 0 <= i < 5 ==> Tables(l)[i] != l.stackPage)
    && Apart(l.stackPage, 1, l.codePages, CODE_PAGES)
  }

  datatype MachineData = MachineData(
    layout: Layout,
    bootDir: seq<u32>, bootTable: seq<u32>, userDir: seq<u32>, codeTable: seq<u32>, stackTable: seq<u32>,
    code: seq<byte>, stack: seq<byte>,
    cr3: u32)

  predicate Shaped(m: MachineData) {
    && |m.bootDir| == |m.bootTable| == |m.userDir| == |m.codeTable| == |m.stackTable| == ENTRIES
    && |m.code| == CODE_BYTES && |m.stack| == PAGE
  }

  type Machine = m: MachineData | Shaped(m)
    witness MachineData(Layout(0, 0, 0, 0, 0, 0, 0),
                        seq(ENTRIES, _ => 0), seq(ENTRIES, _ => 0), seq(ENTRIES, _ => 0), seq(ENTRIES, _ => 0),
                        seq(ENTRIES, _ => 0), seq(CODE_BYTES, _ => 0), seq(PAGE, _ => 0), 0)

  /** An entry for a page-aligned frame; the low bits being zero, C's `|` adds the flags. */
  function Entry(frame: u32, flags: nat): u32
    requires frame % PAGE == 0 && flags < PAGE
  {
    frame + flags
  }

  lemma OrAddsFlags(frame: bv32, flags: bv32)
    requires frame & 0xFFF == 0 && flags <= 7
    ensures frame | flags == frame + flags
  {
  }

  // ------------------------------------------------------------------------ the walk

  predicate Present(e: u32) { e % 2 == 1 }
  predicate Writable(e: u32) { e / 2 % 2 == 1 }
  predicate UserOk(e: u32) { e / 4 % 2 == 1 }
  function FrameOf(e: u32): u32 { e - e % PAGE }

  /** The table stored at a physical page, if it is one of the five. */
  function TableAt(m: Machine, p: u32): (t: Option<seq<u32>>)
    ensures t.Some? ==> |t.value| == ENTRIES
  {
    if p == Phys(m.layout.bootDir) then Some(m.bootDir)
    else if p == Phys(m.layout.bootTable) then Some(m.bootTable)
    else if p == Phys(m.layout.userDir) then Some(m.userDir)
    else if p == Phys(m.layout.codeTable) then Some(m.codeTable)
    else if p == Phys(m.layout.stackTable) then Some(m.stackTable)
    else None
  }

  /** The kernel leaves CR0.WP and CR4.PSE clear: the supervisor may write any present page, and
      every directory entry names a table. */
  predicate Allowed(e: u32, user: bool, write: bool) {
    Present(e) && (user ==> UserOk(e) && (write ==> Writable(e)))
  }

  /** The physical address of `v`, or None for a page fault. */
  function Walk(m: Machine, v: u32, user: bool, write: bool): Option<u32> {
    match TableAt(m, FrameOf(m.cr3))
    case None => None
    case Some(dir) =>
      var pde := dir[v / KERNEL_SPAN];
      if !Allowed(pde, user, write) then None
      else match TableAt(m, FrameOf(pde))
        case None => None
        case Some(table) =>
          var pte := table[v / PAGE % ENTRIES];
          if !Allowed(pte, user, write) then None else Some(Wrap(FrameOf(pte) + v % PAGE))
  }

  // ----------------------------------------------------------------------- the setup

  /** The tables as the loader links them and `paging_init` leaves them. */
  predicate Booted(m: Machine) {
    && InKernel(m.layout.bootTable, 1)
    && m.bootDir[0] == m.bootDir[768] == Entry(Phys(m.layout.bootTable), KERNEL_PAGE)
    && (forall i :: 0 <= i < ENTRIES && i != 0 && i != 768 ==> m.bootDir[i] == 0)
    && forall i :: 0 <= i < ENTRIES ==> m.bootTable[i] == Entry(i * PAGE, KERNEL_PAGE)
  }

  function AfterPagingInit(m: Machine): Machine
    requires Sane(m.layout)
  {
    SanePhys(m.layout);
    var entry := Entry(Phys(m.layout.bootTable), KERNEL_PAGE);
    m.(bootDir := m.bootDir[0 := entry][768 := entry])
  }

  /** Whatever the two kernel entries were, `paging_init` makes them what the loader linked. */
  lemma InitBoots(m: Machine, d0: u32, d768: u32)
    requires Sane(m.layout) && Booted(m)
    ensures AfterPagingInit(m.(bootDir := m.bootDir[0 := d0][768 := d768])) == m
  {
  }

  /** Entry `i` of the user process's directory, given the kernel's entry. */
  function UserPde(l: Layout, kernel: u32, i: int): u32
    requires Phys(l.codeTable) % PAGE == 0 && Phys(l.stackTable) % PAGE == 0
  {
    if i == 0 then Entry(Phys(l.codeTable), USER_PAGE)
    else if i == 767 then Entry(Phys(l.stackTable), USER_PAGE)
    else if i == 768 then kernel
    else 0
  }

  function CodePte(l: Layout, i: int): u32
    requires InKernel(l.codePages, CODE_PAGES)
  {
    if 0 <= i < CODE_PAGES then Entry(Phys(l.codePages) + i * PAGE, USER_PAGE) else 0
  }

  function StackPte(l: Layout, i: int): u32
    requires Phys(l.stackPage) % PAGE == 0
  {
    if i == ENTRIES - 1 then Entry(Phys(l.stackPage), USER_PAGE) else 0
  }

  /** The image, cut at 64 KB, padded with zeros. */
  function Loaded(image: seq<byte>, size: nat): (r: seq<byte>)
    requires Min(size, CODE_BYTES) <= |image|
    ensures |r| == CODE_BYTES
  {
    seq(CODE_BYTES, k requires 0 <= k < CODE_BYTES => if k < size then image[k] else 0)
  }

  function AfterSetup(m: Machine, image: seq<byte>, size: u32): Machine
    requires Sane(m.layout) && Min(size, CODE_BYTES) <= |image|
  {
    var l := m.layout;
    SanePhys(l);
    m.(userDir := seq(ENTRIES, i => UserPde(l, m.bootDir[768], i)),
       codeTable := seq(ENTRIES, i => CodePte(l, i)),
       stackTable := seq(ENTRIES, i => StackPte(l, i)),
       code := Loaded(image, size),
       stack := Zeros(PAGE),
       cr3 := Phys(l.userDir))
  }

  lemma SanePhys(l: Layout)
    requires Sane(l)
    ensures Phys(l.bootDir) % PAGE == 0 && Phys(l.bootTable) % PAGE == 0 && Phys(l.userDir) % PAGE == 0
    ensures Phys(l.codeTable) % PAGE == 0 && Phys(l.stackTable) % PAGE == 0
    ensures Phys(l.codePages) == l.codePages - KERNEL_BASE && Phys(l.codePages) % PAGE == 0
    ensures Phys(l.stackPage) == l.stackPage - KERNEL_BASE && Phys(l.stackPage) % PAGE == 0
    ensures forall i :: 0 <= i < 5 ==> Phys(Tables(l)[i]) == Tables(l)[i] - KERNEL_BASE
  {
    hide Phys, Apart, InKernel;
    assert Tables(l)[0] == l.bootDir && Tables(l)[1] == l.bootTable && Tables(l)[2] == l.userDir;
    assert Tables(l)[3] == l.codeTable && Tables(l)[4] == l.stackTable;
    forall i | 0 <= i < 5
      ensures Phys(Tables(l)[i]) == Tables(l)[i] - KERNEL_BASE && Phys(Tables(l)[i]) % PAGE == 0
    {
      KernelPhys(Tables(l)[i], 1);
    }
    KernelPhys(l.codePages, CODE_PAGES);
    KernelPhys(l.stackPage, 1);
  }

  lemma KernelPhys(a: u32, n: nat)
    requires InKernel(a, n)
    ensures Phys(a) == a - KERNEL_BASE && Phys(a) % PAGE == 0
  {
  }

  lemma FoundTables(m: Machine)
    requires Sane(m.layout)
    ensures TableAt(m, Phys(m.layout.bootDir)) == Some(m.bootDir)
    ensures TableAt(m, Phys(m.layout.bootTable)) == Some(m.bootTable)
    ensures TableAt(m, Phys(m.layout.userDir)) == Some(m.userDir)
    ensures TableAt(m, Phys(m.layout.codeTable)) == Some(m.codeTable)
    ensures TableAt(m, Phys(m.layout.stackTable)) == Some(m.stackTable)
  {
    var l := m.layout;
    SanePhys(l);
    assert Tables(l)[0] == l.bootDir && Tables(l)[1] == l.bootTable && Tables(l)[2] == l.userDir;
    assert Tables(l)[3] == l.codeTable && Tables(l)[4] == l.stackTable;
  }

  lemma EntryFields(frame: u32, flags: nat)
    requires frame % PAGE == 0 && flags < 8
    ensures FrameOf(Entry(frame, flags)) == frame
    ensures Present(Entry(frame, flags)) <==> flags % 2 == 1
    ensures Writable(Entry(frame, flags)) <==> flags / 2 % 2 == 1
    ensures UserOk(Entry(frame, flags)) <==> flags / 4 % 2 == 1
  {
    LowBits(frame / PAGE, flags);
  }

  lemma LowBits(q: nat, flags: nat)
    requires flags < 8
    ensures (PAGE * q + flags) % PAGE == flags
    ensures (PAGE * q + flags) % 2 == flags % 2
    ensures (PAGE * q + flags) / 2 % 2 == flags / 2 % 2
    ensures (PAGE * q + flags) / 4 % 2 == flags / 4 % 2
  {
    assert (PAGE * q + flags) / 2 == 2048 * q + flags / 2;
    assert (PAGE * q + flags) / 4 == 1024 * q + flags / 4;
    Even(1024 * q, flags / 2);
    Even(512 * q, flags / 4);
  }

  lemma Even(k: nat, r: nat)
    ensures (2 * k + r) % 2 == r % 2
  {
  }

  // ------------------------------------------------------------ what addresses mean

  /** The intended map of a user process: 64 KB of code and data at 0, one stack page below
      the kernel, and the kernel's 4 MB for the supervisor only. */
  function Target(l: Layout, v: u32, user: bool): Option<u32> {
    if v < CODE_BYTES then Some(Wrap(Phys(l.codePages) + v))
    else if KERNEL_BASE - PAGE <= v < KERNEL_BASE then Some(Wrap(Phys(l.stackPage) + v % PAGE))
    else if !user && KERNEL_BASE <= v < KERNEL_BASE + KERNEL_SPAN then Some(v - KERNEL_BASE)
    else None
  }

  /** A walk through directory entry `pde` for the table `t` is decided by its entry. */
  lemma WalkThrough(m: Machine, v: u32, user: bool, write: bool, dir: seq<u32>, t: seq<u32>, pde: u32)
    requires TableAt(m, FrameOf(m.cr3)) == Some(dir) && |dir| == |t| == ENTRIES
    requires dir[v / KERNEL_SPAN] == pde && TableAt(m, FrameOf(pde)) == Some(t)
    ensures Walk(m, v, user, write) ==
            var pte := t[v / PAGE % ENTRIES];
            if Allowed(pde, user, write) && Allowed(pte, user, write) then Some(Wrap(FrameOf(pte) + v % PAGE)) else None
  {
  }

  lemma Indices(v: u32)
    ensures v == v / KERNEL_SPAN * KERNEL_SPAN + v / PAGE % ENTRIES * PAGE + v % PAGE
  {
  }

  /** After setup, every one of the 2^32 addresses translates exactly as intended, in user and
      in supervisor mode, for reads and for writes. */
  lemma EveryAddress(m: Machine, image: seq<byte>, size: u32, v: u32, user: bool, write: bool)
    requires Sane(m.layout) && Booted(m) && Min(size, CODE_BYTES) <= |image|
    ensures Walk(AfterSetup(m, image, size), v, user, write) == Target(m.layout, v, user)
  {
    hide Sane, Walk, TableAt, FrameOf, Present, Writable, UserOk, Phys;
    var l, m' := m.layout, AfterSetup(m, image, size);
    SanePhys(l);
    FoundTables(m');
    EntryFields(Phys(l.userDir), 0);
    EntryFields(0, 0);
    Indices(v);
    var d, t := v / KERNEL_SPAN, v / PAGE % ENTRIES;
    assert FrameOf(m'.cr3) == Phys(l.userDir);
    if d == 0 {
      EntryFields(Phys(l.codeTable), USER_PAGE);
      WalkThrough(m', v, user, write, m'.userDir, m'.codeTable, Entry(Phys(l.codeTable), USER_PAGE));
      if t < CODE_PAGES {
        EntryFields(Phys(l.codePages) + t * PAGE, USER_PAGE);
      }
    } else if d == 767 {
      EntryFields(Phys(l.stackTable), USER_PAGE);
      WalkThrough(m', v, user, write, m'.userDir, m'.stackTable, Entry(Phys(l.stackTable), USER_PAGE));
      EntryFields(Phys(l.stackPage), USER_PAGE);
    } else if d == 768 {
      EntryFields(Phys(l.bootTable), KERNEL_PAGE);
      WalkThrough(m', v, user, write, m'.userDir, m'.bootTable, Entry(Phys(l.bootTable), KERNEL_PAGE));
      EntryFields(t * PAGE, KERNEL_PAGE);
    } else {
      NoEntry(m', v, user, write, m'.userDir);
    }
  }

  lemma NoEntry(m: Machine, v: u32, user: bool, write: bool, dir: seq<u32>)
    requires TableAt(m, FrameOf(m.cr3)) == Some(dir) && |dir| == ENTRIES && !Present(dir[v / KERNEL_SPAN])
    ensures Walk(m, v, user, write) == None
  {
  }

  lemma UserTarget(l: Layout, v: u32)
    requires Sane(l)
    ensures v < CODE_BYTES ==> Target(l, v, true) == Some(Phys(l.codePages) + v) && InCode(l, Phys(l.codePages) + v)
    ensures KERNEL_BASE - PAGE <= v < KERNEL_BASE ==>
              Target(l, v, true) == Some(Phys(l.stackPage) + v % PAGE) && InStack(l, Phys(l.stackPage) + v % PAGE)
  {
  }

  lemma FramesApart(l: Layout, p: u32)
    requires Sane(l)
    ensures !(InCode(l, p) && InStack(l, p))
    ensures InCode(l, p) || InStack(l, p) ==> forall i :: 0 <= i < 5 ==> !Hits(Tables(l)[i], p)
  {
  }

  lemma TargetReach(l: Layout, v: u32, w: u32)
    requires Sane(l)
    ensures Target(l, v, true).Some? <==> v < CODE_BYTES || KERNEL_BASE - PAGE <= v < KERNEL_BASE
    ensures Target(l, v, true).Some? && Target(l, v, true) == Target(l, w, true) ==> v == w
    ensures Target(l, v, true).Some? ==>
              var p := Target(l, v, true).value;
              && (InCode(l, p) <==> v < CODE_BYTES) && (InStack(l, p) <==> v >= CODE_BYTES)
              && forall i :: 0 <= i < 5 ==> !Hits(Tables(l)[i], p)
  {
    hide Sane, Phys;
    UserTarget(l, v);
    UserTarget(l, w);
    if Target(l, v, true).Some? {
      FramesApart(l, Target(l, v, true).value);
    }
  }

  /** After setup, the addresses a user may access are exactly the 64 KB at 0 and the stack page;
      distinct ones reach distinct bytes; and all of those lie in the code frames or the stack
      frame, so in none of the five tables. */
  lemma UserReach(m: Machine, image: seq<byte>, size: u32, v: u32, w: u32, write: bool)
    requires Sane(m.layout) && Booted(m) && Min(size, CODE_BYTES) <= |image|
    ensures var l, m' := m.layout, AfterSetup(m, image, size);
            var a, b := Walk(m', v, true, write), Walk(m', w, true, write);
            && (a.Some? <==> v < CODE_BYTES || KERNEL_BASE - PAGE <= v < KERNEL_BASE)
            && (a.Some? && a == b ==> v == w)
            && (a.Some? ==> (InCode(l, a.value) <==> v < CODE_BYTES) && (InStack(l, a.value) <==> v >= CODE_BYTES))
            && (a.Some? ==> forall i :: 0 <= i < 5 ==> !Hits(Tables(l)[i], a.value))
  {
    hide Walk, Target, Sane, AfterSetup, Tables;
    EveryAddress(m, image, size, v, true, write);
    EveryAddress(m, image, size, w, true, write);
    TargetReach(m.layout, v, w);
  }

  predicate Hits(a: u32, p: u32) {
    Phys(a) <= p < Phys(a) + PAGE
  }

  predicate InCode(l: Layout, p: u32) {
    Phys(l.codePages) <= p < Phys(l.codePages) + CODE_BYTES
  }

  predicate InStack(l: Layout, p: u32) {
    Phys(l.stackPage) <= p < Phys(l.stackPage) + PAGE
  }

  /** Under the boot directory the supervisor sees the low 4 MB twice and users see nothing. */
  lemma BootAddress(m: Machine, v: u32, user: bool, write: bool)
    requires Sane(m.layout) && Booted(m) && m.cr3 == Phys(m.layout.bootDir)
    ensures Walk(m, v, user, write) ==
            if user then None
            else if v < KERNEL_SPAN then Some(v)
            else if KERNEL_BASE <= v < KERNEL_BASE + KERNEL_SPAN then Some(v - KERNEL_BASE)
            else None
  {
    hide Sane, Walk, TableAt, FrameOf, Present, Writable, UserOk, Phys;
    var l := m.layout;
    SanePhys(l);
    FoundTables(m);
    EntryFields(Phys(l.bootDir), 0);
    EntryFields(0, 0);
    Indices(v);
    var d, t := v / KERNEL_SPAN, v / PAGE % ENTRIES;
    if d == 0 || d == 768 {
      EntryFields(Phys(l.bootTable), KERNEL_PAGE);
      WalkThrough(m, v, user, write, m.bootDir, m.bootTable, Entry(Phys(l.bootTable), KERNEL_PAGE));
      EntryFields(t * PAGE, KERNEL_PAGE);
    } else {
      NoEntry(m, v, user, write, m.bootDir);
    }
  }

  /** Entries in use are present and writable, for users in the process's tables and for the
      supervisor alone in the kernel's; so the maps would be the same with CR0.WP set. */
  predicate InUse(e: u32, user: bool) {
    Present(e) && Writable(e) && (UserOk(e) <==> user)
  }

  lemma EntriesInUse(m: Machine, image: seq<byte>, size: u32, i: nat)
    requires Sane(m.layout) && Booted(m) && Min(size, CODE_BYTES) <= |image| && i < ENTRIES
    ensures var m' := AfterSetup(m, image, size);
            && (if i == 0 || i == 767 then InUse(m'.userDir[i], true)
                else if i == 768 then InUse(m'.userDir[i], false) else m'.userDir[i] == 0)
            && (if i < 16 then InUse(m'.codeTable[i], true) else m'.codeTable[i] == 0)
            && (if i == 1023 then InUse(m'.stackTable[i], true) else m'.stackTable[i] == 0)
            && (if i == 0 || i == 768 then InUse(m'.bootDir[i], false) else m'.bootDir[i] == 0)
            && InUse(m'.bootTable[i], false)
  {
    hide Sane, Phys, Present, Writable, UserOk, FrameOf;
    var l := m.layout;
    SanePhys(l);
    EntryFields(Phys(l.codeTable), USER_PAGE);
    EntryFields(Phys(l.stackTable), USER_PAGE);
    EntryFields(Phys(l.stackPage), USER_PAGE);
    EntryFields(Phys(l.bootTable), KERNEL_PAGE);
    EntryFields(i * PAGE, KERNEL_PAGE);
    if i < CODE_PAGES {
      EntryFields(Phys(l.codePages) + i * PAGE, USER_PAGE);
    }
  }

  /** Kernel addresses keep their supervisor-only translation across the directory switch. */
  lemma KernelSurvivesSwitch(m: Machine, image: seq<byte>, size: u32, v: u32, user: bool, write: bool)
    requires Sane(m.layout) && Booted(m) && m.cr3 == Phys(m.layout.bootDir)
    requires Min(size, CODE_BYTES) <= |image| && KERNEL_BASE <= v < KERNEL_BASE + KERNEL_SPAN
    ensures Walk(AfterSetup(m, image, size), v, user, write) == Walk(m, v, user, write)
            == if user then None else Some(v - KERNEL_BASE)
  {
    EveryAddress(m, image, size, v, user, write);
    BootAddress(m, v, user, write);
  }

  // ------------------------------------------------------------- a user process runs

  /** The byte at a physical address in a user frame. */
  function LoadPhys(m: Machine, p: u32): Option<byte> {
    var c, k := Phys(m.layout.codePages), Phys(m.layout.stackPage);
    if c <= p < c + CODE_BYTES then Some(m.code[p - c])
    else if k <= p < k + PAGE then Some(m.stack[p - k])
    else None
  }

  function UserLoad(m: Machine, v: u32): Option<byte> {
    match Walk(m, v, true, false)
    case None => None
    case Some(p) => LoadPhys(m, p)
  }

  /** `t` after byte `k` of its page is overwritten. */
  function Poked(t: seq<u32>, k: nat, b: byte): seq<u32>
    requires |t| == ENTRIES && k < PAGE
  {
    t[k / 4 := DecodeWord(EncodeWord(t[k / 4])[k % 4 := b])]
  }

  /** A store to physical memory, tables included. */
  function StorePhys(m: Machine, p: u32, b: byte): Machine {
    var l := m.layout;
    if Hits(l.bootDir, p) then m.(bootDir := Poked(m.bootDir, p - Phys(l.bootDir), b))
    else if Hits(l.bootTable, p) then m.(bootTable := Poked(m.bootTable, p - Phys(l.bootTable), b))
    else if Hits(l.userDir, p) then m.(userDir := Poked(m.userDir, p - Phys(l.userDir), b))
    else if Hits(l.codeTable, p) then m.(codeTable := Poked(m.codeTable, p - Phys(l.codeTable), b))
    else if Hits(l.stackTable, p) then m.(stackTable := Poked(m.stackTable, p - Phys(l.stackTable), b))
    else if InCode(l, p) then m.(code := m.code[p - Phys(l.codePages) := b])
    else if InStack(l, p) then m.(stack := m.stack[p - Phys(l.stackPage) := b])
    else m
  }

  datatype Store = Store(v: u32, b: byte)

  function UserStore(m: Machine, s: Store): Machine {
    match Walk(m, s.v, true, true)
    case None => m
    case Some(p) => StorePhys(m, p, s.b)
  }

  function UserRun(m: Machine, stores: seq<Store>): Machine
    decreases |stores|
  {
    if stores == [] then m else UserRun(UserStore(m, stores[0]), stores[1..])
  }

  /** The tables and the directory register of a process set up for the layout. */
  ghost predicate Mapped(m: Machine) {
    && Sane(m.layout)
    && forall v: u32, user, write :: Walk(m, v, user, write) == Target(m.layout, v, user)
  }

  lemma SameTablesSameWalk(m: Machine, m': Machine, v: u32, user: bool, write: bool)
    requires m' == m.(code := m'.code, stack := m'.stack)
    ensures Walk(m', v, user, write) == Walk(m, v, user, write)
  {
  }

  /** One user store: no translation changes, the stored byte is what is read back, and every
      other user address reads as before. */
  lemma UserStoreLaw(m: Machine, s: Store, v: u32)
    requires Mapped(m)
    ensures Mapped(UserStore(m, s)) && UserStore(m, s).layout == m.layout
    ensures UserLoad(UserStore(m, s), v) ==
            if v == s.v && Target(m.layout, v, true).Some? then Some(s.b) else UserLoad(m, v)
  {
    var l, m' := m.layout, UserStore(m, s);
    hide Walk, Sane, StorePhys, Tables, Hits, Phys;
    UserTarget(l, v);
    TargetReach(l, v, s.v);
    FramesApart(l, if Target(l, v, true).Some? then Target(l, v, true).value else 0);
    StoreFrame(m, s);
    forall w: u32, user, write
      ensures Walk(m', w, user, write) == Target(l, w, user)
    {
      SameTablesSameWalk(m, m', w, user, write);
    }
  }

  lemma StoreFrame(m: Machine, s: Store)
    requires Mapped(m)
    ensures var m' := UserStore(m, s);
            m' == match Target(m.layout, s.v, true)
                  case None => m
                  case Some(p) =>
                    if s.v < CODE_BYTES then m.(code := m.code[s.v := s.b])
                    else m.(stack := m.stack[s.v % PAGE := s.b])
  {
    hide Walk, Sane;
    var l := m.layout;
    TargetReach(l, s.v, s.v);
    SanePhys(l);
    if Target(l, s.v, true).Some? {
      var p := Target(l, s.v, true).value;
      assert forall i :: 0 <= i < 5 ==> !Hits(Tables(l)[i], p);
      assert Tables(l)[0] == l.bootDir && Tables(l)[1] == l.bootTable && Tables(l)[2] == l.userDir;
      assert Tables(l)[3] == l.codeTable && Tables(l)[4] == l.stackTable;
    }
  }

  function LastStored(stores: seq<Store>, v: u32): Option<byte>
    decreases |stores|
  {
    if stores == [] then None
    else match LastStored(stores[1..], v)
      case Some(b) => Some(b)
      case None => if stores[0].v == v then Some(stores[0].b) else None
  }

  /** A user process can store all it likes: no translation of any address ever changes, and
      each address it can reach reads as what was last stored there, or else as the module
      byte, or zero past the module's end. */
  lemma UserProcessMemory(m: Machine, image: seq<byte>, size: u32, stores: seq<Store>, v: u32)
    requires Sane(m.layout) && Booted(m) && Min(size, CODE_BYTES) <= |image|
    ensures var r := UserRun(AfterSetup(m, image, size), stores);
            && r.layout == m.layout && Mapped(r)
            && UserLoad(r, v) ==
               if Target(m.layout, v, true).None? then None
               else match LastStored(stores, v)
                    case Some(b) => Some(b)
                    case None => Some(if v < CODE_BYTES && v < size then image[v] else 0)
  {
    hide Walk, Sane, Target;
    var m' := AfterSetup(m, image, size);
    forall w: u32, user, write
      ensures Walk(m', w, user, write) == Target(m.layout, w, user)
    {
      EveryAddress(m, image, size, w, user, write);
    }
    UserRunLaw(m', stores, v);
    FreshLoad(m, image, size, v);
  }

  lemma FreshLoad(m: Machine, image: seq<byte>, size: u32, v: u32)
    requires Sane(m.layout) && Booted(m) && Min(size, CODE_BYTES) <= |image|
    ensures UserLoad(AfterSetup(m, image, size), v) ==
            if Target(m.layout, v, true).None? then None
            else Some(if v < CODE_BYTES && v < size then image[v] else 0)
  {
    hide Walk, Sane;
    EveryAddress(m, image, size, v, true, false);
    TargetReach(m.layout, v, v);
    SanePhys(m.layout);
  }

  lemma {:induction false} UserRunLaw(m: Machine, stores: seq<Store>, v: u32)
    requires Mapped(m)
    ensures Mapped(UserRun(m, stores)) && UserRun(m, stores).layout == m.layout
    ensures UserLoad(UserRun(m, stores), v) ==
            if Target(m.layout, v, true).Some? && LastStored(stores, v).Some? then LastStored(stores, v)
            else UserLoad(m, v)
    decreases |stores|
  {
    if stores == [] {
    } else {
      hide Mapped, UserStore, UserLoad, Target;
      UserStoreLaw(m, stores[0], v);
      UserRunLaw(UserStore(m, stores[0]), stores[1..], v);
    }
  }
}
