# AetherOS: verified models of the kernel heap, console, paging, input path and shell

AetherOS (LittleOS) is a small 32-bit x86 kernel with a Ring 3 shell. This project models the
parts of it that hold state, loops and arithmetic, and proves what they do for every input,
every run and every interleaving. `dafny verify dfyconfig.toml` checks the whole project.

Each stateful component has two layers. A module of functions on values says what the component
means (`HeapModel`, `Terminal`, `PageTables`, `RingProtocol`, `LineEditor`, ...). A class or
method with the fields, arrays and loops of the C code is proved equal to it (`KernelHeap`,
`Console`, `Paging`, `Keyboard`, `SystemRead`, `Shell`, ...). Theorems about whole runs are then
proved about the values.

- **Kernel heap** (`kernel/kheap.c`). The pool is a byte array whose 16-byte headers are stored
  little-endian between the payloads, the bitmap is a byte array of packed bits, and pointers are
  32-bit addresses with 0 as null. Size arithmetic wraps at 32 bits as in the code. A run is any
  sequence of the four allocator calls and client writes; beside it runs a ledger of what the
  clients hold. The main results: ledger, bitmap and headers agree after every run and no call
  leaves the pool; what a call returns is what the clients then hold; no call changes a byte of a
  block it does not name, nor depends on a byte it does not read; `krealloc` keeps contents;
  memory is conserved; a second `kfree` is harmless. `KernelHeap.KHeap.Replay` carries these runs
  out on the byte arrays themselves.
- **Console** (`drivers/framebuffer.c`). The screen is shown to be the last 25 rows of a sheet
  that only ever grows, through every run of characters, colour changes and clears.
- **Paging** (`arch/x86/mmu/paging.c`). The processor's walk is modelled after sections 4.3 and
  4.6 of volume 3A of the Intel SDM. After setup the translation of every 32-bit address in either
  mode is known, and no run of user stores can change it.
- **Input** (`drivers/keyboard.c`, `kernel/syscall.c`). The ring buffer is shown to be a 256-place
  queue when a whole `keyboard_put_char` may run between any two statements of the reader. SYS_READ
  is shown to return what survives of the keystrokes, to partition the stream, and to keep the line
  visible before the console cursor. From scancode to line, both are joined with the key interrupt
  falling between any two statements of the reader.
- **Shell and C library** (`userland/shell/shell.c`, `userland/shell/commands.c`,
  `userland/libc/src/stdio.c`). In-place tokenizing, `echo` as its inverse, number printing with
  its parser as inverse, and `printf` as an interpreter of its format.

Some properties one would expect are false of the code. Each is stated with its exact condition:

- `kmalloc` grants one block for requests above 0xFFFFFFF0, because the total wraps
  (`HeapLaws.MallocSoundExactly`, `HeapModel.BlocksNeededExact`, `HeapModel.OversizeRequestGranted`);
  `krealloc` then copies past the new block unless the old contents are at most 16 bytes
  (`HeapLaws.ReallocCopyFits`, `HeapLaws.ReallocOverflows`).
- `kcalloc` is granted room for its elements only when the product is at most 0xFFFFFFF0
  (`HeapModel.KcallocRoom`, `HeapModel.KcallocShort`).
- `tokenize`, as the shell calls it with 16 slots, stores its terminator past the vector exactly
  when the line has 16 words or more (`Shell.ShellTokenize`, `Shell.SixteenWordsOverrun`).
- The console shows the line being typed exactly when no tab is typed
  (`EchoMirror.EchoMirrorsLine`, `EchoMirror.TabHidesLine`).
- If `kbd_buf_count--` were a separate load and store, characters accepted between the two would
  make the count wrong (`RingProtocol.SplitDecrementExact`, `RingProtocol.SplitDecrementLoses`).
- Keystrokes reach the reader exactly when the ring is never full at a key press
  (`InputPipeline.TypedIsDelivered`, `InputPipeline.KeyLost`).
- `printf` runs past its format exactly when it ends in an odd number of percent signs
  (`Stdio.SafeFormat`, `Stdio.Printf`, `Stdio.DanglingPercent`).

## Model

| member | source | states |
|---|---|---|
| HeapAccess.EveryRunSound | kernel/kheap.c:60-215 | after `kheap_init` and any legal run of kmalloc, kcalloc, krealloc, kfree and in-payload client writes: held extents are disjoint and in range, a bitmap flag is set exactly when its block is held, every held header decodes to the magic, its start, its block count and a size that fits; the next legal call reads and writes only bytes of the pool, writes only inside the block it names or is granted, and leaves every other byte alone |
| HeapAccess.WritesConfined | kernel/kheap.c:74-215 | every byte a legal call writes lies in the block it names or in the one it is granted |
| HeapAccess.ReadsConfined | kernel/kheap.c:141-215 | every byte a legal call reads lies in the block it names or in the header slot of the pointer it was given, inside the pool |
| HeapAccess.OnlyWritesChange | kernel/kheap.c:74-215 | no byte outside the declared writes of a call changes |
| HeapDependence.OnlyReadsMatter | kernel/kheap.c:74-215 | whatever the rest of the pool holds, a legal call whose reads find the same bytes returns the same pointer, leaves the same flags and ledger, and stores the same values |
| HeapAnswers.AnswerIsHeld | kernel/kheap.c:74-215 | a pointer returned by any legal call is held afterwards with exactly the size asked for, was held by nobody before unless it is the one resized, and no other ledger entry is new or changed; null adds no entry |
| HeapAnswers.KmallocAnswers | kernel/kheap.c:74-121 | for every heap and every 32-bit size: null exactly when not ready, size 0 or no run of (size+47)/32 free blocks (one block above 0xFFFFFFF0), else base + 32r + 16 for the least such run r |
| HeapAnswers.KcallocAnswers | kernel/kheap.c:127-135 | the same answer for the wrapped product |
| HeapAnswers.KreallocAnswers | kernel/kheap.c:143-155 | a null pointer allocates with that same answer; size 0 frees and returns null; a pointer without the magic word gives null and changes nothing |
| HeapAnswers.HeaderBytes | kernel/kheap.c:105-110 | the sixteen bytes before a granted payload: 0x1EA9BEEF, first block, block count and size as four words, lowest byte first |
| HeapAnswers.KfreeClears | kernel/kheap.c:196-214 | whatever a header with the magic word claims, a flag is cleared exactly when its block is in the claimed range and the range does not run past 2^32, and only the magic word is overwritten |
| HeapRuns.StepKeepsInv | kernel/kheap.c:74-215 | every single allocator call or client write keeps ledger, bitmap and headers in agreement |
| HeapLaws.MallocSoundExactly | kernel/kheap.c:81-113 | a granted request leaves the three records in agreement if and only if its size is at most 0xFFFFFFF0 |
| HeapModel.BlocksNeededExact | kernel/kheap.c:81-86 | the wrapping block count is the rounded-up one, or one the scan can never meet, if and only if the size is at most 0xFFFFFFF0; granted blocks hold the request under the same condition |
| HeapModel.OversizeRequestGranted | kernel/kheap.c:81-82 | a request of 0xFFFFFFF1 bytes is granted one 32-byte block |
| HeapModel.KmallocFirstFit | kernel/kheap.c:74-121 | for every request up to 0xFFFFFFF0 bytes, or above it and refused, kmalloc returns null exactly when the heap is not ready, the size is 0 or no run of ceil((size+16)/32) free blocks exists, and otherwise takes the least start of such a run |
| HeapModel.KmallocPayload | kernel/kheap.c:105-113 | null leaves the heap alone; a pointer has its header before it and the whole request after it inside the pool |
| HeapModel.FirstFit | kernel/kheap.c:88-118 | the least start of a run of n free blocks, or none exactly when there is none |
| HeapLaws.RunIsolates | kernel/kheap.c:74-215 | through any legal run that never names a held block, the block stays held with the same extent, header and payload bytes |
| HeapLaws.StepIsolates | kernel/kheap.c:74-215 | no call changes a byte of a held block it does not name |
| HeapLaws.ReallocKeepsContents | kernel/kheap.c:141-175 | in place: same pointer, all payload bytes kept; moved: first min(old, new) bytes kept, old block released; refused: null, nothing changed, and no run was free |
| HeapLaws.ReallocCopyFits | kernel/kheap.c:164-171 | the bytes copied by a moving krealloc fit the new block if and only if the size is at most 0xFFFFFFF0 or the old contents are at most 16 bytes |
| HeapLaws.ReallocOverflows | kernel/kheap.c:164-171 | a fresh heap reaches such a move: 100 bytes held, a resize to 0xFFFFFFF1 bytes granted one block |
| HeapLaws.CallocReturnsZeros | kernel/kheap.c:127-135 | kcalloc returns zero bytes even from recycled blocks |
| HeapModel.KcallocRoom | kernel/kheap.c:127-135 | for every pair, the block kcalloc is granted holds num times size bytes if and only if the product is at most 0xFFFFFFF0 |
| HeapModel.KcallocShort | kernel/kheap.c:127-135 | on a fresh heap 65536 elements of 65537 bytes are granted 65536 bytes |
| HeapLaws.MallocFreeRestores | kernel/kheap.c:74-215 | kmalloc followed by kfree of its result restores the bitmap exactly, for every request |
| HeapLaws.WrittenFreeRestores | kernel/kmain.c:113-123 | the same when the client wrote anything but the header in between |
| HeapLaws.FreshIgnoresEveryPointer | kernel/kheap.c:60-65 | right after kheap_init, kfree of any pointer whatsoever changes nothing |
| HeapLaws.MemoryConserved | kernel/kheap.c:230-248 | blocks marked used are the sum of the blocks held, over disjoint extents |
| HeapLaws.FreeingAllEmpties | kernel/kheap.c:181-215 | freeing every held block in any order is legal, brings used memory to 0, and a 262128-byte request then gets the whole pool |
| HeapLaws.DoubleFreeHarmless | kernel/kheap.c:181-215 | after kfree(p), through any legal run that neither hands p out again nor lets client bytes land on its old magic word, another kfree(p) changes nothing |
| HeapModel.HeaderRoundTrip | include/kernel/kheap.h:24-29 | a header stored little-endian in the pool reads back unchanged |
| Bitmap.SetBit | kernel/kheap.c:40-43 | setting a bit of the packed bytes sets exactly that block's flag |
| Bitmap.ClearBit | kernel/kheap.c:45-48 | clearing a bit of the packed bytes clears exactly that block's flag |
| Bitmap.UnpackInjective | kernel/kheap.c:40-53 | equal flags mean equal bitmap bytes |
| Bitmap.BitWeight | kernel/kheap.c:50-53 | block i is the bit of weight 2^(i mod 8) in byte i / 8 |
| KernelHeap.KHeap.BitmapSet | kernel/kheap.c:40-43 | sets one flag and changes nothing else |
| KernelHeap.KHeap.BitmapClear | kernel/kheap.c:45-48 | clears one flag and changes nothing else |
| KernelHeap.KHeap.BitmapTest | kernel/kheap.c:50-53 | reads the flag of a block |
| KernelHeap.KHeap.Memset | kernel/kheap.c:20-27 | fills exactly the given range of the pool |
| KernelHeap.KHeap.Memcpy | kernel/kheap.c:29-37 | the ascending byte copy moves the range at once when the source ends before the destination or starts at or after it |
| KernelHeap.KHeap.KheapInit | kernel/kheap.c:60-65 | clears bitmap and pool and marks the heap ready |
| KernelHeap.KHeap.Scan | kernel/kheap.c:88-118 | the one-pass scan with its running count finds the first fit |
| KernelHeap.KHeap.Kmalloc | kernel/kheap.c:74-121 | for every 32-bit size, the first-fit allocation of the model, null cases included |
| KernelHeap.KHeap.Kcalloc | kernel/kheap.c:127-135 | the allocation of the wrapped product, then zeros over exactly that many bytes, wherever the zeroing stays in the pool |
| KernelHeap.KHeap.Krealloc | kernel/kheap.c:141-175 | the model's krealloc on all its paths, oversize requests included as long as the copy stays in the pool |
| KernelHeap.KHeap.Kfree | kernel/kheap.c:181-215 | for every pointer value, the model's kfree: ignored when null, out of range or without magic; otherwise clears the header's block range and its magic |
| KernelHeap.KHeap.Replay | kernel/kheap.c:74-215 | any legal run carried out on the byte arrays is the run of the model and keeps the invariant, and each pointer returned on the way fits the ledgers before and after its call |
| KernelHeap.KHeap.Perform | kernel/kheap.c:74-215 | one call on the arrays is one step of the model, with its answer |
| KernelHeap.KHeap.SelfTest | kernel/kmain.c:113-126 | the boot-time allocate, write and free leaves the packed bitmap byte for byte as it was; the block is the first fit for 128 bytes and holds the message and its NUL; null leaves the pool alone |
| KernelHeap.KHeap.UsedMemory | kernel/kheap.c:230-239 | 32 times the number of flags set |
| KernelHeap.KHeap.FreeMemory | kernel/kheap.c:245-248 | used plus free is 262144 |
| Terminal.ScreenIsWindow | drivers/framebuffer.c:56-147 | over every run of characters, colour changes and clears the screen is the last 25 rows of the growing sheet, the sheet grew by one row per scroll and 25 per clear, and rows once above the window never change |
| Terminal.ClearedRun | drivers/framebuffer.c:80-147 | from a cleared screen, screen cursor plus 80 times the rows that left the screen is the sheet's cursor |
| Terminal.TypedIsPut | drivers/framebuffer.c:105-135 | one character on the sheet, seen through the window, is one character on the screen, wrapping and scrolling included |
| Terminal.TurnedIsCleared | drivers/framebuffer.c:80-89 | continuing the sheet on 25 fresh rows, seen through the window, is clearing the screen |
| Terminal.CursorCodes | drivers/framebuffer.c:107-115 | from row r, column c: 10 goes to the start of row r+1 or scrolls, 13 to the start of row r, 9 to the next column divisible by 8 or the next row; no cell changes otherwise |
| Terminal.WritingCodes | drivers/framebuffer.c:116-131 | 8 steps back and blanks that cell, except in the first cell; any other byte is put at the cursor, which moves on or scrolls |
| Terminal.AttrInked | drivers/framebuffer.c:37 | for all colours, the attribute's high half is the background's low four bits and its low half the foreground's |
| Terminal.RunInksScreen | drivers/framebuffer.c:34-147 | between colour changes every cell only moved up with its row or has the current colours in these halves |
| Terminal.RecolouredRun | drivers/framebuffer.c:95-147 | the same from a change to any two colours on |
| Terminal.PlainTextLayout | drivers/framebuffer.c:105-147 | printable text of any length on a cleared screen: cell k shows byte 80n+k of the text, the rest is blank, n being the scrolls it causes |
| Terminal.Advanced | drivers/framebuffer.c:105-131 | the cursor is at most one past the last cell when the scroll test is made |
| Console.ShiftCells | drivers/framebuffer.c:56-74 | bytes moved down by 160 with a blank tail are cells moved up one row with a blank row |
| Console.Framebuffer.WriteCell | drivers/framebuffer.c:34-38 | replaces exactly one cell: the character byte, then background in the high and foreground in the low half |
| Console.Framebuffer.ShiftUp | drivers/framebuffer.c:58-62 | the ascending in-place copy equals a simultaneous shift by one row |
| Console.Framebuffer.Scroll | drivers/framebuffer.c:56-74 | entered with the cursor at exactly 2000: drops the top row, adds a blank one in the current colours, cursor at its start |
| Console.Framebuffer.Clear | drivers/framebuffer.c:80-89 | blanks every cell in the current colours, cursor at 0 |
| Console.Framebuffer.SetColor | drivers/framebuffer.c:95-99 | changes the pen only |
| Console.Framebuffer.PutChar | drivers/framebuffer.c:105-135 | one character of the model; scrolling is entered with the cursor at exactly 2000, and it is below 2000 afterwards |
| Console.Framebuffer.Write | drivers/framebuffer.c:141-147 | the characters one after another; the two bytes of every cell either moved up unchanged or end with the current colours |
| PageTables.EveryAddress | arch/x86/mmu/paging.c:48-93 | after setup every 32-bit address translates in user and supervisor mode, for reads and writes, exactly as: 0..0xFFFF to the code frames, 0xBFFFF000..0xBFFFFFFF to the stack frame, the kernel's 4 MB for the supervisor only, all else faults |
| PageTables.UserReach | arch/x86/mmu/paging.c:79-89 | the user walk over the tables after setup succeeds exactly on those two ranges, is injective, and reaches only the 16 code frames and the stack frame, so no table |
| PageTables.UserProcessMemory | arch/x86/mmu/paging.c:65-92 | through any run of user stores no translation changes, and each reachable address reads as last stored, else as the module byte, else 0 past the module or 64 KB |
| PageTables.BootAddress | arch/x86/boot/loader.s:142-161 | under the boot directory the supervisor sees the low 4 MB at 0 and at 0xC0000000, and users see nothing |
| PageTables.KernelSurvivesSwitch | arch/x86/mmu/paging.c:88-92 | kernel addresses keep their supervisor-only translation v - 0xC0000000 across the directory switch |
| PageTables.InitBoots | arch/x86/mmu/paging.c:26-38 | paging_init restores the two kernel entries the loader linked, whatever they held |
| PageTables.EntriesInUse | arch/x86/mmu/paging.c:79-89 | which entries of the five tables are in use, all of them writable, the process's for users and the kernel's for the supervisor alone; every other entry is 0 |
| PageTables.OrAddsFlags | arch/x86/mmu/paging.h:15-22 | on a page-aligned frame, or-ing the flags adds them |
| Paging.Unit.constructor | arch/x86/boot/loader.s:141-161 | the loader's static tables satisfy what the boot translation needs |
| Paging.Unit.PagingInit | arch/x86/mmu/paging.c:26-38 | writes both kernel entries of the boot directory |
| Paging.Unit.CopyImage | arch/x86/mmu/paging.c:66-81 | the page-by-page copy loads the image cut at 64 KB and padded with zeros, and maps the 16 pages |
| Paging.Unit.SetupUserProcess | arch/x86/mmu/paging.c:48-93 | the whole setup, for every module and size |
| RingProtocol.EveryInterleavingFifo | drivers/keyboard.c:61-84 | over every interleaving of puts with the statements of the reader: accepted bytes are the returned bytes, the one being returned, and at most 256 queued, in order |
| RingProtocol.StepRefinesQueue | drivers/keyboard.c:61-84 | every step is a step of a 256-place queue: a put appends or is refused when full, the decrement removes the oldest, -1 is returned exactly on empty, nothing else shows |
| RingProtocol.PutSparesUnread | drivers/keyboard.c:61-68 | a put never overwrites a slot still to be read |
| RingProtocol.SplitDecrementExact | drivers/keyboard.c:82 | were the decrement a load and a store, the ring would agree with its count afterwards if and only if no put was accepted between them |
| RingProtocol.SplitDecrementLoses | drivers/keyboard.c:82 | a reachable run in which the split decrement leaves a byte in the ring that is counted as none |
| RingProtocol.UninterruptedRead | drivers/keyboard.c:75-84 | left alone, the reader's five statements are one keyboard_getchar |
| Keyboard.ShiftIsLastEvent | drivers/keyboard.c:103-111 | over every trace, shift is set exactly when 0x2A or 0x36 occurred with no 0xAA or 0xB6 after it |
| Keyboard.KeyTypes | drivers/keyboard.c:16-54 | for all 256 scancodes, with and without shift, what is enqueued is what the key says, against the four rows of a US keyboard and the single keys beside them; other codes enqueue nothing |
| Keyboard.DigitKeys | drivers/keyboard.c:18 | scancode d+1 types the digit d, and 0x0B types 0 |
| Keyboard.DecodedKeys | drivers/keyboard.c:95-125 | each scancode of a trace adds what its key says, shifted exactly while a shift key is down |
| Keyboard.ShiftCapitalizes | drivers/keyboard.c:16-54 | shift turns every letter key into its capital and no other key into a letter, and a key types something in both states or in neither |
| Keyboard.Driver.PutChar | drivers/keyboard.c:61-68 | the ring's put; appends unless 256 bytes wait |
| Keyboard.Driver.GetChar | drivers/keyboard.c:75-84 | returns and removes the oldest byte as 0..255, or -1 when none waits |
| Keyboard.Driver.Interrupt | drivers/keyboard.c:95-125 | sets, clears or keeps shift by the four literal codes, and enqueues what the key says unless 256 bytes wait |
| LineEditor.TypesetIsSurvivors | kernel/syscall.c:91-102 | editing keystroke by keystroke leaves exactly the bytes that a right-to-left matching of erases spares |
| LineEditor.KeyEffect | kernel/syscall.c:84-102 | 8 and 127 take back the last byte, 0, 10 and 13 end the line and are used up, any other byte is appended |
| LineEditor.KeyExactly | kernel/syscall.c:84-102 | each of these effects belongs to its codes and to no others |
| LineEditor.ReadExactly | kernel/syscall.c:72-116 | a read finishes with a line and a rest if and only if the line is what survives of the keystrokes up to the first 0, 10 or 13, or up to the moment the buffer is full |
| LineEditor.ReadMeaning | kernel/syscall.c:72-116 | a read returns what survives of the keystrokes it used; they hold no delimiter and no proper prefix fills the buffer; it leaves the rest of the input; no delimiter was needed exactly when the buffer is full |
| LineEditor.ReadDetermined | kernel/syscall.c:72-116 | conversely, one line of keystrokes with a delimiter, or filling the buffer, is read as exactly that line whatever follows |
| LineEditor.ReadsPartition | kernel/syscall.c:57-116 | successive reads cut the stream into consecutive parts, one per line |
| LineEditor.ReadsMoreInput | kernel/syscall.c:72-116 | lines already read do not depend on later input |
| SystemRead.SysRead | kernel/syscall.c:57-120 | the branch for every descriptor, buffer and capacity: returned length, NUL-terminated line, nothing written at or beyond max_count, console and serial echo; the buffer holds what survives of the keystrokes (8 and 127 erase) up to 0, 10, 13 or a full buffer; empty polls do not matter |
| SystemRead.KeyEffects | kernel/syscall.c:84-109 | what each code sends: erasing, a backspace to the console and 8, 32, 8 to the serial line; ending, 10 and 13, 10; otherwise the byte itself to both |
| SystemRead.Gather | kernel/syscall.c:71-110 | the loop fills the buffer and echoes as the line editor says |
| SystemRead.TypingJoins | drivers/framebuffer.c:141-147 | writing two texts is writing their concatenation |
| EchoMirror.EchoMirrorsLine | kernel/syscall.c:84-109 | on any console written since it was cleared, the cells before the cursor show the end of the line at every moment of a read, through scrolling and erasing, if and only if no tab is typed |
| EchoMirror.TabHidesLine | kernel/syscall.c:101-108 | one tab on a cleared screen leaves a blank before the cursor |
| EchoMirror.SerialShowsLine | kernel/syscall.c:84-109 | what the serial line is sent, up to the final carriage return and line feed, leaves exactly the line being typed on an unbounded one-row display |
| InputPipeline.TypedIsDelivered | drivers/keyboard.c:61-125 | with scancodes falling between any two statements of the reader, the bytes returned, being returned and queued are the decoded trace if and only if the ring was never full at a key press; otherwise they are fewer |
| InputPipeline.KeyLost | drivers/keyboard.c:61-68 | the 257th key pressed before any read is lost |
| InputPipeline.KeyIsInterrupt | drivers/keyboard.c:95-125 | a key event does to shift flag and ring what the driver's interrupt handler does |
| InputPipeline.KeystrokesToLines | kernel/syscall.c:72-116 | for every interleaving of scancodes with the statements of the reader, the ring never full, the lines successive reads return are those of the decoded trace |
| Shell.Tokenize | userland/shell/shell.c:16-41 | returns min(max_args, words); each pointer read as a C string is the word; only whitespace was overwritten; the vector is null-terminated, or the terminator was stored one past its end, exactly when every slot holds a word |
| Shell.ShellTokenize | userland/shell/shell.c:58 | the shell's call with 16 slots and limit 16, for every line: the terminator is stored past the vector if and only if the line has 16 words or more |
| Shell.SixteenWordsOverrun | userland/shell/shell.c:53-58 | the call on a line of 16 one-letter words, which fits the line buffer, stores past the vector |
| Shell.WordsAreWords | userland/shell/shell.c:20-33 | the words are nonempty and hold none of 32, 9, 10, 13 and 0 |
| Shell.WordsAreRuns | userland/shell/shell.c:19-38 | for every text the words are, in order, the maximal runs of bytes other than 32, 9, 10 and 13: they stand apart, and the bytes in no word are exactly the separators |
| EchoCommand.CmdEcho | userland/shell/commands.c:30-40 | prints the arguments after the first at consecutive offsets, byte 32 after each but the last, byte 10 at the end and nothing else |
| EchoCommand.EchoRoundTrip | userland/shell/commands.c:30-40 | tokenizing "echo " and what echo printed for a tokenized line gives the same arguments after the command name |
| Numerals.PrintNumber | userland/libc/src/stdio.c:27-54 | writes the numeral of the value, never leaving its 32-byte buffer |
| Numerals.PrintedRoundTrip | userland/libc/src/stdio.c:27-54 | for every 32-bit value, the minimum included, the text is a canonical numeral of at most 32 digits that parses back to the value, or to its bit pattern outside base 10 |
| Numerals.CanonicalUnique | userland/libc/src/stdio.c:45-53 | a numeral without leading zeros is the one printed for its value |
| Stdio.Printf | userland/libc/src/stdio.c:56-107 | writes the pieces of the format with argument k at the k-th directive that takes one; the format pointer ends on the terminating NUL if and only if the format ends in an even number of percent signs, and otherwise one past it, having written a percent sign and a NUL |
| Stdio.ArgumentsInOrder | userland/libc/src/stdio.c:61-103 | for literals and directives in any number: the format fits its arguments if and only if the k-th taker finds its kind at number k, and the output is the pieces with the text of argument k there, "(null)" for a null string and the low byte for %c |
| Stdio.EveryFormat | userland/libc/src/stdio.c:61-103 | every format is such pieces, and a dangling percent sign exactly for an odd trailing run |
| Stdio.RenderedInOrder | userland/libc/src/stdio.c:61-103 | so the two together decide the output of every format |
| Stdio.HelpLine | userland/shell/commands.c:14 | the line of `help` shows the name, then the description, for all texts |
| Stdio.RenderedJoins | userland/libc/src/stdio.c:61-103 | a joined format fits exactly when its parts do, the second on what the first leaves, and renders piece by piece |
| Stdio.DoubledPrintsText | userland/libc/src/stdio.c:90-93 | doubling every percent sign of a text makes a format that prints the text |
| Stdio.NumbersParseBack | userland/libc/src/stdio.c:78-89 | what %d and %i print parses back to the value in decimal, what %x and %p print to its bit pattern in hexadecimal |
| Stdio.SafeFormat | userland/libc/src/stdio.c:61-103 | where the format pointer comes to rest, moving one per literal and two per directive, is the NUL exactly for an even trailing run of percent signs |
| Stdio.DanglingPercent | userland/libc/src/stdio.c:94-102 | on "100%" printf writes a percent sign and a NUL and steps over the terminator |

## Left out

- Port input and output, the hardware cursor, interrupt controller and UART programming, `hlt` and wake-up timing: hardware effects; input arrives as events and poll results.
- The order of SYS_READ's own serial poll against the serial interrupt handler: it depends on device timing, so a poll result is one number whatever its source.
- GDT, IDT and TSS packing, interrupt dispatch, assembly entry stubs, SYS_WRITE, SYS_EXIT, SYS_CLEAR, `kmain`, banners and statistics: field packing, thin dispatch and printing, which would add only easy members.
- Signed overflow of `-num` at the minimum in `print_number` is modelled as two's-complement wrap-around.
- KernelHeap.KHeap.Krealloc: requires that a non-null pointer lies in the pool, that one whose header carries the magic is a held block in agreement with its header, and that the copy of a move stays in the pool; otherwise the outcome is decided by bytes outside the model.
- KernelHeap.KHeap.Kcalloc: requires that a granted product is at most 0xFFFFFFF0 after wrapping; above that the code zeroes past the end of the pool.
- HeapAccess.EveryRunSound: a legal run passes null, held pointers, pointers outside the pool to kfree, or pointers without a valid header; forged headers are decided by whatever bytes are in memory, and a granted request above 0xFFFFFFF0 ends the guarantee (HeapLaws.MallocSoundExactly).
- Shell.Tokenize: what the store past the vector hits is not modelled.
- Stdio.Printf: requires arguments that match the directives, which C leaves undefined otherwise; what is read after the pointer has passed the terminator is not modelled.
- EchoMirror.SerialShowsLine: the display is one unbounded row on which a backspace moves left and every other byte, tab and escape included, takes one cell; a real terminal's wrapping and control sequences are not modelled.
- Paging.Unit.SetupUserProcess: the module is a value apart from the user frames, and tables and frames are page-aligned, distinct and inside the kernel's 4 MB, as the linker places them.
