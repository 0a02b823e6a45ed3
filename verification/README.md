# DRUPE kernel: a verified model

DRUPE is a small x86 kernel in C. This project models its closed algorithms in Dafny, in the
kernel's own representations, and proves what they are for:

- **Physical sectors** (`PhysicalMemory.dfy`, `AllocatorClients.dfy`): the 8192-byte bitmap, the two
  scans and free, refined to a set of free sectors; leftmost fit, undoing, and safety over every run.
- **Streams and terminal** (`Streams.dfy`, `Terminal.dfy`, `ShellState.dfy`, `Shell.dfy`): the
  1024-byte ring with its read loop as written, the screen as a window on an unbounded page, and
  exactly what reaches the screen over every history of writes.
- **Standard input under preemption** (`StdinPreemption.dfy`, `StdinStalls.dfy`, `TornDecrement.dfy`):
  the statements of `stream_read` as a machine that whole keyboard interrupts may enter anywhere; when
  it delivers nothing; and `count--` as one step and as two.
- **Numbers and formats** (`Numbers.dfy`, `Shell.dfy`): what is printed and what can be read back.
- **Descriptor table** (`Gdt.dfy`): the rotating checksum, what it detects, what it cannot see, and
  the table up to and past the installation of the TSS.
- **Memory map** (`Multiboot.dfy`): the tag walk against the layout of the Multiboot2 Specification
  2.0, sections 3.6.2 and 3.6.8.
- **Ext2 reader** (`Ext2Format.dfy`, `Ext2.dfy`, `Directory.dfy`, `DiskLayout.dfy`, `Loader.dfy`): mount, inode
  location, directory walk, lookup and file read over the raw image, composed from the image to the
  loaded program, with a concrete image in `SampleImage.dfy`. The layout is that of "The Second
  Extended File System: Internal Layout".

`Words.dfy` holds bytes, machine words and little-endian fields. Objects that the kernel updates in
place are classes whose methods are proved equal to functions on values; the theorems are about those
functions. `dafny verify dfyconfig.toml` checks the whole project.

Four findings are worth a maintainer's time, each with its exact condition and an input that shows it:

- `stream_read` tests `data[read]`, the slot at the loop counter, for a newline, and not the slot at
  `tail`. First-in first-out order survives this. An output stream stops for good once a newline lands
  in slot 0 (`ShellState.BlockedForGood`, `ShellState.ChannelStep`, `ShellState.FreshPuts`,
  `ShellState.NewlineFirstShowsNothing`). Standard input is dead exactly when a newline is unread in
  slot 0 and no read is past its first test (`StdinStalls.DeadIffWedged`, `StdinStalls.FirstKeyWedges`).
  A read that is past it may deliver the newline, but the byte stays in slot 0, and then reads come back
  with nothing until the keys have come round to it (`StdinStalls.NewlineTakenInTime`,
  `StdinStalls.EmptyHandedRead`, `StdinStalls.StallLasts`, `StdinStalls.StallEnds`).
- `mem_phys_alloc` scans the whole bitmap and not the managed range, so once no managed sector is free
  it hands out one beyond the range (`AllocatorClients.FastScanRefinesRunScan`,
  `AllocatorClients.FastScanLeavesRange`).
- `ext2_read_dir` counts the blocks in use but steps over holes, so the last blocks of a directory with
  holes are not read and a file in them is not found (`Directory.WholeIffNoHoles`,
  `SampleImage.HoleHidesFile`).
- The stored checksum of the descriptor table stops holding when `tss_setup` writes entry 5, whatever
  the address of the TSS (`Gdt.DescriptorTable.InstallTss`).

## Model

| member | source | states |
|---|---|---|
| `PhysicalMemory.Allocator.Init` | source/system/memory/physical.c:7-16 | after `mem_phys_init` all 65536 bitmap sectors are free and the managed count is `total_size / 8192` |
| `PhysicalMemory.FirstFit` | source/system/memory/physical.c:44-76 | the start found is the least index of a run of `n` free sectors ending within the limit, and `None` means there is no such run |
| `PhysicalMemory.FirstFitMeaning` | source/system/memory/physical.c:44-76 | in so many words: the run is free and in range, and every place further left, or every place in range when there is no fit, has a taken sector |
| `PhysicalMemory.Allocator.Alloc` | source/system/memory/physical.c:18-35 | the byte-skipping scan takes the leftmost free sector of the whole bitmap, clears that bit only, and returns its 32-bit address; it returns 0 and changes nothing when none is free |
| `PhysicalMemory.Allocator.AllocSectors` | source/system/memory/physical.c:37-77 | leftmost fit in the managed range, exactly those `n` bits cleared; 0 and an unchanged bitmap when `n` is 0, too large, or no run exists; beyond 65536 managed sectors as long as a run is there to be found |
| `PhysicalMemory.Allocator.CountFree` | source/system/memory/physical.c:49-61 | the inner scan counts the free sectors before the first taken one |
| `PhysicalMemory.Allocator.ClearRun` | source/system/memory/physical.c:65-71 | the clearing loop removes exactly the run |
| `PhysicalMemory.Allocator.FreeSector` | source/system/memory/physical.c:79-86 | marks exactly the sector the address lies in |
| `PhysicalMemory.BitOps` | source/system/memory/physical.c:27-29 | masking with `~(1 << b)` and `1 << b` changes bit `b` and no other |
| `PhysicalMemory.BitEffect` | source/system/memory/physical.c:29-85 | on the set of free sectors, clearing removes one sector and marking adds one |
| `PhysicalMemory.RunEffect` | source/system/memory/physical.c:65-71 | clearing a run bit by bit removes exactly that run from the free set |
| `PhysicalMemory.SameBitmap` | source/system/memory/physical.c:3 | the set of free sectors determines the bitmap byte for byte |
| `AllocatorClients.AddressRoundTrip` | source/system/memory/physical.c:72-81 | freeing an address that was handed out reaches its own sector, for every start address and with 32-bit wrap |
| `AllocatorClients.InteriorAddress` | source/system/memory/physical.c:72-81 | so does any address inside a sector, and a sector's address is `start + 8192 * i` below 4 GiB |
| `AllocatorClients.NullIsFailure` | source/system/memory/physical.c:72 | a successful allocation is reported as 0 exactly when its address is 0 or 2^32 |
| `AllocatorClients.FastScanRefinesRunScan` | source/system/memory/physical.c:18-77 | `mem_phys_alloc` and `mem_phys_alloc_sectors(1)` agree in result and bitmap exactly when a sector in range is free or none is free at all; otherwise the fast scan leaves the managed range |
| `AllocatorClients.FastScanLeavesRange` | source/system/memory/physical.c:18-35 | for every managed range short of the whole bitmap: with all of it taken and the next sector free, the fast scan hands out that sector and the run scan refuses |
| `AllocatorClients.FreeUndoesAlloc` | source/system/memory/physical.c:65-86 | freeing every sector of an allocated run, in any order and with repeats, restores the bitmap byte for byte |
| `AllocatorClients.GrantKeeps` | source/system/memory/physical.c:64-73 | granting free sectors keeps live regions disjoint and the partition of the 65536 sectors |
| `AllocatorClients.GiveKeeps` | source/system/memory/physical.c:79-86 | taking back an owned sector keeps the partition |
| `AllocatorClients.NextKeeps` | source/system/memory/physical.c:18-86 | each call keeps the partition and moves the free count by exactly -1, -n or +1, or not at all on failure |
| `AllocatorClients.EveryRunIsSafe` | source/system/memory/physical.c:18-86 | over every run of calls by clients that free only what they own, live regions stay disjoint and partition the sectors with the free bits |
| `AllocatorClients.Perform` | source/system/memory/physical.c:18-86 | the calls of those runs are the methods of the allocator, on its own bitmap and addresses |
| `AllocatorClients.InitialPartition` | source/system/memory/physical.c:12-15 | the state after initialisation is such a partition |
| `AllocatorClients.RunAvoidsLive` | source/system/memory/physical.c:37-77 | a granted run becomes one more live region, in range and disjoint from all others; on refusal every run in range meets a live region |
| `Streams.Ring.Delivers` | source/system/shell/stream.c:24-32 | how far a read gets: to the count, to the length, or to the first slot, counted from slot 0, that holds a newline |
| `Streams.PushAllMeaning` | source/system/shell/stream.c:11-17 | accepted bytes join the queue at its end, in order |
| `Streams.PushAllSlots` | source/system/shell/stream.c:13-14 | they fill the slots from `head` on, round the ring, and every other slot keeps its byte |
| `Streams.FifoStep` | source/system/shell/stream.c:3-34 | one call: bytes out followed by the queue after are the queue before followed by bytes in |
| `Streams.FifoConservation` | source/system/shell/stream.c:3-34 | over every history, bytes delivered followed by bytes queued are the bytes accepted, and `head = (tail + count) mod 1024` with `count <= 1024` |
| `Streams.Stream.constructor` | source/system/shell/shell.c:16-20 | a stream starts empty with whatever bytes memory held |
| `Streams.Stream.Write` | source/system/shell/stream.c:3-19 | accepts exactly `min(max(len, 0), 1024 - count)` bytes, the prefix of the input, and queues them |
| `Streams.Stream.Read` | source/system/shell/stream.c:21-34 | delivers the front of the queue into the buffer, leaves the rest of the buffer alone, and removes those bytes |
| `Words.ReadersAreLittleEndian` | source/system/filesystem/ext2/ext2.h:12-100 | 16-, 32- and 64-bit fields are read lowest byte first |
| `Words.EncodersAreLittleEndian` | source/boot/multiboot.h:6-29 | and laid out that way |
| `StdinPreemption.KeyKeeps` | source/system/interrupts/interrupts.c:127-137 | a key never lands in an unread slot, is queued unless the count stands at 1024, and conserves the input, at every point of a read |
| `StdinPreemption.StepKeeps` | source/system/shell/stream.c:21-33 | every statement of `stream_read` conserves bytes returned, bytes in the caller's buffer and unread bytes |
| `StdinPreemption.EveryInterleavingConserves` | source/system/interrupts/syscalls.c:93-104 | over every interleaving of reads, their statements and keys, delivered, buffered and unread bytes make up the bytes accepted, and what reads return is a growing prefix of them |
| `StdinStalls.EmptyHandedRead` | source/system/shell/stream.c:24-33 | a read left alone of a stream that is not empty delivers nothing if and only if slot 0 holds a newline, read or unread |
| `StdinStalls.StallLasts` | source/system/shell/stream.c:24-27 | with no read past its first test, such a stall lasts over every interleaving until keys have come round to slot 0 |
| `StdinStalls.StallEnds` | source/system/shell/stream.c:24-33 | when the newline is not unread, so many keys end the stall, unless the one that lands in slot 0 is a newline again |
| `StdinStalls.NewlineWedges` | source/system/shell/stream.c:24-27 | with the newline unread and no read past its first test, nothing is delivered over every interleaving that follows |
| `StdinStalls.DeadIffWedged` | source/system/shell/stream.c:24-33 | at every point of every read: no keys and reads that may follow deliver another byte if and only if slot 0 holds an unread newline and no read is past its first test |
| `StdinStalls.FirstKeyWedges` | source/system/shell/stream.c:24-27 | the input that shows it: a newline as the first key |
| `StdinStalls.NewlineTakenInTime` | source/system/shell/stream.c:24-33 | a run in which a newline lands in slot 0 during a read and is delivered by it, and the next read of a byte comes back empty-handed |
| `StdinPreemption.AloneIsRead` | source/system/shell/stream.c:24-33 | without interrupts the statements add up to the sequential read from any turn of the loop on |
| `StdinPreemption.UninterruptedRead` | source/system/shell/stream.c:21-34 | a whole uninterrupted read of the machine is the read of the ring |
| `TornDecrement.EveryTornKeyIsMissing` | source/system/shell/stream.c:30 | with `count--` as a load and a store, over every run as many bytes go missing from the ring as keys are taken between the two |
| `TornDecrement.TornDecrementLosesKeys` | source/system/shell/stream.c:30 | a run that ends with its last decrement complete conserves the input if and only if no key was taken between a load and its store |
| `Terminal.PutRefines` | source/system/shell/shell.c:62-82 | one character on the screen is one character on the unbounded page seen through the window of its last rows |
| `Terminal.NextLineRefines` | source/system/shell/shell.c:67-81 | wrap and line feed, with scrolling and its blank colour, are going to the next line of the page |
| `Terminal.TerminalRefinement` | source/system/shell/shell.c:55-131 | for every text, width and height the screen is rows `max(0, r - height + 1)` onward of the page, and the cursor stays on the screen |
| `Terminal.ScrollbackIsFinal` | source/system/shell/shell.c:114-131 | lines the cursor has left never change again |
| `Terminal.ClearShowsBlankPage` | source/system/shell/shell.c:246-256 | the cleared screen shows the blank page |
| `Terminal.ShownCell` | source/system/shell/shell.c:55-131 | cell by cell: the screen's row `i` is row `max(0, r - height + 1) + i` of the page, and the cursors are at the same cell |
| `Terminal.ControlCharacters` | source/system/shell/shell.c:64-73 | a carriage return goes to column 0 and a line feed to the next line, which begins as blanks in the current colour |
| `Terminal.PlainCharacter` | source/system/shell/shell.c:74-81 | any other character lands at the cursor, which moves one cell on; no other cell changes |
| `Terminal.TypedInOrder` | source/system/shell/shell.c:62-63 | a text is typed character by character |
| `ShellState.ExactDrain` | source/system/shell/shell.c:60-83 | reading in chunks of any size until a read brings nothing delivers the whole queue in order, or nothing at all when slot 0 holds a newline |
| `ShellState.RenderOrder` | source/system/shell/shell.c:55-112 | rendering types the drained standard output in the current colour, then the drained standard error in 0x04, and changes nothing else |
| `ShellState.BlockedForGood` | source/system/shell/stream.c:26-27 | a newline unread in slot 0 is never delivered and never overwritten, whatever is written after it |
| `ShellState.ChannelStep` | source/system/shell/shell.c:26-38 | one write and rendering deliver the whole accepted offer, or block the stream with all of it when one of its newlines is byte number 0, 1024, 2048 and so on |
| `ShellState.WriteStep` | source/system/shell/shell.c:26-112 | a write shows on its own stream only, in the default colour or in red, and a write to standard input shows nothing |
| `ShellState.StdinStep` | source/system/shell/shell.c:26-38 | a write to standard input queues its accepted bytes there, no other write does, and the colour becomes 0x07 |
| `ShellState.OutputHistory` | source/system/shell/shell.c:26-112 | over every history the screen is the old screen after typing what the channels let through |
| `ShellState.ShellShowsPage` | source/system/shell/shell.c:6-131 | from `sh_init` on, whatever the rings held, every history of writes leaves the window on the page with exactly that text typed on it |
| `ShellState.CharByChar` | source/system/shell/shell.c:50-53 | text written a character at a time is heard up to the first newline whose place in the stream is a multiple of 1024 |
| `ShellState.TypedShows` | source/system/shell/shell.c:133-138 | on any open stream that prefix, and nothing more, reaches the screen |
| `ShellState.FreshPuts` | source/system/shell/shell.c:133-138 | `sh_puts` on a fresh shell renders exactly the prefix before the first newline at an index divisible by 1024 |
| `ShellState.NewlineFirstShowsNothing` | source/system/shell/shell.c:133-138 | a text that begins with a newline leaves the screen of a fresh shell blank, whatever follows |
| `Shell.Shell.constructor` | source/system/shell/shell.c:6-24 | the shell starts in the initial state, for sizes that are whole rows |
| `Shell.Shell.Clear` | source/system/shell/shell.c:246-256 | every cell blank in the current colour, cursor at 0 |
| `Shell.Shell.Scroll` | source/system/shell/shell.c:114-131 | the in-place copy moves every row up by one and blanks the last in the current colour |
| `Shell.Shell.Put` | source/system/shell/shell.c:62-82 | the loop body is the screen step that the page refinement is about, with the cursor on the screen |
| `Shell.Shell.RenderStream` | source/system/shell/shell.c:60-83 | the 64-byte chunks add up: everything or nothing is drained and typed, in order |
| `Shell.Shell.Render` | source/system/shell/shell.c:55-112 | standard output in the current colour, standard error in red, colour restored |
| `Shell.Shell.WriteStream` | source/system/shell/shell.c:26-38 | the write, the colour reset and the rendering; -1 and no change for a stream index out of range |
| `Shell.Shell.Putc` | source/system/shell/shell.c:50-53 | one character of text |
| `Shell.Shell.Puts` | source/system/shell/shell.c:133-138 | the characters before the terminator, one write each |
| `Shell.Shell.PutInt` | source/system/shell/shell.c:140-172 | types exactly the number's text |
| `Shell.CollectDigits` | source/system/shell/shell.c:162-166 | the digit buffer holds at most 31 digits, lowest first |
| `Shell.Shell.PutBackwards` | source/system/shell/shell.c:168-171 | the buffer is typed from its end |
| `Shell.Shell.PutConversion` | source/system/shell/shell.c:186-222 | each conversion types what it stands for, `(null)` for a null string |
| `Shell.Shell.Printf` | source/system/shell/shell.c:174-244 | types exactly the formatted text, for arguments that fit, surplus ones allowed, and a format not cut off in a conversion |
| `Shell.NumbersAlwaysShow` | source/system/shell/shell.c:140-172 | on an open stream a printed number always reaches the screen whole |
| `Numbers.NumeralValue` | source/system/shell/shell.c:162-166 | the buffer keeps the number modulo `base^31` |
| `Numbers.DigitCharacters` | source/system/shell/shell.c:143-164 | the digits printed are the characters of `0123456789abcdef`, and read back as their places in it |
| `Numbers.PrintedIntReadsBack` | source/system/shell/shell.c:140-172 | the text reads back as the value if and only if the base is not 2 or the unsigned value is below 2^31 |
| `Numbers.PrintedIntIsCanonical` | source/system/shell/shell.c:140-172 | for every value and base there are digits, with a sign exactly before negative numbers in base 10; the first digit is a zero only for 0 and, in base 2, exactly for unsigned values from 2^31 up to below 3 * 2^30 |
| `Numbers.FirstOfMany` | source/system/shell/shell.c:162-171 | when the buffer is full the first digit printed is `(u / base^(limit-1)) % base` |
| `Numbers.CutOffText` | source/system/shell/shell.c:162-171 | for the base 2 numbers from 2^31 on exactly the 31 low digits are printed |
| `Numbers.UnsignedConversions` | source/system/shell/shell.c:198-209 | `%x` reads back as the unsigned word; `%u` does below 2^31 and reads as the negative int from there on |
| `Numbers.NumberConversions` | source/system/shell/shell.c:192-222 | what `%d`, `%u`, `%x`, `%p` and `%c` emit: the text of the signed word in base 10 or 16, `0x` before it for `%p`, the low byte for `%c` |
| `Numbers.StringConversions` | source/system/shell/shell.c:186-191 | `%s` emits the string up to its terminator, and `(null)` for a null pointer |
| `Numbers.OtherConversions` | source/system/shell/shell.c:223-233 | `%%` emits a percent sign, and any other character after a percent sign follows it unchanged |
| `Numbers.ConversionsAreInjective` | source/system/shell/shell.c:192-209 | `%d` and `%x` tell every two words apart |
| `Numbers.FormatLiteral` | source/system/shell/shell.c:236-239 | text without conversions is emitted as it stands |
| `Numbers.FormatConcat` | source/system/shell/shell.c:174-244 | formatting is compositional wherever no conversion is cut |
| `Numbers.SurplusIgnored` | source/kernel.c:60-62 | arguments beyond those the conversions take change nothing |
| `Gdt.SingleByteChangeDetected` | source/boot/gdt/gdt.c:12-24 | changing one byte of a table of any length changes the checksum |
| `Gdt.AdjacentChangesUnseen` | source/boot/gdt/gdt.c:12-24 | replacing two adjacent bytes of any table by any two goes unseen exactly when the second loses twice what the first gains, up to the unit that rotation brings round |
| `Gdt.EarlyChangesUnseen` | source/boot/gdt/gdt.c:12-24 | in the first 23 places of every table the unseen changes of two adjacent bytes are exactly those by `d` and `-2d` |
| `Gdt.LateChangeUnseen` | source/boot/gdt/gdt.c:12-24 | further on there are others: after 24 given bytes, raising one by 1 and lowering the next by 3 goes unseen |
| `Gdt.ChecksumModulo` | source/boot/gdt/gdt.c:17-21 | modulo 2^32-1 the checksum is the doubled state plus the sum of the bytes doubled once a rotation, less at most one such unit for each nonzero byte |
| `Gdt.OverwritingZerosDetected` | source/boot/gdt/gdt.c:12-24 | up to 22 bytes, one of them 2 or more, written over zeros change the checksum from every state |
| `Gdt.DescriptorReadsBack` | source/boot/gdt/gdt.c:26-43 | the processor reads back the whole base, the limit to 20 bits, the access byte and the flags |
| `Gdt.AccessBytes` | source/boot/gdt/gdt.c:113-132 | on the bytes of the table: which entry fields are compared with what, without the accessed bit |
| `Gdt.PatchedBytes` | source/boot/gdt/gdt.c:26-43 | installing an entry writes its own eight bytes of the table and no other |
| `Gdt.AccessedBytes` | source/boot/gdt/gdt.c:94-95 | loading may set bytes 13 and 21 to 0x9B and 0x93, and no other |
| `Gdt.FlatTableMeaning` | source/boot/gdt/gdt.c:45-85 | the table is four flat 4 GiB segments of the four access kinds between two null entries |
| `Gdt.TssChangesChecksum` | source/boot/idt/idt.c:43-47 | for every TSS address, its descriptor over the zeroed entry 5 changes the checksum |
| `Gdt.DescriptorTable.CalculateChecksum` | source/boot/gdt/gdt.c:12-24 | the loop computes the checksum of the table |
| `Gdt.DescriptorTable.SetEntry` | source/boot/gdt/gdt.c:26-43 | writes the eight bytes of one entry, and nothing for an index out of range |
| `Gdt.DescriptorTable.Verify` | source/boot/gdt/gdt.c:104-139 | decides initialisation, checksum, access bytes and table pointer |
| `Gdt.DescriptorTable.Setup` | source/boot/gdt/gdt.c:45-102 | succeeds and verifies, whatever accessed bits loading sets, and leaves entry 5 zero |
| `Gdt.DescriptorTable.InstallTss` | source/boot/idt/idt.c:43-47 | after the TSS entry is written the table no longer verifies |
| `Gdt.Boot` | source/kernel.c:102-113 | the checks in boot order succeed before the TSS is installed, and a check after it would fail |
| `Multiboot.SumRegions` | source/boot/multiboot.c:22-31 | the available lengths modulo 2^64, for every stride of at least 24 |
| `Multiboot.AvailableAddsUp` | source/boot/multiboot.c:26-29 | exactly the regions of type 1 count, each with its whole length, and the lengths add up |
| `Multiboot.FirstMapCounts` | source/boot/multiboot.c:13-33 | tags before the first memory map are passed over, those after it not looked at, and the sum is taken modulo 2^64 |
| `Multiboot.RegionFields` | source/boot/multiboot.h:22-29 | an entry holds base, length and type in 8, 8 and 4 bytes, lowest first |
| `Multiboot.TagFields` | source/boot/multiboot.h:6-11 | a tag holds type and size, lowest byte first, its body, and padding to 8 bytes; a memory map has type 6 |
| `Multiboot.WellFormedTags` | source/boot/multiboot.c:20-38 | strides from 24 on, sizes below 2^32 when rounded up and padding to 8 bytes are all that is asked of a tag |
| `Multiboot.MapFields` | source/boot/multiboot.h:13-20 | a memory map has its stride at byte 8 and its entries from byte 16 |
| `Multiboot.InOrder` | source/boot/multiboot.c:20-38 | tags and entries follow one another with nothing in between |
| `Multiboot.GetMemory` | source/boot/multiboot.c:3-42 | on every well-formed tag list the walk ends with the available memory of the first map, 0 without one or with another magic number |
| `Multiboot.HeadOf` | source/boot/multiboot.c:13-38 | the rounded size leads from each padded tag to the next, and type 0 is the end |
| `Ext2Format.MountArithmetic` | source/system/filesystem/ext2/ext2.c:44-54 | the table is in the block after `s_first_data_block`, and the groups are the ceiling of blocks over blocks per group |
| `Ext2Format.BlockSizes` | source/system/filesystem/ext2/ext2.c:44 | `1024 << s_log_block_size`: the block sizes from 1024 to 65536 one by one |
| `DiskLayout.SuperblockReadsBack` | source/system/filesystem/ext2/ext2.h:12-41 | of a superblock laid out field by field at byte 1024, with any values, the reader gets each field it uses |
| `DiskLayout.TablesReadBack` | source/system/filesystem/ext2/ext2.h:69-81 | of a table of group descriptors with any values, the reader gets each group's inode table |
| `Ext2Format.InodeLocationExact` | source/system/filesystem/ext2/ext2.c:73-84 | block and remainder, in 32 bits, give exactly `table * block_size + index * 128` for every supported block size |
| `Ext2Format.InodeBytes` | source/system/filesystem/ext2/ext2.c:73-88 | the inode is the 128 bytes at `table * block_size + (no - 1) % per_group * 128`, with the table of group `(no - 1) / per_group` |
| `Ext2Format.InodeFits` | source/system/filesystem/ext2/ext2.c:82-88 | the 128 bytes lie inside the group's inode table and the image |
| `Ext2Format.InodesDoNotAlias` | source/system/filesystem/ext2/ext2.c:73-84 | distinct inode numbers have disjoint byte ranges when the tables do not overlap |
| `Ext2Format.BlockSlice` | source/system/filesystem/ext2/ext2.c:146-174 | within one block the flat file is the block's bytes, or zeros for a hole |
| `Ext2Format.ReadByteByByte` | source/system/filesystem/ext2/ext2.c:122-178 | byte by byte: which bytes a read returns, and from which place of which block each comes |
| `DiskLayout.InodeReadsBack` | source/system/filesystem/ext2/ext2.h:43-67 | of an inode laid out field by field, with any values, the reader gets the size, the sector count and each of the twelve block pointers |
| `DiskLayout.FileReadsBack` | source/system/filesystem/ext2/ext2.c:140-175 | so a read takes each byte from the block that the inode record lists for it, or a zero from a hole |
| `DiskLayout.FileOnDisk` | source/system/filesystem/ext2/ext2.c:140-175 | every inode record whose direct pointers lead to the bytes of some contents is the inode of that file |
| `Ext2Format.ReadsConcatenate` | source/system/filesystem/ext2/ext2.c:122-178 | reading `a` then `b` bytes is reading `a + b` bytes, wherever the file ends |
| `Ext2.Kpmalloc` | source/system/filesystem/ext2/ext2.c:7-13 | the least number of sectors that hold the size, at least one, leftmost fit |
| `Ext2.SectorsNeeded` | source/system/filesystem/ext2/ext2.c:9-11 | the number is `max(1, ceil(size / 8192))` |
| `Ext2.Kpmemset` | source/system/filesystem/ext2/ext2.c:15-22 | sets exactly the range |
| `Ext2.Kpmemcpy` | source/system/filesystem/ext2/ext2.c:24-32 | copies the source into exactly its place |
| `Ext2.FileSystem.Mount` | source/system/filesystem/ext2/ext2.c:34-63 | succeeds exactly on the magic number and a free run of `max(1, ceil(groups * 32 / 8192))` sectors, and holds the volume byte for byte; the run becomes one more live region, disjoint from all others, and only bytes of it are written |
| `Ext2.FileSystem.ReadInode` | source/system/filesystem/ext2/ext2.c:67-90 | copies exactly the 128 bytes of the inode; refuses number 0 |
| `Ext2.FileSystem.ReadBlock` | source/system/filesystem/ext2/ext2.c:146-174 | one turn of the loop extends the slice of the flat file read so far |
| `Ext2.FileSystem.ReadFile` | source/system/filesystem/ext2/ext2.c:122-178 | returns exactly `max(0, min(offset + len, size, 12 * block_size) - offset)` bytes, those of the flat file, and leaves the rest of the buffer alone; 0 for null arguments |
| `Directory.WalkBlock` | source/system/filesystem/ext2/ext2.c:102-118 | over one block of records the callback sees the live ones in order, up to a refusal |
| `DiskLayout.RecordFields` | source/system/filesystem/ext2/ext2.h:92-100 | a record holds inode number, length, name length, type and name at their places |
| `DiskLayout.RecordsInOrder` | source/system/filesystem/ext2/ext2.c:104-118 | records follow one another with nothing in between |
| `Directory.ReadDir` | source/system/filesystem/ext2/ext2.c:93-120 | on every directory, holes and any length included, the walk ends after callbacks on exactly the live entries of the blocks it reaches, in block and record order |
| `Directory.LiveSingle` | source/system/filesystem/ext2/ext2.c:108-113 | a record is left out for inode number 0 and nothing else, and every other gives its own name and number |
| `Directory.LiveConcat` | source/system/filesystem/ext2/ext2.c:104-118 | the entries of a sequence of records are those of its parts in order |
| `Directory.ReachedBlocks` | source/system/filesystem/ext2/ext2.c:95-99 | block `b` is reached if it is there, `b < 12`, and `i_blocks` covers the sectors up to its end |
| `Directory.ReachedEntries` | source/system/filesystem/ext2/ext2.c:95-99 | the entries seen are a prefix of the directory, and all of it if and only if no block left out holds an entry |
| `Directory.WholeIffNoHoles` | source/system/filesystem/ext2/ext2.c:95-99 | with `i_blocks` the sectors in use, the walk reaches the whole directory, as long as its size says, if and only if it has no holes and at most 12 blocks |
| `DiskLayout.DirectoryOnDisk` | source/system/filesystem/ext2/ext2.c:93-120 | every inode record whose direct pointers lead to blocks of records is the inode of that directory |
| `Directory.CallsMade` | source/system/filesystem/ext2/ext2.c:112 | the calls made are the entries up to and including the first refusal |
| `Loader.StrcmpMeaning` | source/kernel.c:37-44 | 0 exactly for equal strings, negative exactly for dictionary order |
| `Loader.StrcmpValue` | source/kernel.c:37-44 | the value is the difference of the first two bytes that differ |
| `Loader.TestStrcmp` | source/kernel.c:37-44 | the loop computes that comparison |
| `Loader.NameArrives` | source/system/filesystem/ext2/ext2.c:110-111 | a name without zero bytes reaches the callback as it is |
| `Loader.FirstNamed` | source/kernel.c:46-57 | the place of the first of a list of names that equals the target, or none when no name does |
| `Loader.FindIsFirst` | source/kernel.c:46-91 | the walk with the callback, through the name buffers and the string comparison, finds the first entry whose name equals the target |
| `Loader.FindInode` | source/kernel.c:68-91 | the inode number of the first live root entry of that name among those the walk reaches, or 0 |
| `Loader.LookupReaches` | source/kernel.c:68-91 | that is the first file of that name in the whole directory, provided the walk reaches it |
| `Loader.AllReached` | source/system/filesystem/ext2/ext2.c:95-99 | every file is reached exactly when no block left out holds an entry, and so whenever there are no holes and at most 12 blocks |
| `Loader.Load` | source/system/usermode/usermode.c:22-40 | on a list of files by name: the first file of that name, if reached, comes whole when it fits in 12 blocks and is reported incomplete with its length otherwise; nothing else of memory changes, and nothing at all when it is not found |
| `Loader.MountAndLoad` | source/kernel.c:139-145 | from a raw image: mounted exactly when the table's run is free, which then is a live region apart from all others, and the load delivers from the list of files by name; not mounted, nothing changes |
| `SampleImage.SampleEncodes` | source/system/filesystem/ext2/ext2.c:34-120 | a concrete image, with and without a hole in its root directory, meets all that is asked of one |
| `SampleImage.HoleHidesFile` | source/system/filesystem/ext2/ext2.c:95-99 | in that image the file is the first of its name, and the walk reaches it without the hole and misses it with the hole |

## Left out

- Shell.Shell.constructor: requires the size to be a whole number of rows and at least one; with a ragged last row the scroll loop and the cursor arithmetic of the source disagree.
- Shell.Shell.Printf: requires arguments of the kinds the conversions take and a format that does not end in a lone `%`, where the source reads past the terminator.
- Numbers.PrintedIntReadsBack: the negation of the least int, undefined in C, is taken to wrap, and bases are 2 to 16.
- PhysicalMemory.Allocator.AllocSectors: beyond 65536 managed sectors, requires a run that is there to be found; without one the source reads past its bitmap. `Ext2.Kpmalloc` and the mount ask for the same.
- PhysicalMemory.Allocator.FreeSector: requires an address whose sector index lies in the bitmap, for the same reason.
- Multiboot.GetMemory: requires a well-formed tag list; on a tag or an entry stride of size 0 the source does not end.
- Ext2.Kpmalloc: requires a size that is not within 8 KiB of 4 GiB, where the source's loop does not end.
- Ext2.FileSystem.Mount: requires, of an image with the right magic number, sizes that fit 32 bits and a descriptor table inside the image; a zero `s_blocks_per_group` divides by zero in the source.
- Ext2.FileSystem.ReadFile: requires `offset + len` and the rounded size not to wrap and the block pointers to lie in the image.
- Loader.FindIsFirst: requires names without zero bytes, as the layout has them.
- Loader.Load: requires the name not to be that of something other than a file, such as a short symbolic link whose target is stored in its block pointers.
- Directory.IsDirectory: the records of blocks behind indirect pointers are not tied to the image; the source never reads them.
- Directory.ReadDir: the callback is a function from a context to a context, in place of a C function pointer that writes through `ctx`.
- StdinPreemption.EveryInterleavingConserves: takes `count--` as one step; TornDecrement.TornDecrementLosesKeys takes it as two. A slot test beyond the ring, possible for reads of more than 1024 bytes, has an arbitrary outcome.
- Rendering that a keyboard interrupt enters while another write is rendering: unsynchronised in the source and not part of this model.
- The image is a value, so a caller's buffer that overlaps the image, or the descriptor table in managed memory, is not captured.
- The directory listing and the messages the kernel prints on the way from image to program.
- Processes, the switch to user mode, the other system calls, the exception handlers, the interrupt table entries and the keymap: flat case analysis or hardware.
- Port I/O, the interrupt controller, loading of tables and segment registers beyond the accessed bits, and inline assembly.
- Indirect blocks, large inodes, 64-bit file sizes and writing, which the source does not implement.
- The virtual memory manager, whose code is commented out.
- That allocated sectors avoid the kernel image: the managed region is abstract memory here.
- Nothing was executed.
