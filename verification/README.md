# Verified model of 88os

This project models the self-contained parts of the 88os kernels and proves what they are
for. Each module follows one part of the repository. A routine that changes things step by
step is a Dafny method on a class with the same fields; it is proved equal to a function of
the old state, and the promises are lemmas about those functions, over every input or every
run. Check it with `dafny verify dfyconfig.toml`.

- **Stage-two boot loader** (`Memory`, `MemoryMap`, `KernelLoad`, `Paging`,
  `TranslationCache`, `Loader`). Memory is one array of bytes. The loader collects the BIOS
  memory map, reads the kernel through cylinder/head/sector addresses, builds page tables
  with real-mode stores, turns paging on, moves the kernel, fills a full set of tables and
  replaces the directory it is running through. `Paging` numbers every one of its 1175555
  memory operations and proves the page walk after each. `TranslationCache` runs the same
  operations on a processor that translates every operand, with a TLB and a cache of
  directory entries that are filled and evicted at will. `MemoryMap` also has the kernel's
  parser of the map.
- **Terminals** (`Terminal`, `Transcript`, `StatusLine`, `Console`, `Tty`). One terminal as a
  value; the unbounded transcript it shows the end of; the `[OK]`/`[FAIL]` line; eight
  terminals with a display device that sees only callbacks; and the same in place.
- **ATA PIO driver** (`Ata`). The driver against a drive with arbitrary finite delays.
- **Raster code** (`Raster`). Lines, circles, rectangles and the root search.
- **Interrupt table** (`Idt`), **substitution** (`Substitution`), **shell line editor and
  tokeniser** (`Shell`), **boot disk search** (`BootDisk`).

Several natural promises hold only under a condition. The code is modelled as it is, and the
exact condition is proved:

- the BIOS map is packed correctly exactly if every call finds a free slot, or if the map
  fills the segment and its first 8 bytes already are what the calls made without room put
  there: the attribute forced at offset 20 wraps around the segment, and so do the BIOS's
  bytes past the 16th (`MemoryMap.PackedExactly`);
- the kernel finds the right 32-bit entry count exactly if memory held the right upper half,
  because the loader stores 16 bits of it in memory that nothing clears (`Loader.BootedMap`);
- `getchs` inverts the linear address exactly when the cylinder fits a byte;
- an accepted disk request stays in the partition exactly when its end does not wrap around
  32 bits (`Ata.AcceptedStaysInPartition`); those that wrap are all accepted
  (`Ata.WrapIsAccepted`), one sector at offset FFFFFFFFh among them (`Ata.LastSectorEscapes`);
- `tty_scroll` moves rows for every content exactly when the width is even, and the packed
  fill covers the grid exactly when the number of cells is even;
- a cell keeps its colour, and the device stays in step with it, exactly when the character
  is 7-bit or the colour is all ones (the character is a signed `char`);
- printing in two parts is printing the whole exactly when the first part does not end in an
  unfinished colour escape;
- the padding loop of `kprint_ok_fail` ends exactly when its 32-bit bound is below 256 (the
  counter has 8 bits);
- `drawline` passes through both endpoints exactly when the major coordinate ascends or the
  line is parallel to an axis;
- the installer's substitution leaves no placeholder, whatever the text, exactly for the pairs
  of placeholder and replacement that `Substitution.CleanIsExact` describes; for a marked
  name such as `$DRIVE$` and a replacement without `$`, exactly if the replacement does not
  occur in the name (`Substitution.MarkedPlaceholder`);
- the file system is opened on the disk found exactly when that disk is not an AHCI disk past
  number 123.

## Model

| member | source | states |
|---|---|---|
| `Memory.ReadAfterStore` | bootloader/oldbootloader2.asm:316 | a 32-bit store is read back at its address and disturbs no word that it does not overlap |
| `MemoryMap.SlotMeans` | bootloader/oldbootloader2.asm:88-101 | a 24-byte response is stored as it is, a 20-byte one with the attributes forced to 1 |
| `MemoryMap.WantedMeans` | bootloader/oldbootloader2.asm:94-104 | a response is wanted exactly when its size is nonzero, the length it decodes to is nonzero, and it is at most 20 bytes long or its decoded ACPI attributes have bit 0 |
| `MemoryMap.KeptIsWanted` | bootloader/oldbootloader2.asm:86-113 | the list to store is the wanted ones, in order, of the responses up to the first with EBX 0 or before the first with carry |
| `MemoryMap.AcceptsIsWanted` | bootloader/oldbootloader2.asm:95-107 | at every offset the loop can reach, wrapped or not, the tests on memory accept exactly the wanted responses: nonzero size and length, no ACPI ignore mark |
| `MemoryMap.CountIsKept` | bootloader/oldbootloader2.asm:105-113 | for every run, room or not, the stored count is the number of wanted responses modulo 2^16 |
| `MemoryMap.PackedExactly` | bootloader/oldbootloader2.asm:86-113 | for every run, exactly the wanted responses end up stored, in order, 24 bytes apart, if and only if every call finds a free slot, or there are 2730 of them and what the later calls write over the first 8 bytes is what was there |
| `MemoryMap.CollectPacks` | bootloader/oldbootloader2.asm:86-113 | with a free slot at every call exactly the wanted responses are stored and counted |
| `MemoryMap.FewKeptIsRoomy` | bootloader/oldbootloader2.asm:105-106 | fewer than 2730 wanted responses leave a free slot for every call |
| `MemoryMap.CollectStaysInside` | bootloader/oldbootloader2.asm:68-113 | the loop writes nothing outside segment 3000h, room or not |
| `MemoryMap.EncodeRoundTrip` | kernel/src/kernel_main.cpp:54-57 | a 24-byte ACPI entry decodes to the fields it was made of |
| `MemoryMap.ParseMap` | kernel/src/kernel_main.cpp:44-66 | entry i is the quadwords at 30000h+24i and 30008h+24i and the doublewords at 30010h+24i and 30014h+24i, for any count; the RAM total is the sum of type 1 lengths modulo 2^64; the kernel goes on exactly with 50 MB or more, in 32 bits |
| `MemoryMap.ParsedExactly` | kernel/src/kernel_main.cpp:51-63 | the kernel parses a given list exactly when the count is its length and memory holds its slots |
| `KernelLoad.GetChsInverts` | bootloader/oldbootloader2.asm:291-302 | head and sector always belong to the geometry, and the address inverts (cyl*heads+head)*spt+sect-1 exactly when the linear address is below 256 cylinders |
| `KernelLoad.LoadImageIsContiguous` | bootloader/oldbootloader2.asm:141-173 | for every geometry the two reads leave 240 consecutive sectors from disk sector 3 at 9000h, and nothing else changes |
| `Paging.LayoutHolds` | bootloader/oldbootloader2.asm:309-356 | what directory and tables hold after every single operation of the run |
| `Paging.TablesInNumbers` | bootloader/oldbootloader2.asm:309-356 | the entries in numbers: 2A003h, 2B003h and 2 in the directory and the first 8 MB in the two low tables while the loader runs; in the end entry d is the table in frame 200h+d, which maps page 1024*d+i |
| `Paging.FieldHolds` | bootloader/oldbootloader2.asm:361-366 | from the switch on, the doubleword at 860Ah holds the directory's address 29000h |
| `Paging.UnwrittenHolds` | bootloader/oldbootloader2.asm:306-452 | no byte outside the tables, the image target and one field of the info block ever changes, so neither does the BIOS map |
| `Paging.ImageHolds` | bootloader/oldbootloader2.asm:425-429 | each byte of the image, once moved to 1 MB, stays there |
| `Paging.WalkIsIdentity` | bootloader/oldbootloader2.asm:315-375 | from the moment paging is on, after every operation, the two-level walk maps a page to itself, present and writable, or faults; below 8 MB it never faults |
| `Paging.TranslationIsIdentity` | bootloader/oldbootloader2.asm:431-452 | every address below 8 MB translates to itself at every step, and every 32-bit address does at the end |
| `TranslationCache.CachedUntilEvicted` | bootloader/oldbootloader2.asm:432-457 | a cached translation is used until it is evicted, whatever memory comes to say, so the caches are not idle in the model |
| `TranslationCache.StepCoherent` | bootloader/oldbootloader2.asm:361-375 | executing, caching or evicting keeps every cached translation and directory entry in agreement with memory |
| `TranslationCache.CachesAreInvisible` | bootloader/oldbootloader2.asm:432-457 | for every sequence of executions, speculative cache fills and evictions, no operand faults, memory is as if no address were translated, and every lookup equals the walk of the current tables, with no flush |
| `Loader.BootedImage` | Makefile:286-289 | at the call of the kernel, each of the 122880 bytes from disk byte 1536 on is at its place from 100000h on |
| `Loader.BootedMap` | bootloader/oldbootloader2.asm:113-116 | at the call of the kernel, for every run, the BIOS map is stored exactly under the condition of `PackedExactly`, the 32-bit count is right exactly if memory held its upper half, and the address is right |
| `Loader.KernelReadsMap` | kernel/src/kernel_main.cpp:44-63 | for at most 2730 entries to store, what the kernel parses with the count it finds is the list the BIOS described exactly if the map is packed and the upper half of the count was 0 |
| `Loader.BootedTranslation` | bootloader/oldbootloader2.asm:443-457 | at the call of the kernel, every 32-bit address translates to itself |
| `Loader.Machine.CollectMap` | bootloader/oldbootloader2.asm:63-126 | goes on exactly when the BIOS's first answer has carry clear, EAX 534D4150h and EBX nonzero; memory is then that of the collecting function, 16-bit wrap included |
| `Loader.Machine.ConvertLba` | bootloader/oldbootloader2.asm:291-302 | the two divisions give the byte-sized cylinder, head and sector |
| `Loader.Machine.LoadKernel` | bootloader/oldbootloader2.asm:128-175 | keeps the geometry and leaves both blocks of the image in memory |
| `Loader.Machine.EnablePaging` | bootloader/oldbootloader2.asm:306-366 | the real-mode loops perform the operations up to the switch, in order |
| `Loader.Machine.EnterKernel` | bootloader/oldbootloader2.asm:425-452 | the copy and the two table loops perform all the remaining operations, in order |
| `Loader.Machine.Boot` | bootloader/oldbootloader2.asm:59-457 | reaches the kernel exactly when the BIOS's first answer has carry clear, EAX 534D4150h and EBX nonzero; then the 122880 bytes at disk byte 1536 are at 100000h, every 32-bit address translates to itself, 860Ah holds the directory's address, and memory is as the lemmas above describe |
| `Loader.Machine.BootAndParse` | kernel/src/kernel_main.cpp:41-66 | under the same first answer, the loader and then the kernel's first loop: the parsed list is the BIOS's exactly if the map is packed and the upper half of the count was 0, and the RAM total and the 50 MB test are over that list |
| `Terminal.ScrollIsRowShift` | kernel/tty.c:140-150 | the two-cells-at-a-time scroll is a row shift with a zero last row for every content exactly when the width is even |
| `Terminal.FillCoversGrid` | kernel/tty.c:111-117 | the packed fill reaches every cell exactly when the number of cells is even |
| `Terminal.PrintedMotion` | kernel/tty.c:201-211 | byte 8 moves the cursor left by one unless it is at column 0, byte 13 moves it to column 0 |
| `Terminal.PrintedNewline` | kernel/tty.c:196-200 | byte 10 moves to the start of the next row; on the last row, at even width, every row moves up and the last is cleared |
| `Terminal.PrintedCharacter` | kernel/tty.c:212-220 | any other byte but 1 is stored at the cursor as color*256+ch, or FF00h+ch above 127, and the cursor moves on, after the last column as for a newline |
| `Terminal.PrintedEscape` | kernel/tty.c:187-195 | after byte 1 the next byte becomes the colour; alone at the end it does nothing |
| `Terminal.PrintAppend` | kernel/tty.c:182-227 | printing two texts is printing their concatenation when the first is not inside an escape |
| `Terminal.PrintIsHomomorphism` | kernel/tty.c:187-195 | that holds for every screen and every second text exactly when the first does not end in an unfinished escape |
| `Transcript.PrintShowsTranscript` | kernel/tty.c:129-227 | at even width the screen after any text is the last h lines of the transcript, with its cursor and colour |
| `Transcript.FillThenPrint` | kernel/tty.c:111-227 | after a fill, every sequence of prints shows the end of one transcript that starts blank |
| `Transcript.HistoryIsFixed` | kernel/tty.c:129-138 | lines above the one in use never change again |
| `StatusLine.PaddingEnds` | kernel/tty.c:333-336 | the 8-bit counter ever reaches the bound exactly when the bound is below 256 |
| `StatusLine.StatusFillsRow` | kernel/tty.c:325-348 | on a transcript from column 0, message, padding and tag fill exactly one row, tag flush right, and move to the next line |
| `StatusLine.RowCells` | kernel/tty.c:338-345 | the cells of that row in numbers: message and spaces in the terminal's colour, OK in colour 2, FAIL in colour 4, the last bracket in colour 7 |
| `Console.CallIsLocal` | kernel/tty.c:78-348 | a call, the status routine and the colour setter included, changes its own terminal as if it were alone and no other, and off display it does not touch the device |
| `Console.SetCharShadows` | kernel/tty.c:161-171 | one character keeps the device equal to the grid exactly when the terminal is off display, the character is 7-bit, or the colour is FFh |
| `Console.RunShadows` | kernel/tty.c:78-348 | over every run of prints, fills, strings, switches, colour changes and status lines of 7-bit text, the device shows exactly the grid of the current terminal, and the cursor at its column and row |
| `Console.RunIsInterleaving` | kernel/tty.c:78-227 | after any interleaving every terminal is as if its own calls had run alone |
| `Console.StatusOnScreen` | kernel/tty.c:325-348 | the separate prints of the status routine are one print, with the colour put back |
| `Console.StatusShowsRow` | kernel/tty.c:325-348 | on a terminal showing a transcript, the status routine adds exactly one full row and keeps the colour |
| `Tty.Tty.CopyDown` | kernel/tty.c:143-146 | the forward copy onto an overlapping range equals the copy of the old cells |
| `Tty.Tty.ScrollCells` | kernel/tty.c:140-150 | the scroll loops leave the scrolled grid, for every width |
| `Tty.Tty.FillCells` | kernel/tty.c:111-117 | the packed fill loop leaves the filled grid |
| `Tty.Console.constructor` | kernel/tty.c:15-30 | eight sound terminals, the first on display and shown |
| `Tty.Console.Scroll` | kernel/tty.c:140-159 | scroll, then the callbacks for the terminal on display |
| `Tty.Console.NewLine` | kernel/tty.c:129-138 | next row, scrolling at the bottom; no other terminal changes |
| `Tty.Console.SetChar` | kernel/tty.c:161-171 | the cell x+y*w becomes color*256+ch for a 7-bit character, FF00h+ch for another, and no other cell changes; on display the device draws that character in that colour |
| `Tty.Console.SetString` | kernel/tty.c:173-180 | character i lands in cell x+i%width+(y+i/width)*w, as color*256+ch when it is 7-bit; no other cell, and neither cursor nor colour of the terminal, changes |
| `Tty.Console.FillColor` | kernel/tty.c:111-127 | every cell that has a pair becomes a space in the colour, a last odd one stays, the cursor goes to the origin, and the callbacks are made |
| `Tty.Console.Switch` | kernel/tty.c:78-91 | the terminal on display changes and the device with it |
| `Tty.Console.Print` | kernel/tty.c:182-227 | the whole new state of the eight terminals and the device; the result is the length of the text |
| `Tty.Console.SetColor` | kernel/tty.c:254-257 | the colour of one terminal and nothing else |
| `Tty.Console.PrintOkFail` | kernel/tty.c:325-348 | the whole new state after the status routine, for a bound below 256; the result is the width |
| `Ata.WordsOfWritten` | kernel_main.c:874-888 | sectors written to a disk are read back the same |
| `Ata.StatusBits` | kernel_main.c:876-937 | the tests on the status are those of the masks 01h, 08h, 40h and 80h |
| `Ata.RefusedExactly` | kernel_main.c:847-857 | the checks let through exactly up to 127 sectors that all lie on the partition, sectors 33543720 to 50315579, or whose end wraps |
| `Ata.AcceptedStaysInPartition` | kernel_main.c:847-868 | an accepted request loses no address bits, and touches only the partition exactly when its end does not wrap |
| `Ata.Drive.Status` | kernel_main.c:876 | the assumed drive: DRQ reads 0 until the data is ready, busy until a flush is over |
| `Ata.Drive.OutW` | kernel_main.c:945 | the assumed drive: a word sent without DRQ is lost, the 256th commits the sector and drops DRQ |
| `Ata.Driver.Read` | kernel_main.c:844-891 | returns 0 exactly for at most 127 sectors whose end is at most 16771860 or wraps, so, without wrap, exactly when all of them are on the partition; then sector i of the request is in the buffer, the disk is left alone and the drive idle; refused requests change nothing |
| `Ata.Driver.AwaitReady` | kernel_main.c:927-939 | the four status tests end for every finite delay and only when the drive takes data |
| `Ata.Driver.Write` | kernel_main.c:895-959 | accepts exactly the same requests; then each sector of the partition that is addressed holds its 256 words, every other sector of the disk is kept, and the drive is idle after the flush; refused requests change nothing |
| `Ata.Driver.WriteThenRead` | kernel_main.c:844-959 | under the same acceptance, a write and a read of the same 1 to 127 sectors return the same words, and no other sector changes |
| `Raster.PaintShows` | kernel_main.c:622-632 | on screen, setting a list of pixels colours exactly those and leaves all others |
| `Raster.PaintedBytes` | kernel_main.c:622-632 | a listed pixel on screen leaves blue, green, red and 0 from byte 4*(x+1280*y) on |
| `Raster.LineIsSound` | kernel_main.c:739-766 | for distinct endpoints and ascending major axis: max(dx,dy)+1 pixels, first and last on the endpoints, 8-connected, monotone, each off the true line by less than one |
| `Raster.EndpointsDrawn` | kernel_main.c:741-757 | both endpoints are drawn exactly when the major coordinate ascends or the line is parallel to an axis |
| `Raster.LineShows` | kernel_main.c:721-768 | a line between points on screen colours exactly its pixels |
| `Raster.RootOfSquare` | kernel_main.c:831-832 | a perfect square gets one less than its root |
| `Raster.CircleCovers` | kernel_main.c:780-811 | for every column and every row strictly inside the radius, both points of the circle on it are plotted, on opposite sides of the centre |
| `Raster.CirclePixelsOnly` | kernel_main.c:780-811 | every plotted pixel is at a pole of its sweep or is the last of its column or row strictly inside the circle |
| `Raster.CirclePixelsHug` | kernel_main.c:780-811 | in all four sweeps every pixel away from the poles is strictly inside the circle, and the next one outward is on it or outside |
| `Raster.RectIsFilled` | kernel_main.c:814-826 | the pixels of a rectangle are exactly the points inside it |
| `Raster.Surface.DrawLine` | kernel_main.c:721-768 | plots the line's pixels in order and paints exactly them |
| `Raster.Surface.Sqrt` | kernel_main.c:828-834 | returns that root for every n of at least 1, and nothing in particular below |
| `Raster.Surface.DrawCircle` | kernel_main.c:770-812 | four sweeps of radius+1 pairs, each at the root of its radicand, so the pixels are those of the three lemmas above; nothing for a negative radius |
| `Raster.Surface.FillRect` | kernel_main.c:814-826 | the running offset paints exactly the rectangle's pixels |
| `Idt.Decodes` | include/idt.c:30-61 | offset, selector, zero byte and type of a gate, and opcodes, handler and selector of a wrapper, read back from the bytes |
| `Idt.InstallOnly` | include/idt.c:82-107 | one call makes its own gate and wrapper live, marks the gap not present, and disturbs no live gate or wrapper of another number |
| `Idt.AnyRunServesLatest` | include/idt.c:63-107 | after any sequence of calls the table serves exactly the latest request of each number; count is one past the largest, the limit is 8*count-1, gaps are not present |
| `Idt.ServedInterrupt` | include/idt.h:12-45 | in such a table an installed number's gate selects segment 8 and its own wrapper, and from there its handler; any other number is past the limit or not present |
| `Idt.ServedBytes` | include/idt.h:16-45 | the same in bytes of memory at 6C00h+8n and 7400h+11n |
| `Idt.Builder.SetIsrWrapper` | include/idt.c:30-35 | the 11 bytes at 7400h+11n: pushad, cld, far call to 8:handler, popad, iretd |
| `Idt.Builder.SetIdtGate` | include/idt.c:43-61 | the 8 bytes at 6C00h+8n: the halves of the offset by shifting, the selector, zero and the type |
| `Idt.Builder.AddNullGates` | include/idt.c:63-74 | the gates up to the number are empty and the count reaches it |
| `Idt.Builder.InstallInterrupt` | include/idt.c:82-107 | the whole new table; the number's gate selects segment 8, its type and its own wrapper, which calls the handler |
| `Substitution.SubstIsJoin` | install.cpp:159-167 | however a text is cut at the leftmost occurrences, substituting is joining the pieces with the replacement |
| `Substitution.Cut` | install.cpp:163 | every text can be cut that way |
| `Substitution.CleanIsExact` | install.cpp:159-167 | no text keeps a placeholder if and only if the placeholder is not in the replacement, no beginning of it ends the replacement, and no beginning that may precede a first occurrence is completed by the replacement or across it |
| `Substitution.PlaceholderGone` | install.cpp:207-211 | for such a pair the result of every text is free of the placeholder |
| `Substitution.MarkedPlaceholder` | install.cpp:207-211 | for a name between two `$` and a replacement without `$`, no text keeps a placeholder if and only if the replacement does not occur in the name |
| `Substitution.DeletionIsClean` | install.cpp:159-167 | deleting a placeholder leaves none, whatever the text, if and only if its characters are all equal |
| `Substitution.DisjointIsClean` | install.cpp:159-167 | a replacement without any character of the placeholder leaves none if it is not empty or the placeholder is one character |
| `Substitution.ReplaceInString` | install.cpp:159-167 | ends for every input with the leftmost, non-overlapping substitution that never rescans inserted text |
| `Shell.NewlineHandsOver` | include/shell.c:290-314 | at a newline the command is the keys since the last one, folded with backspace, and the newline |
| `Shell.BackspaceCancels` | include/shell.c:294-304 | a backspace cancels the character typed before it, wherever the two stand; on an empty line it does nothing |
| `Shell.TypedPlain` | include/shell.c:302-306 | keys other than backspace are appended |
| `Shell.FieldsRejoin` | include/shell.c:225-244 | fields hold neither space nor newline, every separator is one of the two, and together they give the text back |
| `Shell.CommandRejoins` | include/shell.c:216-246 | a command's fields and separators give back all of it |
| `Shell.ExitExactly` | include/shell.c:264-267 | a command ends the session exactly if it begins with `exit` and a space or newline |
| `Shell.Shell.Push` | include/shell.c:140-147 | appends the key, or drops it when the buffer is full |
| `Shell.Shell.Pop` | include/shell.c:149-158 | takes the last key off, or yields 0 |
| `Shell.Shell.Read` | include/shell.c:160-164 | the line, terminated, when there is room |
| `Shell.Shell.Tokenise` | include/shell.c:216-246 | row k of the table is field k, terminated, and argc is one less than their number |
| `Shell.Shell.Session` | include/shell.c:281-317 | over any keys that never overfill the buffer, the commands handed over are those typed, up to `exit` |
| `BootDisk.Search.FindBootDisk` | kernel/src/kernel_main.cpp:171-274 | finds a disk whose first sector has the boot signature at byte 442 if there is one, and no such disk comes before it: IDE, then AHCI, then USB, by number; leaves its first sector in the buffer, and opens the file system there unless it is an AHCI disk past number 123 |

## Left out

- Failing reads: a failed INT 13h read reboots the machine, and a disk read that leaves the search buffer stale is not modelled; every modelled read delivers its sectors.
- Video modes, the GDT, the stack at 1F0000h, the first-stage boot sector and the bytes the VBE calls store in the info block are not modelled.
- Loader.KernelReadsMap: says nothing of more than 2730 entries to store, which the segment cannot hold, nor of a count that leads past the end of memory.
- Loader.Machine.ReadSectors: the BIOS is assumed to read 120 consecutive sectors across the ends of tracks and heads, which real ones may refuse.
- KernelLoad.LoadImageIsContiguous: the first read names sector 4 of the first track whatever the geometry; on tracks of fewer than 4 sectors the BIOS is assumed to take it for the fourth sector of the disk.
- The BIOS is assumed to write at most the 24 bytes asked for, and at least 20 when it reports a nonzero size.
- Loader.Machine.LoadKernel: a geometry with no sectors on a track, on which the code divides by zero, is excluded.
- Raster.Surface.DrawLine: equal endpoints, on which the code divides by zero, are excluded.
- The order of bytes the BIOS writes past the end of segment 3000h is assumed to wrap at 64 KB; it matters only for runs without room.
- Raster coordinates and products are mathematical integers; 32-bit signed overflow, undefined in C, is not modelled, and pixel offsets wrap at 32 bits as unsigned arithmetic does.
- Raster.Surface.DrawCircle: says nothing about the pixels at the two poles of each sweep, where the root search returns no value.
- The display device is assumed to draw the character it is given in the colour it is given, and to show the grid and cursor it is told to show.
- Spinlocks, the choice of a process's terminal, the numeric print wrappers, and runs with a missing display callback are not modelled.
- Ata.Driver.Read: for a count of zero the code sends a command for 256 sectors and transfers none; the contract then says only that disk and buffer keep their content.
- Ata.Driver.Write: the messages printed while the drive is not ready are not modelled.
- The opcode constants of the interrupt wrappers and the size of the shell buffer are defined outside the modelled files; the x86 encodings and an arbitrary size are used. asm.h is not part of this model.
- Shell echo, help texts and the other commands have no effect on the session and are not modelled.
- Kernel initialisation around the boot disk search is not modelled, including the write through the EHCI driver pointer that happens even when there is no such driver (kernel/src/kernel_main.cpp:264).
- The second copy of the interrupt table code in include/idt.c repeats the first.
