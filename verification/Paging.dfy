/**
 The memory writes of the stage-two loader from the moment it starts to build page
 tables until it calls the kernel, as a straight-line program of `TOTAL` operations,
 and the 32-bit page walk of Intel SDM volume 3A, section 4.3, over the memory that
 program writes.
 */
module Paging {
  import opened Memory

  const PAGES: nat := 0x10_0000     // pages in 4 GB
  const RAM_MIN: nat := 0x60_0000   // the page tables end here

  // Page frames that hold the directory and the tables.
  const DIRECTORY: nat := 0x29      // the frame loaded into CR3
  const LOW_TABLE0: nat := 0x2A
  const LOW_TABLE1: nat := 0x2B
  const FULL_TABLES: nat := 0x200   // the first of 1024 frames

  const IMAGE_SOURCE: nat := 0x9000
  const IMAGE_TARGET: nat := 0x10_0000
  const IMAGE_SIZE: nat := 512 * 240
  const DIRECTORY_FIELD: nat := 0x860A  // kernel_info_block.page_directory

  // Numbers of operations done when each part of the program ends.
  const PAGING_ON: nat := 3 * 1024 + 3
  const COPY_DONE: nat := PAGING_ON + IMAGE_SIZE
  const TABLES_DONE: nat := COPY_DONE + PAGES
  const TOTAL: nat := TABLES_DONE + 1024

  datatype Op = StoreWord(addr: nat, value: Word) | CopyByte(src: nat, dst: nat)

  /** The operands lie in memory of `size` bytes, and words are aligned but for one field. */
  predicate Fits(op: Op, size: nat)
  {
    match op
    case StoreWord(a, _) => (a % 4 == 0 || a == DIRECTORY_FIELD) && a + 4 <= size
    case CopyByte(s, d) => s < size && d < size
  }

  function Apply(m: seq<Byte>, op: Op): (r: seq<Byte>)
    requires Fits(op, |m|)
    ensures |r| == |m|
  {
    match op
    case StoreWord(a, w) => Store32(m, a, w)
    case CopyByte(s, d) => Put(m, d, [m[s]])
  }

  /** Operation number `k` of the loader. */
  function BootOp(k: nat): (op: Op)
    requires k < TOTAL
    ensures Fits(op, RAM_MIN)
  {
    if k < 1024 then StoreWord(0x1000 * DIRECTORY + 4 * k, 2)
    else if k < 2048 then StoreWord(0x1000 * LOW_TABLE0 + 4 * (k - 1024), 3 + 0x1000 * (k - 1024))
    else if k < 3072 then StoreWord(0x1000 * LOW_TABLE1 + 4 * (k - 2048), 0x40_0003 + 0x1000 * (k - 2048))
    else if k == 3072 then StoreWord(0x1000 * DIRECTORY, 0x1000 * LOW_TABLE0 + 3)
    else if k == 3073 then StoreWord(0x1000 * DIRECTORY + 4, 0x1000 * LOW_TABLE1 + 3)
    else if k == 3074 then StoreWord(DIRECTORY_FIELD, 0x1000 * DIRECTORY)
    else if k < COPY_DONE then CopyByte(IMAGE_SOURCE + (k - PAGING_ON), IMAGE_TARGET + (k - PAGING_ON))
    else if k < TABLES_DONE then StoreWord(0x1000 * FULL_TABLES + 4 * (k - COPY_DONE), 3 + 0x1000 * (k - COPY_DONE))
    else StoreWord(0x1000 * DIRECTORY + 4 * (k - TABLES_DONE), 0x1000 * FULL_TABLES + 3 + 0x1000 * (k - TABLES_DONE))
  }

  /** Memory after the first `k` operations, each going to the physical address it names. */
  function Run(m: seq<Byte>, k: nat): (r: seq<Byte>)
    requires |m| >= RAM_MIN && k <= TOTAL
    ensures |r| == |m|
    decreases k
  {
    if k == 0 then m else Apply(Run(m, k - 1), BootOp(k - 1))
  }

  lemma RunNone(m: seq<Byte>)
    requires |m| >= RAM_MIN
    ensures Run(m, 0) == m
  {
  }

  lemma RunStore(m: seq<Byte>, k: nat, a: nat, w: Word)
    requires |m| >= RAM_MIN && k < TOTAL && BootOp(k) == StoreWord(a, w)
    ensures a + 4 <= |m| && Run(m, k + 1) == Store32(Run(m, k), a, w)
  {
    hide BootOp, Store32;
  }

  lemma RunCopy(m: seq<Byte>, k: nat, s: nat, d: nat)
    requires |m| >= RAM_MIN && k < TOTAL && BootOp(k) == CopyByte(s, d)
    ensures s < |m| && d < |m| && Run(m, k + 1) == Run(m, k)[d := Run(m, k)[s]]
  {
    hide BootOp;
  }

  /** Operations `k` to `k + 1023` fill a table through real-mode segment `segment`. */
  ghost predicate FillsTable(k: nat, segment: nat, first: Word, ascending: bool)
    requires k + 1024 <= TOTAL && first <= 0x40_0003
  {
    forall i :: k <= i < k + 1024 ==> BootOp(i) == FillOp(segment, first, ascending, i - k)
  }

  function FillOp(segment: nat, first: Word, ascending: bool, i: nat): (op: Op)
    requires i < 1024 && first <= 0x40_0003
  {
    StoreWord(segment * 16 + 4 * i, if ascending then first + 0x1000 * i else first)
  }

  lemma RealModeTables()
    ensures FillsTable(0, 0x2900, 2, false)
    ensures FillsTable(1024, 0x2A00, 3, true)
    ensures FillsTable(2048, 0x2B00, 0x40_0003, true)
    ensures BootOp(3072) == StoreWord(0x2_9000, 0x2_A003) && BootOp(3073) == StoreWord(0x2_9004, 0x2_B003)
    ensures BootOp(3074) == StoreWord(DIRECTORY_FIELD, 0x2_9000)
  {
  }

  // ---------- what memory holds after k operations ----------

  /** Entry `i` of the table (or directory) in page frame `frame`. */
  function Entry(m: seq<Byte>, frame: nat, i: nat): (w: Word)
    requires 0x1000 * frame + 4 * i + 4 <= |m|
  {
    Word32(m, 0x1000 * frame + 4 * i)
  }

  function DirectoryEntry(k: nat, d: nat): (w: Word)
    requires d < 1024
  {
    if TABLES_DONE + d < k then 0x1000 * (FULL_TABLES + d) + 3
    else if d == 0 && 3072 < k then 0x1000 * LOW_TABLE0 + 3
    else if d == 1 && 3073 < k then 0x1000 * LOW_TABLE1 + 3
    else 2
  }

  /** The entry that maps page `page` to itself, present and writable. */
  function SelfEntry(page: nat): (w: Word)
    requires page < PAGES
  {
    0x1000 * page + 3
  }

  /** The page that entry `i` of the full map's table in frame `f` is for. */
  function FullIndex(f: nat, i: nat): (page: nat)
    requires FULL_TABLES <= f
  {
    1024 * (f - FULL_TABLES) + i
  }

  ghost predicate Layout(m: seq<Byte>, k: nat)
    requires |m| >= RAM_MIN
  {
    && (forall d :: 0 <= d < 1024 && d < k ==> Entry(m, DIRECTORY, d) == DirectoryEntry(k, d))
    && (forall i :: 0 <= i < 1024 && i + 1024 < k ==> Entry(m, LOW_TABLE0, i) == SelfEntry(i))
    && (forall i :: 0 <= i < 1024 && i + 2048 < k ==> Entry(m, LOW_TABLE1, i) == SelfEntry(1024 + i))
    && (forall f, i :: FULL_TABLES <= f < FULL_TABLES + 1024 && 0 <= i < 1024 && FullIndex(f, i) + COPY_DONE < k ==>
          Entry(m, f, i) == SelfEntry(FullIndex(f, i)))
  }

  /** Entry `i` of a table is unaffected by operation `k` unless the operation names it. */
  lemma EntryAfterOp(m: seq<Byte>, k: nat, frame: nat, i: nat)
    requires |m| >= RAM_MIN && k < TOTAL && i < 1024
    requires DIRECTORY <= frame <= LOW_TABLE1 || FULL_TABLES <= frame < FULL_TABLES + 1024
    ensures Entry(Apply(m, BootOp(k)), frame, i) ==
            if BootOp(k).StoreWord? && BootOp(k).addr == 0x1000 * frame + 4 * i then BootOp(k).value
            else Entry(m, frame, i)
  {
    if BootOp(k).StoreWord? {
      hide BootOp, Word32, Store32;
      var a := BootOp(k).addr;
      assert a == DIRECTORY_FIELD || a % 4 == 0;
      ReadAfterStore(m, a, BootOp(k).value, 0x1000 * frame + 4 * i);
    } else {
      CopyTarget(k);
      hide BootOp, Join32;
    }
  }

  lemma CopyTarget(k: nat)
    requires k < TOTAL && BootOp(k).CopyByte?
    ensures IMAGE_TARGET <= BootOp(k).dst < 0x20_0000
  {
  }

  lemma LayoutStep(m: seq<Byte>, k: nat)
    requires |m| >= RAM_MIN && k < TOTAL && Layout(m, k)
    ensures Layout(Apply(m, BootOp(k)), k + 1)
  {
    var n := Apply(m, BootOp(k));
    forall d | 0 <= d < 1024 && d < k + 1 ensures Entry(n, DIRECTORY, d) == DirectoryEntry(k + 1, d) {
      EntryAfterOp(m, k, DIRECTORY, d);
    }
    forall i | 0 <= i < 1024 && i + 1024 < k + 1 ensures Entry(n, LOW_TABLE0, i) == SelfEntry(i) {
      EntryAfterOp(m, k, LOW_TABLE0, i);
    }
    forall i | 0 <= i < 1024 && i + 2048 < k + 1 ensures Entry(n, LOW_TABLE1, i) == SelfEntry(1024 + i) {
      EntryAfterOp(m, k, LOW_TABLE1, i);
    }
    forall f, i | FULL_TABLES <= f < FULL_TABLES + 1024 && 0 <= i < 1024 && FullIndex(f, i) + COPY_DONE < k + 1
      ensures Entry(n, f, i) == SelfEntry(FullIndex(f, i))
    {
      EntryAfterOp(m, k, f, i);
    }
  }

  lemma {:induction false} LayoutHolds(m: seq<Byte>, k: nat)
    requires |m| >= RAM_MIN && k <= TOTAL
    ensures Layout(Run(m, k), k)
  {
    if k > 0 {
      hide Apply, Fits, Layout;
      LayoutHolds(m, k - 1);
      LayoutStep(Run(m, k - 1), k - 1);
    }
  }

  /** The tables in numbers: while paging is on and before its table is entered, a directory
      entry is 2A003h, 2B003h or 2; the two low tables map the first 8 MB; in the end entry `d`
      of the directory is the table in frame 200h + d, which maps page 1024 * d + i. */
  lemma TablesInNumbers(m: seq<Byte>, k: nat, d: nat, i: nat)
    requires |m| >= RAM_MIN && PAGING_ON <= k <= TOTAL && d < 1024 && i < 1024
    ensures k <= TABLES_DONE ==>
              Entry(Run(m, k), 0x29, d) == if d == 0 then 0x2_A003 else if d == 1 then 0x2_B003 else 2
    ensures Entry(Run(m, k), 0x2A, i) == 4096 * i + 3
    ensures Entry(Run(m, k), 0x2B, i) == 4096 * (1024 + i) + 3
    ensures k == TOTAL ==> Entry(Run(m, k), 0x29, d) == 4096 * (512 + d) + 3
    ensures k == TOTAL ==> Entry(Run(m, k), 512 + d, i) == 4096 * (1024 * d + i) + 3
  {
    LayoutHolds(m, k);
    hide Run, Entry;
    assert FullIndex(512 + d, i) == 1024 * d + i;
  }

  /** The field of the information block that tells the kernel where the directory is. */
  lemma {:induction false} FieldHolds(m: seq<Byte>, k: nat)
    requires |m| >= RAM_MIN && PAGING_ON <= k <= TOTAL
    ensures Word32(Run(m, k), 0x860A) == 0x2_9000
  {
    hide Apply, Fits, Word32, Store32;
    if k == PAGING_ON {
      FieldOp();
      RunStore(m, 3074, 0x860A, 0x2_9000);
      ReadAfterStore(Run(m, 3074), 0x860A, 0x2_9000, 0x860A);
    } else {
      FieldHolds(m, k - 1);
      FieldKept(Run(m, k - 1), k - 1);
    }
  }

  lemma FieldOp()
    ensures BootOp(3074) == StoreWord(0x860A, 0x2_9000)
  {
  }

  lemma FieldKept(m: seq<Byte>, k: nat)
    requires |m| >= RAM_MIN && PAGING_ON <= k < TOTAL
    ensures Word32(Apply(m, BootOp(k)), 0x860A) == Word32(m, 0x860A)
  {
    LaterTargets(k);
    hide BootOp;
  }

  lemma LaterTargets(k: nat)
    requires PAGING_ON <= k < TOTAL
    ensures match BootOp(k) case StoreWord(a, _) => a >= 0x2_9000 case CopyByte(_, d) => d >= 0x2_9000
  {
  }

  /** The addresses that the program writes. */
  predicate Written(a: nat)
  {
    || DIRECTORY_FIELD <= a < DIRECTORY_FIELD + 4
    || 0x1000 * DIRECTORY <= a < 0x1000 * LOW_TABLE1 + 0x1000
    || IMAGE_TARGET <= a < IMAGE_TARGET + IMAGE_SIZE
    || 0x1000 * FULL_TABLES <= a < RAM_MIN
  }

  lemma StoreTargets(k: nat)
    requires k < TOTAL && BootOp(k).StoreWord?
    ensures var a := BootOp(k).addr;
            && Written(a) && Written(a + 1) && Written(a + 2) && Written(a + 3)
            && (a + 4 <= IMAGE_TARGET || IMAGE_TARGET + IMAGE_SIZE <= a)
  {
    assert BootOp(k).addr % 4 == 0 || BootOp(k).addr == DIRECTORY_FIELD;
  }

  lemma ByteAfterOp(m: seq<Byte>, k: nat, a: nat)
    requires |m| >= RAM_MIN && k < TOTAL && a < |m|
    ensures BootOp(k).StoreWord? && (!Written(a) || IMAGE_TARGET <= a < IMAGE_TARGET + IMAGE_SIZE) ==>
              Apply(m, BootOp(k))[a] == m[a]
    ensures BootOp(k).CopyByte? ==> Apply(m, BootOp(k))[a] == if a == BootOp(k).dst then m[BootOp(k).src] else m[a]
  {
    if BootOp(k).StoreWord? {
      StoreTargets(k);
    }
  }

  /** Nothing else changes: in particular neither the BIOS memory map nor the loaded image. */
  lemma {:induction false} UnwrittenHolds(m: seq<Byte>, k: nat, a: nat)
    requires |m| >= RAM_MIN && k <= TOTAL && a < |m| && !Written(a)
    ensures Run(m, k)[a] == m[a]
    decreases k
  {
    hide Apply, Fits;
    if k > 0 {
      ByteAfterOp(Run(m, k - 1), k - 1, a);
      UnwrittenHolds(m, k - 1, a);
    }
  }

  /** Byte `b` of the image, once moved, stays at its place in the target. */
  lemma {:induction false} ImageHolds(m: seq<Byte>, k: nat, b: nat)
    requires |m| >= RAM_MIN && b < IMAGE_SIZE && PAGING_ON + b < k <= TOTAL
    ensures Run(m, k)[IMAGE_TARGET + b] == m[IMAGE_SOURCE + b]
    decreases k
  {
    hide Apply, Fits;
    ByteAfterOp(Run(m, k - 1), k - 1, IMAGE_TARGET + b);
    if k - 1 == PAGING_ON + b {
      UnwrittenHolds(m, k - 1, IMAGE_SOURCE + b);
    } else {
      ImageHolds(m, k - 1, b);
    }
  }

  // ---------- the page walk ----------

  datatype Option<T> = None | Some(value: T)

  datatype Translation = PageFault | Mapped(frame: nat, writable: bool)

  predicate Present(e: Word) { e % 2 == 1 }

  predicate Writable(e: Word) { e % 4 >= 2 }

  function Frame(e: Word): nat { e / 0x1000 }

  /** The second level of the walk: page number `page` through directory entry `pde`.
      CR4.PSE is clear, so bit 7 of the entry has no meaning. */
  function WalkTable(m: seq<Byte>, pde: Word, page: nat): (t: Translation)
  {
    if !Present(pde) || 0x1000 * Frame(pde) + 0x1000 > |m| then PageFault
    else
      var pte := Entry(m, Frame(pde), page % 1024);
      if !Present(pte) then PageFault else Mapped(Frame(pte), Writable(pde) && Writable(pte))
  }

  /** The full walk, from the directory in frame `cr3`. */
  function Walk(m: seq<Byte>, cr3: nat, page: nat): (t: Translation)
    requires page < PAGES && 0x1000 * cr3 + 0x1000 <= |m|
  {
    WalkTable(m, Entry(m, cr3, page / 1024), page)
  }

  /** The physical address behind a linear address, or None. */
  function Physical(m: seq<Byte>, cr3: nat, linear: Word): (r: Option<nat>)
    requires 0x1000 * cr3 + 0x1000 <= |m|
  {
    match Walk(m, cr3, linear / 0x1000)
    case PageFault => None
    case Mapped(frame, _) => Some(frame * 0x1000 + linear % 0x1000)
  }

  lemma EntryFields(n: nat)
    requires n < PAGES
    ensures Frame(SelfEntry(n)) == n && Present(SelfEntry(n)) && Writable(SelfEntry(n))
  {
  }

  /** The low bits of an entry: present is bit 0, writable is bit 1, and the frame is above. */
  lemma EntryFlags(frame: nat, flags: nat)
    requires frame < PAGES && flags < 4
    ensures Frame(4096 * frame + flags) == frame
    ensures Present(4096 * frame + flags) <==> flags == 1 || flags == 3
    ensures Writable(4096 * frame + flags) <==> flags == 2 || flags == 3
  {
  }

  /** The directory entries that ever take part in a walk while paging is on: the two low
      tables, and each table of the full map once it is entered in the directory. */
  predicate LoaderEntry(k: nat, d: nat, pde: Word)
  {
    || (d == 0 && pde == SelfEntry(LOW_TABLE0))
    || (d == 1 && pde == SelfEntry(LOW_TABLE1))
    || (d < 1024 && TABLES_DONE + d < k && pde == SelfEntry(FULL_TABLES + d))
  }

  lemma WalkThrough(m: seq<Byte>, frame: nat, page: nat)
    requires page < PAGES && frame < PAGES && 0x1000 * frame + 0x1000 <= |m|
    requires Entry(m, frame, page % 1024) == SelfEntry(page)
    ensures WalkTable(m, SelfEntry(frame), page) == Mapped(page, true)
  {
    EntryFields(frame);
    EntryFields(page);
  }

  /** Such an entry leads to a table whose entries map the pages to themselves. */
  lemma TableIdentity(m: seq<Byte>, k: nat, pde: Word, page: nat)
    requires |m| >= RAM_MIN && PAGING_ON <= k <= TOTAL && Layout(m, k)
    requires page < PAGES && LoaderEntry(k, page / 1024, pde)
    ensures WalkTable(m, pde, page) == Mapped(page, true)
  {
    var d, i := page / 1024, page % 1024;
    assert page == 1024 * d + i;
    if d == 0 && pde == SelfEntry(LOW_TABLE0) {
      WalkThrough(m, LOW_TABLE0, page);
    } else if d == 1 && pde == SelfEntry(LOW_TABLE1) {
      WalkThrough(m, LOW_TABLE1, page);
    } else {
      assert FullIndex(FULL_TABLES + d, i) == page;
      WalkThrough(m, FULL_TABLES + d, page);
    }
  }

  /** Which pages are mapped after `k` operations. */
  predicate MappedAt(k: nat, page: nat)
  {
    page < 2048 || TABLES_DONE + page / 1024 < k
  }

  lemma WalkOfLayout(m: seq<Byte>, k: nat, page: nat)
    requires |m| >= RAM_MIN && PAGING_ON <= k <= TOTAL && page < PAGES && Layout(m, k)
    ensures Walk(m, DIRECTORY, page) == if MappedAt(k, page) then Mapped(page, true) else PageFault
  {
    var d := page / 1024;
    assert Entry(m, DIRECTORY, d) == DirectoryEntry(k, d);
    if MappedAt(k, page) {
      TableIdentity(m, k, DirectoryEntry(k, d), page);
    }
  }

  /** From the moment paging is on, after every single operation, the walk takes a page to
      itself, present and writable, or faults; which of the two depends on `k` alone. */
  lemma WalkIsIdentity(m: seq<Byte>, k: nat, page: nat)
    requires |m| >= RAM_MIN && PAGING_ON <= k <= TOTAL && page < PAGES
    ensures Walk(Run(m, k), DIRECTORY, page) == if MappedAt(k, page) then Mapped(page, true) else PageFault
  {
    hide Run;
    LayoutHolds(m, k);
    WalkOfLayout(Run(m, k), k, page);
  }

  lemma PageOffset(linear: Word)
    ensures linear / 0x1000 < PAGES && linear / 0x1000 * 0x1000 + linear % 0x1000 == linear
    ensures linear < 0x80_0000 ==> linear / 0x1000 < 2048
  {
  }

  /** Every address below 8 MB translates to itself throughout, and every 32-bit address
      does once the last operation is done. */
  lemma TranslationIsIdentity(m: seq<Byte>, k: nat, linear: Word)
    requires |m| >= RAM_MIN && PAGING_ON <= k <= TOTAL
    ensures linear < 0x80_0000 || k == TOTAL ==> Physical(Run(m, k), DIRECTORY, linear) == Some(linear)
  {
    hide Run, Walk;
    PageOffset(linear);
    WalkIsIdentity(m, k, linear / 0x1000);
  }
}
