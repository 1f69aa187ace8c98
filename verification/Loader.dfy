/**
 The stage-two loader as it runs: registers and memory changed step by step. Each routine
 is proved against the functions of the modules it imports; `Boot` is the whole run.
 */
module Loader {
  import opened Memory
  import opened MemoryMap
  import opened KernelLoad
  import opened Paging

  const COUNT_FIELD: nat := 0x8602   // kernel_info_block.mem_map_entries_count
  const MAP_FIELD: nat := 0x8606     // kernel_info_block.mem_map

  /** Memory after `do_e820`. */
  function MapCollected(m: seq<Byte>, rs: seq<Response>): (r: seq<Byte>)
    requires |m| >= RAM_MIN && AllWellFormed(rs)
    ensures |r| == |m|
  {
    var (n, bp) := Collect(m, 0, 0, rs);
    Put(Put(n, COUNT_FIELD, Bytes16(bp % 0x1_0000)), MAP_FIELD, Bytes32(MAP_BASE))
  }

  /** Memory when the kernel is called. */
  function Booted(m: seq<Byte>, rs: seq<Response>, disk: seq<Byte>, g: Geometry): (r: seq<Byte>)
    requires |m| >= RAM_MIN && AllWellFormed(rs) && HoldsImage(disk) && Usable(g)
    ensures |r| == |m|
  {
    Run(LoadImage(MapCollected(m, rs), disk, g), TOTAL)
  }

  /** The kernel image is at 1 MB, byte for byte as on disk. */
  lemma BootedImage(m: seq<Byte>, rs: seq<Response>, disk: seq<Byte>, g: Geometry, b: nat)
    requires |m| >= RAM_MIN && AllWellFormed(rs) && HoldsImage(disk) && Usable(g)
    requires b < 122880
    ensures Booted(m, rs, disk, g)[0x10_0000 + b] == disk[1536 + b]
  {
    hide Run, LoadImage, MapCollected;
    var n := LoadImage(MapCollected(m, rs), disk, g);
    LoadImageIsContiguous(MapCollected(m, rs), disk, g);
    assert n[FIRST_BLOCK..FIRST_BLOCK + IMAGE_SIZE][b] == Sectors(disk, IMAGE_LBA, 2 * BLOCK_SECTORS)[b];
    ImageHolds(n, TOTAL, b);
  }

  /** The 32-bit count that the kernel finds: the loader stores only its low half. */
  function CountFound(m: seq<Byte>, rs: seq<Response>): (n: nat)
    requires |m| >= RAM_MIN && AllWellFormed(rs)
  {
    |Kept(rs)| % 0x1_0000 + 0x1_0000 * Word16(m, COUNT_FIELD + 2)
  }

  /** What is done after the map is collected does not disturb it. */
  lemma BootedKeeps(m: seq<Byte>, rs: seq<Response>, disk: seq<Byte>, g: Geometry, a: nat)
    requires |m| >= RAM_MIN && AllWellFormed(rs) && HoldsImage(disk) && Usable(g)
    requires a < |m| && !Written(a) && (a < FIRST_BLOCK || MAP_BASE <= a)
    ensures Booted(m, rs, disk, g)[a] == MapCollected(m, rs)[a]
  {
    hide Run, LoadImage, MapCollected, Written;
    LoadImageIsContiguous(MapCollected(m, rs), disk, g);
    UnwrittenHolds(LoadImage(MapCollected(m, rs), disk, g), TOTAL, a);
  }

  /** At the call of the kernel, for every run of the BIOS: the map is as it should be exactly
      under the condition of `PackedExactly`, and the 32-bit count, of which the loader stores
      only half, exactly if memory held the other half. */
  lemma BootedMap(m: seq<Byte>, rs: seq<Response>, disk: seq<Byte>, g: Geometry)
    requires |m| >= RAM_MIN && AllWellFormed(rs) && HoldsImage(disk) && Usable(g)
    ensures var r := Booted(m, rs, disk, g);
            && (Stored(r, Kept(rs)) <==> Roomy(0, rs) || Survives(Kept(rs), FullCalls(0, rs)))
            && Word32(r, 0x8602) == CountFound(m, rs)
            && (Word32(r, 0x8602) == |Kept(rs)| <==> Word16(m, 0x8604) == |Kept(rs)| / 0x1_0000)
            && Word32(r, 0x8606) == 0x3_0000
  {
    hide Booted, MapCollected, Stored, Roomy, Kept, Survives, Word32;
    var r, collected := Booted(m, rs, disk, g), MapCollected(m, rs);
    forall a | MAP_BASE <= a < MAP_END ensures r[a] == collected[a] {
      BootedKeeps(m, rs, disk, g, a);
    }
    StoredMoves(collected, r, Kept(rs));
    CollectedMap(m, rs);
    forall a | COUNT_FIELD <= a < MAP_FIELD + 4 ensures r[a] == collected[a] {
      BootedKeeps(m, rs, disk, g, a);
    }
    CollectedFields(m, rs);
    SameWord(collected, r, COUNT_FIELD);
    SameWord(collected, r, MAP_FIELD);
    CountHalves(collected, m, |Kept(rs)|);
  }

  lemma SameWord(m: seq<Byte>, n: seq<Byte>, a: nat)
    requires |m| == |n| && a + 4 <= |m| && forall i :: a <= i < a + 4 ==> m[i] == n[i]
    ensures Word32(m, a) == Word32(n, a)
  {
  }

  lemma CountHalves(collected: seq<Byte>, m: seq<Byte>, kept: nat)
    requires |collected| == |m| >= RAM_MIN && Word16(collected, COUNT_FIELD) == kept % 0x1_0000
    requires forall a :: COUNT_FIELD + 2 <= a < COUNT_FIELD + 4 ==> collected[a] == m[a]
    ensures Word32(collected, COUNT_FIELD) == kept % 0x1_0000 + 0x1_0000 * Word16(m, COUNT_FIELD + 2)
    ensures Word32(collected, COUNT_FIELD) == kept <==> Word16(m, COUNT_FIELD + 2) == kept / 0x1_0000
  {
  }

  lemma CollectedMap(m: seq<Byte>, rs: seq<Response>)
    requires |m| >= RAM_MIN && AllWellFormed(rs)
    ensures Stored(MapCollected(m, rs), Kept(rs)) <==> Roomy(0, rs) || Survives(Kept(rs), FullCalls(0, rs))
  {
    hide Collect, Kept, Roomy, Stored, Survives;
    PackedExactly(m, rs);
    StoredMoves(Collect(m, 0, 0, rs).0, MapCollected(m, rs), Kept(rs));
  }

  lemma CollectedFields(m: seq<Byte>, rs: seq<Response>)
    requires |m| >= RAM_MIN && AllWellFormed(rs)
    ensures var r := MapCollected(m, rs);
            && Word16(r, COUNT_FIELD) == |Kept(rs)| % 0x1_0000
            && (forall a :: COUNT_FIELD + 2 <= a < COUNT_FIELD + 4 ==> r[a] == m[a])
            && Word32(r, MAP_FIELD) == MAP_BASE
  {
    hide Collect, Kept;
    CountIsKept(m, 0, 0, rs);
    CollectStaysInside(m, 0, 0, rs, COUNT_FIELD + 2);
    CollectStaysInside(m, 0, 0, rs, COUNT_FIELD + 3);
    JoinBytes(MAP_BASE);
  }

  /** For a map that fits the segment, what the kernel parses with the count it finds is what
      the BIOS described exactly if the map is packed and the upper half of the count was 0. */
  lemma KernelReadsMap(m: seq<Byte>, rs: seq<Response>, disk: seq<Byte>, g: Geometry)
    requires |m| >= RAM_MIN && AllWellFormed(rs) && HoldsImage(disk) && Usable(g)
    requires |Kept(rs)| <= CAPACITY
    requires MAP_BASE + 24 * CountFound(m, rs) <= |m|
    ensures Parsed(Booted(m, rs, disk, g), CountFound(m, rs)) == DecodeAll(Kept(rs)) <==>
            Word16(m, COUNT_FIELD + 2) == 0 && (Roomy(0, rs) || Survives(Kept(rs), FullCalls(0, rs)))
  {
    hide Booted, Stored, Roomy, Kept, Survives, Parsed, DecodeAll, Word32, Word16;
    var r := Booted(m, rs, disk, g);
    BootedMap(m, rs, disk, g);
    ParsedExactly(r, CountFound(m, rs), Kept(rs));
  }

  lemma StoredMoves(m: seq<Byte>, n: seq<Byte>, slots: seq<Slot>)
    requires |m| == |n| >= MAP_END && forall a :: MAP_BASE <= a < MAP_END ==> n[a] == m[a]
    ensures Stored(m, slots) <==> Stored(n, slots)
  {
    assert forall i :: 0 <= i < CAPACITY ==> SlotAt(n, i) == SlotAt(m, i);
  }

  /** Every 32-bit address translates to itself when the kernel is called. */
  lemma BootedTranslation(m: seq<Byte>, rs: seq<Response>, disk: seq<Byte>, g: Geometry, linear: Word)
    requires |m| >= RAM_MIN && AllWellFormed(rs) && HoldsImage(disk) && Usable(g)
    ensures Physical(Booted(m, rs, disk, g), 0x29, linear) == Some(linear)
  {
    hide Run, LoadImage, MapCollected;
    TranslationIsIdentity(LoadImage(MapCollected(m, rs), disk, g), TOTAL, linear);
  }

  lemma DirectoryNamed(m: seq<Byte>, rs: seq<Response>, disk: seq<Byte>, g: Geometry)
    requires |m| >= RAM_MIN && AllWellFormed(rs) && HoldsImage(disk) && Usable(g)
    ensures Word32(Booted(m, rs, disk, g), 0x860A) == 0x2_9000
  {
    hide Run, LoadImage, MapCollected;
    FieldHolds(LoadImage(MapCollected(m, rs), disk, g), TOTAL);
  }

  lemma AtKernel(m: seq<Byte>, rs: seq<Response>, disk: seq<Byte>, g: Geometry)
    requires |m| >= RAM_MIN && AllWellFormed(rs) && HoldsImage(disk) && Usable(g)
    ensures Booted(m, rs, disk, g)[0x10_0000..0x10_0000 + 122880] == disk[1536..1536 + 122880]
    ensures forall linear: Word :: Physical(Booted(m, rs, disk, g), 0x29, linear) == Some(linear)
    ensures Word32(Booted(m, rs, disk, g), 0x860A) == 0x2_9000
  {
    DirectoryNamed(m, rs, disk, g);
    hide Booted, Physical, Word32;
    var moved := Booted(m, rs, disk, g)[0x10_0000..0x10_0000 + 122880];
    forall b | 0 <= b < 122880 ensures moved[b] == disk[1536..1536 + 122880][b] {
      BootedImage(m, rs, disk, g, b);
    }
    forall linear: Word ensures Physical(Booted(m, rs, disk, g), 0x29, linear) == Some(linear) {
      BootedTranslation(m, rs, disk, g, linear);
    }
  }

  class Machine {
    const ram: array<Byte>
    var geometry: Geometry       // sectorsPerTrack, numHeads
    var chs: Chs                 // cyl, head, sect

    constructor (size: nat)
      requires size >= RAM_MIN
      ensures ram.Length == size && fresh(ram)
    {
      ram := new Byte[size];
      geometry := Geometry(0, 0);
      chs := Chs(0, 0, 0);
    }

    method Store(a: nat, w: Word)
      requires a + 4 <= ram.Length
      modifies ram
      ensures ram[..] == Store32(old(ram[..]), a, w)
    {
      ram[a], ram[a + 1], ram[a + 2], ram[a + 3] :=
        w % 0x100, w % 0x1_0000 / 0x100, w % 0x100_0000 / 0x1_0000, w / 0x100_0000;
    }

    /** Bytes written through ES:DI with ES = 3000h. */
    method StoreWrapped(off: nat, bytes: seq<Byte>)
      requires ram.Length >= MAP_END && off < SEGMENT && |bytes| <= ENTRY_SIZE
      modifies ram
      ensures ram[..] == PutWrapped(old(ram[..]), off, bytes)
    {
      PutWrappedNone(ram[..], off);
      hide PutWrapped, Wrapped;
      for j := 0 to |bytes|
        invariant ram[..] == PutWrapped(old(ram[..]), off, bytes[..j])
      {
        PutWrappedSnoc(old(ram[..]), off, bytes[..j], bytes[j]);
        assert bytes[..j + 1] == bytes[..j] + [bytes[j]];
        ram[Wrapped(off, j)] := bytes[j];
      }
      assert bytes[..|bytes|] == bytes;
    }

    /** INT 15h at ES:DI, after the loader has forced a valid attribute. */
    method CallBios(di: nat, bytes: seq<Byte>)
      requires ram.Length >= MAP_END && di < SEGMENT && |bytes| <= ENTRY_SIZE
      modifies ram
      ensures ram[..] == AfterCall(old(ram[..]), di, bytes)
    {
      StoreWrapped((di + 20) % 0x1_0000, Bytes32(1));
      StoreWrapped(di, bytes);
    }

    /** `do_e820`. */
    method CollectMap(rs: seq<Response>) returns (ok: bool)
      requires ram.Length >= RAM_MIN && AllWellFormed(rs)
      modifies ram
      ensures ok <==> |rs| > 0 && !rs[0].carry && rs[0].eax == 0x534D_4150 && rs[0].ebx != 0
      ensures ok ==> ram[..] == MapCollected(old(ram[..]), rs)
    {
      hide AfterCall, Accepts, Put, Bytes32;
      var di: nat, bp: nat, j: nat := 0, 0, 0;
      var listing := true;
      while listing
        invariant di < SEGMENT && bp < 0x1_0000 && j <= |rs|
        invariant j > 0 ==> !rs[0].carry && rs[0].eax == SMAP && rs[0].ebx != 0
        invariant !listing ==> j > 0
        invariant Collect(old(ram[..]), 0, 0, rs) ==
                  if listing then Collect(ram[..], di, bp, rs[j..]) else (ram[..], bp)
        decreases if listing then 1 + |rs| - j else 0
      {
        ghost var before := ram[..];
        CallBios(di, if j < |rs| then rs[j].bytes else []);
        if j == 0 && (|rs| == 0 || rs[0].carry || rs[0].eax != SMAP || rs[0].ebx == 0) {
          return false;
        }
        if j == |rs| || rs[j].carry {
          listing := false;
        } else {
          var r := rs[j];
          if Accepting(di, r.ecx) {
            bp := (bp + 1) % 0x1_0000;
            di := (di + 24) % 0x1_0000;
          }
          listing := r.ebx != 0;
          j := j + 1;
        }
      }
      StoreHalf(COUNT_FIELD, bp);
      Store(MAP_FIELD, MAP_BASE);
      return true;
    }

    /** The tests between `.jmpin` and `.skipent`. */
    predicate Accepting(di: nat, ecx: Word): (good: bool)
      requires ram.Length >= RAM_MIN && di < SEGMENT
      reads ram
      ensures good <==> Accepts(ram[..], di, ecx)
    {
      && ecx % 0x1_0000 != 0
      && (ecx % 0x100 <= 20 || ram[MAP_BASE + (di + 20) % 0x1_0000] % 2 == 1)
      && (Load(MAP_BASE + (di + 8) % 0x1_0000) != 0 || Load(MAP_BASE + (di + 12) % 0x1_0000) != 0)
    }

    function Load(a: nat): (w: Word)
      requires a + 4 <= ram.Length
      reads ram
      ensures w == Word32(ram[..], a)
    {
      Join32(ram[a], ram[a + 1], ram[a + 2], ram[a + 3])
    }

    method StoreHalf(a: nat, w: nat)
      requires a + 2 <= ram.Length && w < 0x1_0000
      modifies ram
      ensures ram[..] == Put(old(ram[..]), a, Bytes16(w))
    {
      ram[a], ram[a + 1] := w % 0x100, w / 0x100;
    }

    /** `getchs`: two divisions, each result cut to a byte. */
    method ConvertLba(ax: nat)
      requires Usable(geometry) && ax < 0x1_0000
      modifies this`chs
      ensures chs == KernelLoad.GetChs(ax, geometry)
    {
      var (quotient, remainder) := Div(ax, geometry.sectorsPerTrack);
      var sect := (remainder + 1) % 0x100;
      var (cylinder, head) := Div(quotient, geometry.heads);
      chs := Chs(cylinder % 0x100, head % 0x100, sect);
    }

    /** INT 13h function 2: consecutive sectors from the one addressed. */
    method ReadSectors(disk: seq<Byte>, c: Chs, n: nat, target: nat)
      requires Lba(c, geometry) >= 0 && 512 * (Lba(c, geometry) + n) <= |disk|
      requires target + 512 * n <= ram.Length
      modifies ram
      ensures ram[..] == Put(old(ram[..]), target, Sectors(disk, Lba(c, geometry), n))
    {
      var bytes := Sectors(disk, Lba(c, geometry), n);
      forall i | 0 <= i < |bytes| {
        ram[target + i] := bytes[i];
      }
    }

    /** `load_kernel`, for the geometry bytes that function 8 of INT 13h returns in CX and DH. */
    method LoadKernel(disk: seq<Byte>, cx: nat, dh: Byte)
      requires ram.Length >= RAM_MIN && HoldsImage(disk) && cx % 64 != 0
      modifies this, ram
      ensures geometry == Geometry(cx % 64, dh + 1)
      ensures Usable(geometry) && ram[..] == LoadImage(old(ram[..]), disk, geometry)
    {
      geometry := Geometry(cx % 64, dh + 1);
      BlockAddresses(geometry);
      hide Lba, KernelLoad.GetChs, Put;
      ReadSectors(disk, Chs(0, 0, 4), BLOCK_SECTORS, FIRST_BLOCK);
      ConvertLba(123);
      ReadSectors(disk, chs, BLOCK_SECTORS, SECOND_BLOCK);
    }

    /** `EnablePaging` to the load of CR3. */
    method EnablePaging()
      requires ram.Length >= RAM_MIN
      modifies ram
      ensures ram[..] == Run(old(ram[..]), PAGING_ON)
    {
      ghost var m := ram[..];
      RunNone(m);
      FillDirectory(m);
      EnterTables(m);
    }

    method FillDirectory(ghost m: seq<Byte>)
      requires ram.Length >= RAM_MIN && |m| == ram.Length && ram[..] == Run(m, 0)
      modifies ram
      ensures ram[..] == Run(m, 3072)
    {
      RealModeTables();
      hide Run, FillsTable, BootOp;
      FillTable(0x2900, 2, false, m, 0);
      FillTable(0x2A00, 3, true, m, 1024);
      FillTable(0x2B00, 0x40_0003, true, m, 2048);
    }

    method EnterTables(ghost m: seq<Byte>)
      requires ram.Length >= RAM_MIN && |m| == ram.Length && ram[..] == Run(m, 3072)
      modifies ram
      ensures ram[..] == Run(m, PAGING_ON)
    {
      RealModeTables();
      hide Run, FillsTable, BootOp, Store32;
      var di := 0;
      RunStore(m, 3072, 0x2900 * 16 + di, 0x2_A003);
      Store(0x2900 * 16 + di, 0x2_A003);
      di := di + 4;
      RunStore(m, 3073, 0x2900 * 16 + di, 0x2_B003);
      Store(0x2900 * 16 + di, 0x2_B003);
      RunStore(m, 3074, DIRECTORY_FIELD, 0x2_9000);
      Store(DIRECTORY_FIELD, 0x2_9000);
    }

    /** One of the three filling loops: 1024 words at ES:DI, counted down in CX. */
    method FillTable(es: nat, first: Word, ascending: bool, ghost m: seq<Byte>, ghost k: nat)
      requires ram.Length >= RAM_MIN && |m| == ram.Length && k + 1024 <= TOTAL
      requires es <= 0x2B00 && first <= 0x40_0003
      requires ram[..] == Run(m, k) && FillsTable(k, es, first, ascending)
      modifies ram
      ensures ram[..] == Run(m, k + 1024)
    {
      hide Run, Store32, BootOp;
      var cx, di, esi := 1024, 0, first;
      while cx != 0
        invariant cx <= 1024 && di == 4 * (1024 - cx)
        invariant esi == if ascending then first + 0x1000 * (1024 - cx) else first
        invariant ram[..] == Run(m, k + (1024 - cx))
        decreases cx
      {
        RunStore(m, k + (1024 - cx), es * 16 + di, esi);
        Store(es * 16 + di, esi);
        di := di + 4;
        if ascending {
          esi := esi + 0x1000;
        }
        cx := cx - 1;
      }
    }

    /** The 32-bit part: move the image to 1 MB, fill the tables of the full map and enter
        them in the live directory. */
    method EnterKernel(ghost m: seq<Byte>)
      requires ram.Length >= RAM_MIN && |m| == ram.Length && ram[..] == Run(m, PAGING_ON)
      modifies ram
      ensures ram[..] == Run(m, TOTAL)
    {
      hide Run, Store32;
      var ecx, esi, edi := 512 * 240, 0x9000, 0x10_0000;
      while ecx != 0                                       // rep movsb
        invariant 0 <= ecx <= IMAGE_SIZE
        invariant esi == IMAGE_SOURCE + (IMAGE_SIZE - ecx) && edi == IMAGE_TARGET + (IMAGE_SIZE - ecx)
        invariant ram[..] == Run(m, PAGING_ON + (IMAGE_SIZE - ecx))
        decreases ecx
      {
        RunCopy(m, PAGING_ON + (IMAGE_SIZE - ecx), esi, edi);
        ram[edi] := ram[esi];
        ecx, esi, edi := ecx - 1, esi + 1, edi + 1;
      }
      FillAllTables(m);
      EnterAllTables(m);
    }

    /** `.paging_loop3`: the last addition wraps EAX. */
    method FillAllTables(ghost m: seq<Byte>)
      requires ram.Length >= RAM_MIN && |m| == ram.Length && ram[..] == Run(m, COPY_DONE)
      modifies ram
      ensures ram[..] == Run(m, TABLES_DONE)
    {
      hide Run, Store32;
      var esi, ecx, eax: Word := 0x20_0000, 1048576, 3;
      while ecx != 0
        invariant 0 <= ecx <= PAGES && esi == 0x20_0000 + 4 * (PAGES - ecx)
        invariant ecx != 0 ==> eax == 3 + 0x1000 * (PAGES - ecx)
        invariant ram[..] == Run(m, COPY_DONE + (PAGES - ecx))
        decreases ecx
      {
        RunStore(m, COPY_DONE + (PAGES - ecx), esi, eax);
        Store(esi, eax);
        esi := esi + 4;
        eax := if eax + 0x1000 < 0x1_0000_0000 then eax + 0x1000 else eax + 0x1000 - 0x1_0000_0000;
        ecx := ecx - 1;
      }
    }

    /** `.paging_loop4`. */
    method EnterAllTables(ghost m: seq<Byte>)
      requires ram.Length >= RAM_MIN && |m| == ram.Length && ram[..] == Run(m, TABLES_DONE)
      modifies ram
      ensures ram[..] == Run(m, TOTAL)
    {
      hide Run, Store32;
      var ecx, eax: Word, esi := 1024, 0x20_0003, 0x2_9000;
      while ecx != 0
        invariant 0 <= ecx <= 1024
        invariant eax == 0x20_0003 + 0x1000 * (1024 - ecx) && esi == 0x2_9000 + 4 * (1024 - ecx)
        invariant ram[..] == Run(m, TABLES_DONE + (1024 - ecx))
        decreases ecx
      {
        RunStore(m, TABLES_DONE + (1024 - ecx), esi, eax);
        Store(esi, eax);
        eax, esi, ecx := eax + 0x1000, esi + 4, ecx - 1;
      }
    }

    /** The loader from the first BIOS call to the call of the kernel. */
    method Boot(rs: seq<Response>, disk: seq<Byte>, cx: nat, dh: Byte) returns (ok: bool)
      requires ram.Length >= RAM_MIN && AllWellFormed(rs) && HoldsImage(disk) && cx % 64 != 0
      modifies this, ram
      ensures ok <==> |rs| > 0 && !rs[0].carry && rs[0].eax == 0x534D_4150 && rs[0].ebx != 0
      ensures ok ==> ram[..] == Booted(old(ram[..]), rs, disk, Geometry(cx % 64, dh + 1))
      ensures ok ==> ram[0x10_0000..0x10_0000 + 122880] == disk[1536..1536 + 122880]
      ensures ok ==> forall linear: Word :: Physical(ram[..], 0x29, linear) == Some(linear)
      ensures ok ==> Word32(ram[..], 0x860A) == 0x2_9000
    {
      hide Run, LoadImage, MapCollected, Physical, Word32;
      ghost var was := ram[..];
      ok := CollectMap(rs);
      if ok {
        LoadKernel(disk, cx, dh);
        ghost var m := ram[..];
        EnablePaging();
        EnterKernel(m);
        AtKernel(was, rs, disk, geometry);
      }
    }

    /** The loader, and then the kernel's first loop. */
    method BootAndParse(rs: seq<Response>, disk: seq<Byte>, cx: nat, dh: Byte)
      returns (ok: bool, entries: seq<Entry>, total: nat, enough: bool)
      requires ram.Length >= RAM_MIN && AllWellFormed(rs) && HoldsImage(disk) && cx % 64 != 0
      requires MAP_BASE + 24 * CountFound(ram[..], rs) <= ram.Length
      modifies this, ram
      ensures ok <==> |rs| > 0 && !rs[0].carry && rs[0].eax == 0x534D_4150 && rs[0].ebx != 0
      ensures ok && |Kept(rs)| <= CAPACITY ==>
                (entries == DecodeAll(Kept(rs)) <==>
                 && Word16(old(ram[..]), COUNT_FIELD + 2) == 0
                 && (Roomy(0, rs) || Survives(Kept(rs), FullCalls(0, rs))))
      ensures ok ==>
                && |entries| == CountFound(old(ram[..]), rs)
                && total == UsableBytes(entries) % TWO64
                && (enough <==> total / 0x10_0000 % 0x1_0000_0000 >= 50)
    {
      hide Booted, Stored, Roomy, Kept, Survives, Parsed, DecodeAll, UsableBytes, Word32, Word16, CountFound;
      ghost var m, g := ram[..], Geometry(cx % 64, dh + 1);
      entries, total, enough := [], 0, false;
      ok := Boot(rs, disk, cx, dh);
      if ok {
        BootedMap(m, rs, disk, g);
        entries, total, enough := ParseMap(ram[..], Load(COUNT_FIELD));
        if |Kept(rs)| <= CAPACITY {
          KernelReadsMap(m, rs, disk, g);
        }
      }
    }
  }
}
