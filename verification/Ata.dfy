/**
 The LBA28 PIO driver against a drive that takes an arbitrary finite time before it raises
 DRQ for each sector, shows an arbitrary status meanwhile, and commits a sector with its
 256th word.
 */
module Ata {
  import opened Memory

  type Half = x: int | 0 <= x < 0x1_0000     // a 16-bit word

  const PART_START: nat := 33543720
  const PART_LENGTH: nat := 2 * 8385930
  const LBA_SPACE: nat := 0x1000_0000

  // ---------- the transfer, as a function of the disk ----------

  ghost predicate Formatted(disk: seq<seq<Half>>)
  {
    |disk| == LBA_SPACE && forall i :: 0 <= i < LBA_SPACE ==> |disk[i]| == 256
  }

  /** The words of `n` sectors. */
  ghost function Words(disk: seq<seq<Half>>, lba: nat, n: nat): (ws: seq<Half>)
    requires Formatted(disk) && lba + n <= LBA_SPACE
    ensures |ws| == 256 * n
  {
    if n == 0 then [] else Words(disk, lba, n - 1) + disk[lba + n - 1]
  }

  /** The disk with `n` sectors replaced. */
  ghost function Written(disk: seq<seq<Half>>, lba: nat, ws: seq<Half>, n: nat): (r: seq<seq<Half>>)
    requires Formatted(disk) && lba + n <= LBA_SPACE && 256 * n <= |ws|
    ensures Formatted(r)
    ensures forall i :: 0 <= i < LBA_SPACE && (i < lba || lba + n <= i) ==> r[i] == disk[i]
  {
    if n == 0 then disk else Written(disk, lba, ws, n - 1)[lba + n - 1 := ws[256 * (n - 1)..256 * n]]
  }

  lemma WrittenNext(disk: seq<seq<Half>>, lba: nat, ws: seq<Half>, n: nat)
    requires Formatted(disk) && lba + n < LBA_SPACE && 256 * (n + 1) <= |ws|
    ensures Written(disk, lba, ws, n + 1) == Written(disk, lba, ws, n)[lba + n := ws[256 * n..256 * n + 256]]
  {
  }

  lemma {:induction false} WordsOfPrefix(a: seq<seq<Half>>, b: seq<seq<Half>>, lba: nat, n: nat)
    requires Formatted(a) && Formatted(b) && lba + n <= LBA_SPACE
    requires forall i :: lba <= i < lba + n ==> a[i] == b[i]
    ensures Words(a, lba, n) == Words(b, lba, n)
  {
    if n > 0 {
      WordsOfPrefix(a, b, lba, n - 1);
    }
  }

  /** What was written is what is read back. */
  lemma {:induction false} WordsOfWritten(disk: seq<seq<Half>>, lba: nat, ws: seq<Half>, n: nat)
    requires Formatted(disk) && lba + n <= LBA_SPACE && 256 * n <= |ws|
    ensures Words(Written(disk, lba, ws, n), lba, n) == ws[..256 * n]
  {
    if n > 0 {
      WordsOfWritten(disk, lba, ws, n - 1);
      WordsOfPrefix(Written(disk, lba, ws, n), Written(disk, lba, ws, n - 1), lba, n - 1);
      assert ws[..256 * n] == ws[..256 * (n - 1)] + ws[256 * (n - 1)..256 * n];
    }
  }

  lemma {:induction false} WordsAt(disk: seq<seq<Half>>, lba: nat, n: nat, i: nat)
    requires Formatted(disk) && lba + n <= LBA_SPACE && i < n
    ensures Words(disk, lba, n)[256 * i..256 * i + 256] == disk[lba + i]
    decreases n
  {
    if i < n - 1 {
      WordsAt(disk, lba, n - 1, i);
      assert Words(disk, lba, n)[..256 * (n - 1)] == Words(disk, lba, n - 1);
      assert Words(disk, lba, n)[256 * i..256 * i + 256] == Words(disk, lba, n - 1)[256 * i..256 * i + 256];
    }
  }

  lemma {:induction false} WrittenAt(disk: seq<seq<Half>>, lba: nat, ws: seq<Half>, n: nat, i: nat)
    requires Formatted(disk) && lba + n <= LBA_SPACE && 256 * n <= |ws| && i < n
    ensures Written(disk, lba, ws, n)[lba + i] == ws[256 * i..256 * i + 256]
    decreases n
  {
    if i < n - 1 {
      WrittenAt(disk, lba, ws, n - 1, i);
    }
  }

  lemma Slice(s: seq<Half>, base: nat, n: nat, i: nat)
    requires i < n && base + 256 * n <= |s|
    ensures s[base..base + 256 * n][256 * i..256 * i + 256] == s[base + 256 * i..base + 256 * i + 256]
  {
  }

  // ---------- bounds ----------

  /** The checks at the head of both routines, in 32-bit unsigned arithmetic. */
  predicate Refused(offset: Word, n: Byte)
  {
    (offset + n) % 0x1_0000_0000 > PART_LENGTH || n > 0x7F
  }

  /** The sectors of the booted partition. */
  predicate OnPartition(lba: nat) { 33543720 <= lba < 50315580 }

  /** What the checks let through: up to 127 sectors whose end lies in the partition, or wraps. */
  lemma RefusedExactly(offset: Word, n: Byte)
    ensures !Refused(offset, n) <==> n <= 127 && (offset + n <= 16771860 || offset + n >= 0x1_0000_0000)
    ensures n >= 1 && offset + n < 0x1_0000_0000 ==>
              (!Refused(offset, n) <==>
               n <= 127 && forall lba :: 33543720 + offset <= lba < 33543720 + offset + n ==> OnPartition(lba))
  {
    if offset + n >= 0x1_0000_0000 {
      assert (offset + n) % 0x1_0000_0000 == offset + n - 0x1_0000_0000;
    } else if n >= 1 {
      assert OnPartition(33543720 + offset + (n - 1)) <==> offset + n <= 16771860;
    }
  }

  /** The 28-bit address put together from the four bytes sent. */
  function Address(low: Byte, mid: Byte, high: Byte, device: Byte): (lba: nat)
    ensures lba < LBA_SPACE
  {
    Join32(low, mid, high, device % 0x10)
  }

  /** The first sector the drive is told to transfer. */
  function Target(offset: Word): (lba: nat)
  {
    var sector := (offset + PART_START) % 0x1_0000_0000;
    Address(sector % 0x100, sector % 0x1_0000 / 0x100, sector % 0x100_0000 / 0x1_0000,
            0xE0 + sector / 0x100_0000 % 0x10)
  }

  /** An accepted request never loses address bits, and stays inside the partition exactly
      when its end does not wrap around 32 bits. */
  lemma AcceptedStaysInPartition(offset: Word, n: Byte)
    requires !Refused(offset, n) && n >= 1
    ensures Target(offset) == (offset + PART_START) % 0x1_0000_0000
    ensures Target(offset) + n <= LBA_SPACE
    ensures offset + n < 0x1_0000_0000 <==>
              forall i :: Target(offset) <= i < Target(offset) + n ==> OnPartition(i)
  {
    var sector := (offset + PART_START) % 0x1_0000_0000;
    if offset + n < 0x1_0000_0000 {
      assert offset + n <= PART_LENGTH && sector == offset + PART_START;
    } else {
      assert sector == offset + PART_START - 0x1_0000_0000 && sector < PART_START;
    }
    assert sector < LBA_SPACE;
    JoinBytes(sector);
    assert (0xE0 + sector / 0x100_0000 % 0x10) % 0x10 == sector / 0x100_0000;
    if offset + n >= 0x1_0000_0000 {
      assert !OnPartition(Target(offset));
    }
  }

  /** Such requests exist: every one of 1 to 127 sectors whose end wraps is accepted, and its
      first sector lies outside the partition. */
  lemma WrapIsAccepted(offset: Word, n: Byte)
    requires 1 <= n <= 0x7F && offset + n >= 0x1_0000_0000
    ensures !Refused(offset, n) && !OnPartition(Target(offset))
  {
    hide Target;
    assert (offset + n) % 0x1_0000_0000 == offset + n - 0x1_0000_0000;
    assert (offset + PART_START) % 0x1_0000_0000 == offset + PART_START - 0x1_0000_0000;
    AcceptedStaysInPartition(offset, n);
  }

  lemma LastSectorEscapes()
    ensures !Refused(0xFFFF_FFFF, 1) && !OnPartition(Target(0xFFFF_FFFF))
  {
    hide *;
    WrapIsAccepted(0xFFFF_FFFF, 1);
  }

  lemma AcceptedFits(offset: Word, n: Byte)
    requires !Refused(offset, n) && n >= 1
    ensures Target(offset) + n <= LBA_SPACE
    ensures offset + n <= 16771860 ==> Target(offset) == 33543720 + offset
  {
    hide Target, Refused, OnPartition;
    AcceptedStaysInPartition(offset, n);
  }

  // ---------- status bits ----------

  predicate Err(s: Byte) { s % 2 == 1 }

  predicate Drq(s: Byte) { s % 0x10 >= 0x08 }

  predicate Drdy(s: Byte) { s % 0x80 >= 0x40 }

  predicate Bsy(s: Byte) { s >= 0x80 }

  /** The bits that the driver's masks 01h, 08h, 40h and 80h select. */
  lemma StatusBits(s: bv8)
    ensures Err(s as int) <==> s & 0x01 != 0
    ensures Drq(s as int) <==> s & 0x08 != 0
    ensures Drdy(s as int) <==> s & 0x40 != 0
    ensures Bsy(s as int) <==> s & 0x80 != 0
  {
    hide *;
    LowBit(s);
    DrqBit(s);
    HighBits(s);
  }

  lemma LowBit(s: bv8)
    ensures Err(s as int) <==> s & 0x01 != 0
  {
  }

  lemma DrqBit(s: bv8)
    ensures Drq(s as int) <==> s & 0x08 != 0
  {
  }

  lemma HighBits(s: bv8)
    ensures Drdy(s as int) <==> s & 0x40 != 0
    ensures Bsy(s as int) <==> s & 0x80 != 0
  {
  }

  predicate Ready(s: Byte) { Drq(s) && !Err(s) && Drdy(s) && !Bsy(s) }

  function NextLba(lba: nat): (r: nat)
    requires lba < LBA_SPACE
    ensures r < LBA_SPACE
  {
    if lba + 1 < LBA_SPACE then lba + 1 else 0
  }

  datatype Phase = Idle | Reading | Writing | Flushing

  class Drive {
    var disk: seq<seq<Half>>
    var count: Byte
    var low: Byte
    var mid: Byte
    var high: Byte
    var device: Byte
    var phase: Phase
    var lba: nat          // the sector under transfer
    var left: nat         // sectors still to transfer
    var at: nat           // words of it already transferred
    var buffer: seq<Half> // those words, when writing
    var wait: nat         // status reads until the drive is ready

    ghost predicate Valid()
      reads this
    {
      && Formatted(disk) && lba < LBA_SPACE && at < 256
      && (phase == Writing ==> |buffer| == at)
    }

    /** A write to one of the task file registers. */
    method OutB(port: nat, v: Byte)
      requires Valid()
      modifies this
      ensures Valid() && disk == old(disk)
      ensures count == (if port == 0x1F2 then v else old(count)) && low == (if port == 0x1F3 then v else old(low))
      ensures mid == (if port == 0x1F4 then v else old(mid)) && high == (if port == 0x1F5 then v else old(high))
      ensures device == if port == 0x1F6 then v else old(device)
      ensures port == 0x1F7 && v in {0x20, 0x30} ==>
                && phase == (if v == 0x20 then Reading else Writing) && at == 0
                && lba == Address(low, mid, high, device) && left == if count == 0 then 256 else count
      ensures port == 0x1F7 && v == 0xE7 ==> phase == Flushing
      ensures port != 0x1F7 ==> phase == old(phase)
    {
      match port {
        case 0x1F2 => count := v;
        case 0x1F3 => low := v;
        case 0x1F4 => mid := v;
        case 0x1F5 => high := v;
        case 0x1F6 => device := v;
        case 0x1F7 =>
          wait := *;
          if v == 0x20 || v == 0x30 {
            phase := if v == 0x20 then Reading else Writing;
            lba := Address(low, mid, high, device);
            left := if count == 0 then 256 else count;
            at, buffer := 0, [];
          } else if v == 0xE7 {
            phase := Flushing;
          }
        case _ =>
      }
    }

    /** A read of the status register. */
    method Status() returns (s: Byte)
      requires Valid()
      modifies this`wait, this`phase
      ensures Valid()
      ensures wait == if old(wait) > 0 then old(wait) - 1 else 0
      ensures phase == if old(phase) == Flushing && old(wait) == 0 then Idle else old(phase)
      ensures Drq(s) <==> old(wait) == 0 && (phase == Reading || phase == Writing)
      ensures old(wait) == 0 && (phase == Reading || phase == Writing) ==> Ready(s)
      ensures old(phase) == Flushing ==> (Bsy(s) <==> old(wait) > 0)
    {
      if wait > 0 {
        wait := wait - 1;
        assert !Drq(0x80);
        s :| !Drq(s) && (phase == Flushing ==> Bsy(s));
      } else if phase == Reading || phase == Writing {
        assert Drq(0x58) && Ready(0x58);
        s :| Drq(s) && Ready(s);
      } else {
        phase := Idle;
        assert !Drq(0x40);
        s :| !Drq(s) && !Bsy(s);
      }
    }

    /** The sector under transfer is done: DRQ drops until the next one is ready. */
    method NextSector()
      requires Formatted(disk) && lba < LBA_SPACE && left > 0
      modifies this`lba, this`left, this`at, this`buffer, this`phase, this`wait
      ensures Valid() && at == 0 && buffer == [] && left == old(left) - 1
      ensures lba == NextLba(old(lba))
      ensures phase == if left == 0 then Idle else old(phase)
    {
      lba := NextLba(lba);
      left, at, buffer := left - 1, 0, [];
      if left == 0 {
        phase := Idle;
      }
      wait := *;
    }

    /** A read of the data port; without DRQ it yields nothing in particular. */
    method InW() returns (v: Half)
      requires Valid()
      modifies this
      ensures Valid() && disk == old(disk)
      ensures old(wait) == 0 && old(phase) == Reading && old(left) > 0 ==>
                && v == disk[old(lba)][old(at)]
                && (old(at) < 255 ==>
                      at == old(at) + 1 && lba == old(lba) && left == old(left) && phase == Reading && wait == 0)
                && (old(at) == 255 ==>
                      at == 0 && left == old(left) - 1 && phase == (if left == 0 then Idle else Reading)
                      && lba == NextLba(old(lba)))
    {
      if wait == 0 && phase == Reading && left > 0 {
        v := disk[lba][at];
        if at == 255 {
          NextSector();
        } else {
          at := at + 1;
        }
      } else {
        v := *;
      }
    }

    /** A write to the data port; without DRQ it is lost. */
    method OutW(v: Half)
      requires Valid()
      modifies this
      ensures Valid()
      ensures !(old(wait) == 0 && old(phase) == Writing && old(left) > 0) ==> disk == old(disk)
      ensures old(wait) == 0 && old(phase) == Writing && old(left) > 0 ==>
                && (old(at) < 255 ==>
                      at == old(at) + 1 && lba == old(lba) && left == old(left) && phase == Writing && wait == 0
                      && buffer == old(buffer) + [v] && disk == old(disk))
                && (old(at) == 255 ==>
                      at == 0 && left == old(left) - 1 && phase == (if left == 0 then Idle else Writing)
                      && lba == NextLba(old(lba)) && disk == old(disk)[old(lba) := old(buffer) + [v]])
                && (phase == Writing && at == 0 ==> buffer == [])
    {
      if wait == 0 && phase == Writing && left > 0 {
        buffer := buffer + [v];
        if at == 255 {
          disk := disk[lba := buffer];
          NextSector();
        } else {
          at := at + 1;
        }
      }
    }
  }

  class Driver {
    const drive: Drive
    const mem: array<Half>      // the transfer area, by 16-bit words

    constructor (drive: Drive, mem: array<Half>)
      ensures this.drive == drive && this.mem == mem
    {
      this.drive, this.mem := drive, mem;
    }

    /** The move to the partition and the seven register writes that start a command. */
    method Command(offset: Word, n: Byte, command: Byte)
      requires drive.Valid() && command in {0x20, 0x30}
      modifies drive
      ensures drive.Valid() && drive.disk == old(drive.disk)
      ensures drive.phase == (if command == 0x20 then Reading else Writing) && drive.at == 0
      ensures drive.left == if n == 0 then 256 else n
      ensures drive.lba == Target(offset)
    {
      var sector := (offset + PART_START) % 0x1_0000_0000;
      drive.OutB(0x1F1, 0);
      drive.OutB(0x1F2, n);
      drive.OutB(0x1F3, sector % 0x100);
      drive.OutB(0x1F4, sector % 0x1_0000 / 0x100);
      drive.OutB(0x1F5, sector % 0x100_0000 / 0x1_0000);
      drive.OutB(0x1F6, 0xE0 + sector / 0x100_0000 % 0x10);
      drive.OutB(0x1F7, command);
    }

    /** `int13h_read_o`. */
    method Read(offset: Word, n: Byte, base: nat) returns (r: int)
      requires drive.Valid() && base + 256 * n <= mem.Length
      modifies drive, mem
      ensures drive.Valid() && drive.disk == old(drive.disk)
      ensures r == 0 || r == -1
      ensures r == 0 <==> n <= 127 && (offset + n <= 16771860 || offset + n >= 0x1_0000_0000)
      ensures n >= 1 && offset + n < 0x1_0000_0000 ==>
                (r == 0 <==>
                 n <= 127 && forall lba :: 33543720 + offset <= lba < 33543720 + offset + n ==> OnPartition(lba))
      ensures r != 0 ==> unchanged(drive) && unchanged(mem)
      ensures r == 0 && n >= 1 ==> drive.phase == Idle && Target(offset) + n <= LBA_SPACE
      ensures r == 0 && n >= 1 ==> mem[base..base + 256 * n] == Words(drive.disk, Target(offset), n)
      ensures r == 0 && offset + n <= 16771860 ==>
                forall i :: 0 <= i < n ==>
                  mem[base + 256 * i..base + 256 * i + 256] == drive.disk[33543720 + offset + i]
      ensures forall i :: 0 <= i < mem.Length && (i < base || base + 256 * n <= i) ==> mem[i] == old(mem[i])
    {
      RefusedExactly(offset, n);
      if (offset + n) % 0x1_0000_0000 > PART_LENGTH {
        return -1;
      }
      if n > 0x7F {
        return -1;
      }
      Command(offset, n, 0x20);
      hide Target, Refused, Words, OnPartition;
      if n >= 1 {
        AcceptedFits(offset, n);
      }
      ReadSectors(n, base);
      if n >= 1 {
        EachSectorRead(offset, n, base);
      }
      return 0;
    }

    lemma EachSectorRead(offset: Word, n: Byte, base: nat)
      requires Formatted(drive.disk) && Target(offset) + n <= LBA_SPACE && base + 256 * n <= mem.Length
      requires mem[base..base + 256 * n] == Words(drive.disk, Target(offset), n)
      ensures forall i :: 0 <= i < n ==>
                mem[base + 256 * i..base + 256 * i + 256] == drive.disk[Target(offset) + i]
    {
      hide Target, Words;
      assert mem[base..base + 256 * n] == mem[..][base..base + 256 * n];
      forall i | 0 <= i < n
        ensures mem[base + 256 * i..base + 256 * i + 256] == drive.disk[Target(offset) + i]
      {
        WordsAt(drive.disk, Target(offset), n, i);
        Slice(mem[..], base, n, i);
        assert mem[base + 256 * i..base + 256 * i + 256] == mem[..][base + 256 * i..base + 256 * i + 256];
      }
    }

    /** The loop over the sectors of a read. */
    method ReadSectors(n: nat, base: nat)
      requires drive.Valid() && drive.phase == Reading && drive.at == 0
      requires n <= drive.left && drive.lba + n <= LBA_SPACE && base + 256 * n <= mem.Length
      modifies drive, mem
      ensures drive.Valid() && drive.disk == old(drive.disk)
      ensures n == old(drive.left) ==> n == 0 || drive.phase == Idle
      ensures mem[base..base + 256 * n] == Words(drive.disk, old(drive.lba), n)
      ensures forall i :: 0 <= i < mem.Length && (i < base || base + 256 * n <= i) ==> mem[i] == old(mem[i])
    {
      ghost var disk, lba, left := drive.disk, drive.lba, drive.left;
      var buffer := base;
      for block := 0 to n
        invariant drive.Valid() && drive.disk == disk && buffer == base + 256 * block
        invariant block < n ==> drive.phase == Reading && drive.at == 0 && drive.lba == lba + block
        invariant drive.left == left - block && (block == left > 0 ==> drive.phase == Idle)
        invariant mem[base..buffer] == Words(disk, lba, block)
        invariant forall i :: 0 <= i < mem.Length && (i < base || base + 256 * n <= i) ==> mem[i] == old(mem[i])
      {
        AwaitData();
        ReadSector(buffer);
        assert mem[base..buffer + 256] == mem[base..buffer] + mem[buffer..buffer + 256];
        buffer := buffer + 256;
      }
    }

    /** `while (!(inb(0x1F7) & 0x08))`. */
    method AwaitData()
      requires drive.Valid() && drive.phase == Reading
      modifies drive`wait, drive`phase
      ensures drive.Valid() && drive.phase == Reading && drive.wait == 0
    {
      var s := drive.Status();
      while !Drq(s)
        invariant drive.Valid() && drive.phase == Reading
        invariant Drq(s) ==> drive.wait == 0
        decreases drive.wait, if Drq(s) then 0 else 1
      {
        s := drive.Status();
      }
    }

    method ReadSector(buffer: nat)
      requires drive.Valid() && drive.phase == Reading && drive.wait == 0 && drive.at == 0 && drive.left > 0
      requires buffer + 256 <= mem.Length
      modifies drive, mem
      ensures drive.Valid() && drive.disk == old(drive.disk) && drive.at == 0 && drive.left == old(drive.left) - 1
      ensures drive.phase == (if drive.left == 0 then Idle else Reading)
      ensures drive.lba == NextLba(old(drive.lba))
      ensures mem[buffer..buffer + 256] == drive.disk[old(drive.lba)]
      ensures forall i :: 0 <= i < mem.Length && (i < buffer || buffer + 256 <= i) ==> mem[i] == old(mem[i])
    {
      ghost var sector := drive.disk[drive.lba];
      for idx := 0 to 256
        invariant drive.Valid() && drive.disk == old(drive.disk)
        invariant idx < 256 ==> drive.phase == Reading && drive.wait == 0 && drive.at == idx
                                && drive.lba == old(drive.lba) && drive.left == old(drive.left)
        invariant idx == 256 ==>
                    && drive.at == 0 && drive.left == old(drive.left) - 1
                    && drive.phase == (if drive.left == 0 then Idle else Reading)
                    && drive.lba == NextLba(old(drive.lba))
        invariant forall i :: 0 <= i < mem.Length ==>
                    mem[i] == if buffer <= i < buffer + idx then sector[i - buffer] else old(mem[i])
      {
        var v := drive.InW();
        mem[buffer + idx] := v;
      }
    }

    /** `int13h_write_o`. */
    method Write(offset: Word, n: Byte, base: nat) returns (r: int)
      requires drive.Valid() && base + 256 * n <= mem.Length
      modifies drive
      ensures drive.Valid()
      ensures r == 0 || r == -1
      ensures r == 0 <==> n <= 127 && (offset + n <= 16771860 || offset + n >= 0x1_0000_0000)
      ensures n >= 1 && offset + n < 0x1_0000_0000 ==>
                (r == 0 <==>
                 n <= 127 && forall lba :: 33543720 + offset <= lba < 33543720 + offset + n ==> OnPartition(lba))
      ensures r != 0 ==> unchanged(drive)
      ensures r == 0 ==> drive.phase == Idle
      ensures r == 0 && n >= 1 ==> Target(offset) + n <= LBA_SPACE
      ensures r == 0 && n >= 1 ==> drive.disk == Written(old(drive.disk), Target(offset), mem[base..base + 256 * n], n)
      ensures n == 0 ==> drive.disk == old(drive.disk)
      ensures r == 0 && offset + n <= 16771860 ==>
                && (forall i :: 0 <= i < n ==>
                      drive.disk[33543720 + offset + i] == mem[base + 256 * i..base + 256 * i + 256])
                && (forall k :: 0 <= k < LBA_SPACE && (k < 33543720 + offset || 33543720 + offset + n <= k) ==>
                      drive.disk[k] == old(drive.disk[k]))
    {
      ghost var was := drive.disk;
      RefusedExactly(offset, n);
      if (offset + n) % 0x1_0000_0000 > PART_LENGTH {
        return -1;
      }
      if n > 0x7F {
        return -1;
      }
      Command(offset, n, 0x30);
      hide Target, Refused, Written, OnPartition;
      if n >= 1 {
        AcceptedFits(offset, n);
        EachSectorWritten(was, offset, n, base);
      }
      WriteSectors(n, base);
      drive.OutB(0x1F7, 0xE7);
      AwaitIdle();
      return 0;
    }

    lemma EachSectorWritten(disk: seq<seq<Half>>, offset: Word, n: Byte, base: nat)
      requires Formatted(disk) && Target(offset) + n <= LBA_SPACE && base + 256 * n <= mem.Length
      ensures forall i :: 0 <= i < n ==>
                Written(disk, Target(offset), mem[base..base + 256 * n], n)[Target(offset) + i] ==
                mem[base + 256 * i..base + 256 * i + 256]
    {
      hide Target, Written;
      var ws := mem[base..base + 256 * n];
      assert ws == mem[..][base..base + 256 * n];
      forall i | 0 <= i < n
        ensures Written(disk, Target(offset), ws, n)[Target(offset) + i] == mem[base + 256 * i..base + 256 * i + 256]
      {
        WrittenAt(disk, Target(offset), ws, n, i);
        Slice(mem[..], base, n, i);
        assert mem[base + 256 * i..base + 256 * i + 256] == mem[..][base + 256 * i..base + 256 * i + 256];
      }
    }

    /** The loop over the sectors of a write. */
    method WriteSectors(n: nat, base: nat)
      requires drive.Valid() && drive.phase == Writing && drive.at == 0
      requires n <= drive.left && drive.lba + n <= LBA_SPACE && base + 256 * n <= mem.Length
      modifies drive
      ensures drive.Valid()
      ensures drive.disk == Written(old(drive.disk), old(drive.lba), mem[base..base + 256 * n], n)
    {
      ghost var disk, lba, left, ws := drive.disk, drive.lba, drive.left, mem[base..base + 256 * n];
      var buffer := base;
      for block := 0 to n
        invariant drive.Valid() && buffer == base + 256 * block
        invariant block < n ==> drive.phase == Writing && drive.at == 0 && drive.lba == lba + block
        invariant drive.left == left - block
        invariant drive.disk == Written(disk, lba, ws, block)
      {
        WrittenNext(disk, lba, ws, block);
        hide Written, Formatted;
        AwaitReady();
        WriteSector(buffer);
        assert mem[buffer..buffer + 256] == ws[256 * block..256 * block + 256];
        buffer := buffer + 256;
      }
    }

    /** The four tests before a sector is sent, each on a fresh status. */
    method AwaitReady()
      requires drive.Valid() && drive.phase == Writing
      modifies drive`wait, drive`phase
      ensures drive.Valid() && drive.phase == Writing && drive.wait == 0
    {
      while true
        invariant drive.Valid() && drive.phase == Writing
        decreases drive.wait
      {
        ghost var before := drive.wait;
        var s := drive.Status();
        if !Err(s) {
          s := drive.Status();
          if Drdy(s) {
            s := drive.Status();
            if !Bsy(s) {
              s := drive.Status();
              if Drq(s) {
                break;
              }
            }
          }
        }
      }
    }

    /** `while (inb(0x1F7) & 0x80)`. */
    method AwaitIdle()
      requires drive.Valid() && drive.phase == Flushing
      modifies drive`wait, drive`phase
      ensures drive.Valid() && drive.phase == Idle
    {
      var s := drive.Status();
      while Bsy(s)
        invariant drive.Valid() && (if Bsy(s) then drive.phase == Flushing else drive.phase == Idle)
        decreases drive.wait, if Bsy(s) then 1 else 0
      {
        s := drive.Status();
      }
    }

    method WriteSector(buffer: nat)
      requires drive.Valid() && drive.phase == Writing && drive.wait == 0 && drive.at == 0 && drive.left > 0
      requires buffer + 256 <= mem.Length
      modifies drive
      ensures drive.Valid() && drive.at == 0 && drive.left == old(drive.left) - 1
      ensures drive.phase == (if drive.left == 0 then Idle else Writing)
      ensures drive.lba == NextLba(old(drive.lba))
      ensures drive.disk == old(drive.disk)[old(drive.lba) := mem[buffer..buffer + 256]]
    {
      for idx := 0 to 256
        invariant drive.Valid()
        invariant idx < 256 ==>
                    && drive.phase == Writing && drive.wait == 0 && drive.at == idx
                    && drive.lba == old(drive.lba) && drive.left == old(drive.left) && drive.disk == old(drive.disk)
                    && drive.buffer == mem[buffer..buffer + idx]
        invariant idx == 256 ==>
                    && drive.at == 0 && drive.left == old(drive.left) - 1
                    && drive.phase == (if drive.left == 0 then Idle else Writing)
                    && drive.lba == NextLba(old(drive.lba))
                    && drive.disk == old(drive.disk)[old(drive.lba) := mem[buffer..buffer + 256]]
      {
        assert mem[buffer..buffer + idx] + [mem[buffer + idx]] == mem[buffer..buffer + idx + 1];
        drive.OutW(mem[buffer + idx]);
      }
    }

    /** Words written to a place on the partition and read back come back the same, and no
        other sector of the disk changes. */
    method WriteThenRead(offset: Word, n: Byte, from: nat, to: nat) returns (r: int)
      requires drive.Valid() && from + 256 * n <= mem.Length && to + 256 * n <= mem.Length
      requires 1 <= n
      modifies drive, mem
      ensures drive.Valid()
      ensures r == 0 || r == -1
      ensures r == 0 <==> n <= 127 && (offset + n <= 16771860 || offset + n >= 0x1_0000_0000)
      ensures r == 0 ==> mem[to..to + 256 * n] == old(mem[from..from + 256 * n])
      ensures r == 0 ==> forall i :: 0 <= i < LBA_SPACE && (i < Target(offset) || Target(offset) + n <= i) ==>
                           drive.disk[i] == old(drive.disk[i])
      ensures r != 0 ==> unchanged(drive) && unchanged(mem)
    {
      ghost var disk, ws := drive.disk, mem[from..from + 256 * n];
      r := Write(offset, n, from);
      if r == 0 {
        r := Read(offset, n, to);
        WordsOfWritten(disk, Target(offset), ws, n);
        assert ws[..256 * n] == ws;
      }
    }
  }
}
