/** How the kernel finds the disk it was booted from, and opens the file system on it. */
module BootDisk {
  import opened Memory

  const SECTOR: nat := 512
  const SIGNATURE_AT: nat := 442
  const USB_SLOTS: nat := 127

  /** A disk, by the content of its first sector. */
  datatype Disk = Disk(sector0: seq<Byte>)

  datatype Slot = Empty | Holds(disk: Disk)

  /** The drivers that are present, and what is attached to each. */
  datatype Machine = Machine(
    signature: Word,              // of the boot sector at 7C00h
    hasIde: bool, ide: seq<Slot>, // primary master and slave, secondary master and slave
    hasAhci: bool, ahci: seq<Disk>,
    hasEhci: bool, usb: seq<Slot>)

  predicate WellFormed(m: Machine)
  {
    && |m.ide| == 4 && |m.usb| == USB_SLOTS
    && (forall i :: 0 <= i < 4 && m.ide[i].Holds? ==> |m.ide[i].disk.sector0| == SECTOR)
    && (forall j :: 0 <= j < |m.ahci| ==> |m.ahci[j].sector0| == SECTOR)
    && (forall i :: 0 <= i < USB_SLOTS && m.usb[i].Holds? ==> |m.usb[i].disk.sector0| == SECTOR)
  }

  datatype Place = Ide(i: nat) | Ahci(i: nat) | Usb(i: nat)

  predicate Attached(m: Machine, p: Place)
    requires WellFormed(m)
  {
    match p
    case Ide(i) => m.hasIde && i < 4 && m.ide[i].Holds?
    case Ahci(j) => m.hasAhci && j < |m.ahci|
    case Usb(i) => m.hasEhci && i < USB_SLOTS && m.usb[i].Holds?
  }

  function DiskAt(m: Machine, p: Place): (d: Disk)
    requires WellFormed(m) && Attached(m, p)
    ensures |d.sector0| == SECTOR
  {
    match p
    case Ide(i) => m.ide[i].disk
    case Ahci(j) => m.ahci[j]
    case Usb(i) => m.usb[i].disk
  }

  predicate Boots(m: Machine, p: Place)
    requires WellFormed(m)
  {
    Attached(m, p) && Word32(DiskAt(m, p).sector0, SIGNATURE_AT) == m.signature
  }

  /** IDE before AHCI before USB, each in order of index. */
  predicate Before(p: Place, q: Place)
  {
    match p
    case Ide(i) => !q.Ide? || i < q.i
    case Ahci(i) => q.Usb? || (q.Ahci? && i < q.i)
    case Usb(i) => q.Usb? && i < q.i
  }

  ghost predicate IsFirst(m: Machine, p: Place)
    requires WellFormed(m)
  {
    Boots(m, p) && forall q :: Boots(m, q) && q != p ==> Before(p, q)
  }

  lemma FirstIsUnique(m: Machine, p: Place, q: Place)
    requires WellFormed(m) && IsFirst(m, p) && IsFirst(m, q)
    ensures p == q
  {
    assert p == q || (Before(p, q) && Before(q, p));
  }

  // ---------- the disk index ----------

  function Encode(p: Place): (index: nat)
  {
    match p
    case Ide(i) => i + 1
    case Ahci(j) => 5 + j
    case Usb(i) => 0x81 + i
  }

  /** Where the file system is opened, given the pointers the search leaves behind. */
  function Decode(index: nat, ideDisk: nat, ahciDisk: nat): (p: Place)
  {
    if index > 0x80 then Usb(index - 0x81)
    else if index > 4 then Ahci(ahciDisk)
    else Ide(ideDisk)
  }

  /** The file system is opened on the disk found, with the pointers left on it, for every
      disk but an AHCI disk past number 123: those indices mean USB disks. */
  lemma DecodeInverts(p: Place, other: nat)
    requires p.Ide? ==> p.i < 4
    ensures Decode(Encode(p), if p.Ide? then p.i else other, if p.Ahci? then p.i else other) == p
            <==> (p.Ahci? ==> p.i <= 123)
  {
  }

  class Search {
    const buffer: array<Byte>
    var diskIndex: nat
    var ideDisk: nat     // pointers, as indices into their controller's disks
    var ahciDisk: nat

    constructor (buffer: array<Byte>)
      requires buffer.Length == SECTOR
      ensures this.buffer == buffer && diskIndex == 0
    {
      this.buffer, diskIndex, ideDisk, ahciDisk := buffer, 0, 0, 0;
    }

    /** `Read(0, 1, buffer)` on a disk that answers. */
    method ReadSector0(d: Disk)
      requires buffer.Length == SECTOR == |d.sector0|
      modifies buffer
      ensures buffer[..] == d.sector0
    {
      forall i | 0 <= i < SECTOR {
        buffer[i] := d.sector0[i];
      }
    }

    function Signature(): (w: Word)
      requires buffer.Length == SECTOR
      reads buffer
      ensures w == Word32(buffer[..], SIGNATURE_AT)
    {
      Join32(buffer[SIGNATURE_AT], buffer[SIGNATURE_AT + 1], buffer[SIGNATURE_AT + 2], buffer[SIGNATURE_AT + 3])
    }

    /** The search so far found `p`: its index, its sector in the buffer, its pointer. */
    ghost predicate Found(m: Machine, p: Place)
      requires WellFormed(m)
      reads this, buffer
    {
      && Boots(m, p) && diskIndex == Encode(p) && buffer[..] == DiskAt(m, p).sector0
      && (p.Ide? ==> ideDisk == p.i) && (p.Ahci? ==> ahciDisk == p.i)
    }

    /** One of the four IDE blocks. */
    method ProbeIde(m: Machine, i: nat)
      requires WellFormed(m) && m.hasIde && i < 4 && buffer.Length == SECTOR && diskIndex == 0
      modifies this, buffer
      ensures ahciDisk == old(ahciDisk)
      ensures if Boots(m, Ide(i)) then Found(m, Ide(i)) else diskIndex == 0
    {
      if m.ide[i].Holds? {
        ReadSector0(m.ide[i].disk);
        if Signature() == m.signature {
          diskIndex := i + 1;
        }
        ideDisk := i;
      }
    }

    method SearchIde(m: Machine) returns (ghost p: Place)
      requires WellFormed(m) && buffer.Length == SECTOR && diskIndex == 0
      modifies this, buffer
      ensures diskIndex != 0 ==> p.Ide? && Found(m, p) && forall i :: 0 <= i < p.i ==> !Boots(m, Ide(i))
      ensures diskIndex == 0 ==> forall i :: !Boots(m, Ide(i))
    {
      p := Ide(0);
      if m.hasIde {
        ProbeIde(m, 0);
        if diskIndex == 0 {
          ProbeIde(m, 1);
          p := Ide(1);
        }
        if diskIndex == 0 {
          ProbeIde(m, 2);
          p := Ide(2);
        }
        if diskIndex == 0 {
          ProbeIde(m, 3);
          p := Ide(3);
        }
      }
    }

    method SearchAhci(m: Machine) returns (ghost p: Place)
      requires WellFormed(m) && buffer.Length == SECTOR && diskIndex == 0
      modifies this, buffer
      ensures diskIndex != 0 ==> p.Ahci? && Found(m, p) && forall j :: 0 <= j < p.i ==> !Boots(m, Ahci(j))
      ensures diskIndex == 0 ==> forall j :: !Boots(m, Ahci(j))
    {
      p := Ahci(0);
      if m.hasAhci {
        for j := 0 to |m.ahci|
          invariant diskIndex == 0
          invariant forall k :: 0 <= k < j ==> !Boots(m, Ahci(k))
        {
          ahciDisk := j;
          ReadSector0(m.ahci[j]);
          if Signature() == m.signature {
            diskIndex := 5 + j;
            p := Ahci(j);
            break;
          }
        }
      }
    }

    method SearchUsb(m: Machine) returns (ghost p: Place)
      requires WellFormed(m) && buffer.Length == SECTOR && diskIndex == 0
      modifies this, buffer
      ensures diskIndex != 0 ==> p.Usb? && Found(m, p) && forall i :: 0 <= i < p.i ==> !Boots(m, Usb(i))
      ensures diskIndex == 0 ==> forall i :: !Boots(m, Usb(i))
    {
      p := Usb(0);
      if m.hasEhci {
        for i := 0 to 127
          invariant diskIndex == 0
          invariant forall k :: 0 <= k < i ==> !Boots(m, Usb(k))
        {
          if m.usb[i] == Empty {
            continue;
          }
          ReadSector0(m.usb[i].disk);
          if Signature() == m.signature {
            diskIndex := 0x81 + i;
            p := Usb(i);
            break;
          }
        }
      }
    }

    /** The whole search, and the place where the file system is then opened. Nothing is
        opened exactly when no attached disk carries the signature; otherwise the first that
        does is found, the buffer holds its first sector, and the place opened is that disk
        unless it is an AHCI disk past number 123. */
    method FindBootDisk(m: Machine) returns (found: bool, chosen: Place, ghost p: Place)
      requires WellFormed(m) && buffer.Length == SECTOR && diskIndex == 0
      modifies this, buffer
      ensures found <==> exists q :: Boots(m, q)
      ensures found ==> IsFirst(m, p) && buffer[..] == DiskAt(m, p).sector0
      ensures found ==> Word32(buffer[..], 442) == m.signature
      ensures found ==> match p
                        case Ide(i) => forall j :: 0 <= j < i ==> !Boots(m, Ide(j))
                        case Ahci(i) =>
                          && (forall j :: !Boots(m, Ide(j)))
                          && (forall j :: 0 <= j < i ==> !Boots(m, Ahci(j)))
                        case Usb(i) =>
                          && (forall j :: !Boots(m, Ide(j))) && (forall j :: !Boots(m, Ahci(j)))
                          && (forall j :: 0 <= j < i ==> !Boots(m, Usb(j)))
      ensures found ==> (chosen == p <==> (p.Ahci? ==> p.i <= 123))
    {
      p := SearchIde(m);
      if diskIndex == 0 {
        p := SearchAhci(m);
      }
      if diskIndex == 0 {
        p := SearchUsb(m);
      }
      found := diskIndex != 0;
      chosen := Decode(diskIndex, ideDisk, ahciDisk);
      if found {
        DecodeInverts(p, if p.Ide? then ahciDisk else ideDisk);
      } else {
        forall q ensures !Boots(m, q) {
          match q
          case Ide(i) =>
          case Ahci(i) =>
          case Usb(i) =>
        }
      }
    }
  }
}
