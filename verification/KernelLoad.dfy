/** Loading the kernel image through cylinder/head/sector addresses (INT 13h). */
module KernelLoad {
  import opened Memory

  const FIRST_BLOCK: nat := 0x9000
  const SECOND_BLOCK: nat := 0x1_8000
  const BLOCK_SECTORS: nat := 120
  const IMAGE_LBA: nat := 3       // the image starts at the fourth sector of the disk

  /** What function 8 of INT 13h reports, as the loader keeps it. */
  datatype Geometry = Geometry(sectorsPerTrack: nat, heads: nat)

  /** A track has a sector: the loader divides by that number. */
  predicate Usable(g: Geometry)
  {
    1 <= g.sectorsPerTrack <= 63 && 1 <= g.heads <= 256
  }

  datatype Chs = Chs(cyl: Byte, head: Byte, sect: Byte)

  /** The `div` instruction: quotient and remainder. */
  function Div(a: nat, b: nat): (r: (nat, nat))
    requires b > 0
    ensures a == r.0 * b + r.1 && r.1 < b
  {
    (a / b, a % b)
  }

  /** `getchs`, with every result cut to a byte. */
  function GetChs(lba: nat, g: Geometry): (c: Chs)
    requires Usable(g)
  {
    var (track, sect) := Div(lba, g.sectorsPerTrack);
    var (cylinder, head) := Div(track, g.heads);
    Chs(cylinder % 0x100, head % 0x100, (sect + 1) % 0x100)
  }

  /** The linear number of a sector. */
  function Linear(cylinder: nat, head: nat, sect: nat, g: Geometry): int
  {
    (cylinder * g.heads + head) * g.sectorsPerTrack + sect - 1
  }

  /** The sector that an address names. */
  function Lba(c: Chs, g: Geometry): int
  {
    Linear(c.cyl, c.head, c.sect, g)
  }

  lemma QuotientBelow(a: nat, b: nat, q: nat)
    requires b > 0
    ensures Div(a, b).0 < q <==> a < q * b
  {
    hide Div;
    var d := Div(a, b).0;
    if d < q {
      MulMonotone(d + 1, q, b);
      assert (d + 1) * b == d * b + b;
    } else {
      MulMonotone(q, d, b);
    }
  }

  lemma MulMonotone(x: nat, y: nat, b: nat)
    requires x <= y
    ensures x * b <= y * b
  {
  }

  lemma CylinderFits(lba: nat, g: Geometry)
    requires Usable(g)
    ensures Div(Div(lba, g.sectorsPerTrack).0, g.heads).0 < 0x100 <==> lba < 0x100 * g.heads * g.sectorsPerTrack
  {
    QuotientBelow(Div(lba, g.sectorsPerTrack).0, g.heads, 0x100);
    QuotientBelow(lba, g.sectorsPerTrack, 0x100 * g.heads);
  }

  /** `getchs` always yields a head and a sector of the geometry, and it inverts the linear
      address exactly when the cylinder fits its byte. */
  lemma GetChsInverts(lba: nat, g: Geometry)
    requires Usable(g)
    ensures var c := GetChs(lba, g);
            && c.head < g.heads && 1 <= c.sect <= g.sectorsPerTrack
            && Lba(c, g) == (c.cyl * g.heads + c.head) * g.sectorsPerTrack + c.sect - 1
            && (Lba(c, g) == lba <==> lba < 0x100 * g.heads * g.sectorsPerTrack)
  {
    LinearMeans(GetChs(lba, g), g);
    hide Div, Linear;
    var (track, sect) := Div(lba, g.sectorsPerTrack);
    var (cylinder, head) := Div(track, g.heads);
    CylinderFits(lba, g);
    LinearOfParts(lba, track, sect, cylinder, head, g);
    var c := GetChs(lba, g);
    if c.cyl < cylinder {
      CylinderMatters(c.cyl, cylinder, c.head, c.sect, g);
    }
  }

  lemma LinearMeans(c: Chs, g: Geometry)
    ensures Lba(c, g) == (c.cyl * g.heads + c.head) * g.sectorsPerTrack + c.sect - 1
  {
  }

  lemma LinearOfParts(lba: nat, track: nat, sect: nat, cylinder: nat, head: nat, g: Geometry)
    requires lba == track * g.sectorsPerTrack + sect && track == cylinder * g.heads + head
    ensures Linear(cylinder, head, sect + 1, g) == lba
  {
  }

  lemma CylinderMatters(c0: nat, c1: nat, head: nat, sect: nat, g: Geometry)
    requires c0 < c1 && Usable(g)
    ensures Linear(c0, head, sect, g) < Linear(c1, head, sect, g)
  {
    var h, s := g.heads, g.sectorsPerTrack;
    assert (c1 * h + head) * s - (c0 * h + head) * s == (c1 - c0) * h * s;
    assert (c1 - c0) * h >= 1;
  }

  /** The bytes of `n` sectors. */
  function Sectors(disk: seq<Byte>, lba: nat, n: nat): (bs: seq<Byte>)
    requires 512 * (lba + n) <= |disk|
    ensures |bs| == 512 * n
  {
    disk[512 * lba..512 * (lba + n)]
  }

  predicate HoldsImage(disk: seq<Byte>)
  {
    |disk| >= 512 * (IMAGE_LBA + 2 * BLOCK_SECTORS)
  }

  lemma BlockAddresses(g: Geometry)
    requires Usable(g)
    ensures Lba(Chs(0, 0, 4), g) == IMAGE_LBA
    ensures Lba(GetChs(123, g), g) == IMAGE_LBA + BLOCK_SECTORS
  {
    GetChsInverts(123, g);
    assert g.heads * g.sectorsPerTrack >= 1;
  }

  /** Memory after the two reads, each of the sectors its CHS address names. */
  function LoadImage(m: seq<Byte>, disk: seq<Byte>, g: Geometry): (r: seq<Byte>)
    requires |m| >= 0x3_0000 && HoldsImage(disk) && Usable(g)
    ensures |r| == |m|
  {
    BlockAddresses(g);
    var first := Put(m, FIRST_BLOCK, Sectors(disk, Lba(Chs(0, 0, 4), g), BLOCK_SECTORS));
    Put(first, SECOND_BLOCK, Sectors(disk, Lba(GetChs(123, g), g), BLOCK_SECTORS))
  }

  /** Whatever the geometry, the two reads leave the image contiguous from 9000h on. */
  lemma LoadImageIsContiguous(m: seq<Byte>, disk: seq<Byte>, g: Geometry)
    requires |m| >= 0x3_0000 && HoldsImage(disk) && Usable(g)
    ensures var r := LoadImage(m, disk, g);
            && r[FIRST_BLOCK..FIRST_BLOCK + 2 * BLOCK_SECTORS * 512] == Sectors(disk, IMAGE_LBA, 2 * BLOCK_SECTORS)
            && (forall a :: 0 <= a < |m| && (a < FIRST_BLOCK || FIRST_BLOCK + 2 * BLOCK_SECTORS * 512 <= a) ==>
                  r[a] == m[a])
  {
    BlockAddresses(g);
    var r := LoadImage(m, disk, g);
    var one, two := Sectors(disk, IMAGE_LBA, BLOCK_SECTORS), Sectors(disk, IMAGE_LBA + BLOCK_SECTORS, BLOCK_SECTORS);
    assert r == Put(Put(m, FIRST_BLOCK, one), SECOND_BLOCK, two);
    assert one + two == Sectors(disk, IMAGE_LBA, 2 * BLOCK_SECTORS);
    assert r[FIRST_BLOCK..FIRST_BLOCK + 2 * BLOCK_SECTORS * 512] == one + two;
  }
}
