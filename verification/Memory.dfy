/** Byte-addressed physical memory, and the little-endian words x86 keeps in it. */
module Memory {

  type Byte = x: int | 0 <= x < 0x100
  type Word = x: int | 0 <= x < 0x1_0000_0000

  /** The byte sequence `m` with `bs` written over it from address `a` on. */
  function Put(m: seq<Byte>, a: nat, bs: seq<Byte>): (r: seq<Byte>)
    requires a + |bs| <= |m|
    ensures |r| == |m|
    ensures forall i :: 0 <= i < |m| ==> r[i] == if a <= i < a + |bs| then bs[i - a] else m[i]
  {
    m[..a] + bs + m[a + |bs|..]
  }

  /** The four bytes of a 32-bit word, lowest first. */
  function Bytes32(w: Word): (bs: seq<Byte>)
    ensures |bs| == 4
  {
    [w % 0x100, w % 0x1_0000 / 0x100, w % 0x100_0000 / 0x1_0000, w / 0x100_0000]
  }

  function Bytes16(w: nat): (bs: seq<Byte>)
    requires w < 0x1_0000
    ensures |bs| == 2
  {
    [w % 0x100, w / 0x100]
  }

  function Word16(m: seq<Byte>, a: nat): (w: nat)
    requires a + 2 <= |m|
  {
    var low: int, high: int := m[a], m[a + 1];
    low + 0x100 * high
  }

  /** The 32-bit word that four bytes spell. */
  function Join32(b0: Byte, b1: Byte, b2: Byte, b3: Byte): (w: Word)
  {
    b0 + 0x100 * b1 + 0x1_0000 * b2 + 0x100_0000 * b3
  }

  /** The 32-bit word read at address `a`. */
  function Word32(m: seq<Byte>, a: nat): (w: Word)
    requires a + 4 <= |m|
  {
    Join32(m[a], m[a + 1], m[a + 2], m[a + 3])
  }

  /** Memory after a 32-bit store. */
  function Store32(m: seq<Byte>, a: nat, w: Word): (r: seq<Byte>)
    requires a + 4 <= |m|
    ensures |r| == |m|
  {
    Put(m, a, Bytes32(w))
  }

  lemma JoinBytes(w: Word)
    ensures var b := Bytes32(w); Join32(b[0], b[1], b[2], b[3]) == w
  {
    assert w % 0x1_0000 % 0x100 == w % 0x100;
    assert w % 0x100_0000 % 0x1_0000 == w % 0x1_0000;
  }

  /** A word read back is the word stored; a word stored elsewhere does not change it. */
  lemma ReadAfterStore(m: seq<Byte>, a: nat, w: Word, b: nat)
    requires a + 4 <= |m| && b + 4 <= |m|
    requires b == a || b + 4 <= a || a + 4 <= b
    ensures Word32(Store32(m, a, w), b) == if b == a then w else Word32(m, b)
  {
    JoinBytes(w);
  }

  /** The byte at the lowest address is worth least. */
  lemma LowestFirst(m: seq<Byte>, a: nat, w: Word)
    requires a + 4 <= |m|
    ensures var r := Store32(m, a, w);
            var b0: int, b1: int, b2: int, b3: int := r[a], r[a + 1], r[a + 2], r[a + 3];
            w == b0 + 256 * b1 + 65536 * b2 + 16777216 * b3
  {
    JoinBytes(w);
  }
}
