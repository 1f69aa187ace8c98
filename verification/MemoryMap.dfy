/**
 The BIOS memory map (INT 15h, function E820h; section 15.1 of the ACPI specification):
 what the loader collects into segment 3000h, and what the kernel later reads there.
 */
module MemoryMap {
  import opened Memory

  const MAP_BASE: nat := 0x3_0000
  const SEGMENT: nat := 0x1_0000
  const MAP_END: nat := MAP_BASE + SEGMENT
  const ENTRY_SIZE: nat := 24
  const CAPACITY: nat := 2730            // whole entries in the segment
  const SMAP: Word := 0x534D_4150

  /** What one BIOS call leaves: carry, registers, and the bytes it wrote at ES:DI. */
  datatype Response = Response(carry: bool, eax: Word, ebx: Word, ecx: Word, bytes: seq<Byte>)

  /** The BIOS writes no more than the 24 bytes asked for, and at least the 20 bytes of the
      old format when it reports a nonzero size. */
  predicate WellFormed(r: Response)
  {
    |r.bytes| <= ENTRY_SIZE && (r.ecx % 0x1_0000 != 0 ==> |r.bytes| >= 20)
  }

  predicate AllWellFormed(rs: seq<Response>)
  {
    forall i :: 0 <= i < |rs| ==> WellFormed(rs[i])
  }

  /** The bytes of one stored entry. */
  type Slot = s: seq<Byte> | |s| == ENTRY_SIZE witness seq(ENTRY_SIZE, _ => 0)

  /** The 24 bytes a response stands for; missing attributes read as 1. */
  function SlotOf(r: Response): (s: Slot)
    requires 20 <= |r.bytes| <= ENTRY_SIZE
  {
    r.bytes + [1, 0, 0, 0][|r.bytes| - 20..]
  }

  /** Nonzero size, not marked as ignored, nonzero length. */
  predicate Wanted(r: Response): (wanted: bool)
    requires WellFormed(r)
    ensures wanted ==> 20 <= |r.bytes|
  {
    && r.ecx % 0x1_0000 != 0
    && (r.ecx % 0x100 <= 20 || SlotOf(r)[20] % 2 == 1)
    && (Word32(SlotOf(r), 8) != 0 || Word32(SlotOf(r), 12) != 0)
  }

  /** The list that should be stored: the wanted responses up to the end of the BIOS's list.
      A BIOS that has no more to say sets carry. */
  function Kept(rs: seq<Response>): (slots: seq<Slot>)
    requires AllWellFormed(rs)
  {
    if rs == [] || rs[0].carry then []
    else (if Wanted(rs[0]) then [SlotOf(rs[0])] else []) + (if rs[0].ebx == 0 then [] else Kept(rs[1..]))
  }

  /** A long response is its own slot; a short one has the attributes forced to 1. */
  lemma SlotMeans(r: Response)
    requires 20 <= |r.bytes| <= 24
    ensures SlotOf(r)[..|r.bytes|] == r.bytes
    ensures |r.bytes| == 20 ==> Decode(SlotOf(r)).acpi == 1
  {
  }

  /** Wanted, in terms of the entry that the bytes decode to. */
  lemma WantedMeans(r: Response)
    requires WellFormed(r)
    ensures Wanted(r) <==>
            && r.ecx % 0x1_0000 != 0
            && (r.ecx % 0x100 <= 20 || Decode(SlotOf(r)).acpi % 2 == 1)
            && Decode(SlotOf(r)).length != 0
  {
    if r.ecx % 0x1_0000 != 0 {
      LowBit(SlotOf(r), 20);
    }
  }

  lemma LowBit(m: seq<Byte>, a: nat)
    requires a + 4 <= |m|
    ensures Word32(m, a) % 2 == m[a] % 2
  {
    var b1: int, b2: int, b3: int := m[a + 1], m[a + 2], m[a + 3];
    var rest := 0x80 * b1 + 0x8000 * b2 + 0x80_0000 * b3;
    assert Word32(m, a) == m[a] + 2 * rest;
  }

  /** The slots of the wanted among some responses, in order. */
  function WantedSlots(rs: seq<Response>): (slots: seq<Slot>)
    requires AllWellFormed(rs)
  {
    if rs == [] then []
    else WantedSlots(rs[..|rs| - 1]) + if Wanted(rs[|rs| - 1]) then [SlotOf(rs[|rs| - 1])] else []
  }

  /** The BIOS's list is the first `n` responses: each but the last asks to go on, the last
      ends the list or is followed by a carry or by nothing. */
  ghost predicate ListEnds(rs: seq<Response>, n: nat)
  {
    && n <= |rs|
    && (forall i :: 0 <= i < n ==> !rs[i].carry)
    && (forall i :: 0 <= i < n - 1 ==> rs[i].ebx != 0)
    && (n == |rs| || rs[n].carry || (n > 0 && rs[n - 1].ebx == 0))
  }

  lemma {:induction false} KeptIsWanted(rs: seq<Response>, n: nat)
    requires AllWellFormed(rs) && ListEnds(rs, n) && (n > 0 || rs == [] || rs[0].carry)
    ensures Kept(rs) == WantedSlots(rs[..n])
    decreases |rs|
  {
    hide Wanted, SlotOf;
    if n > 0 {
      WantedFirst(rs[..n]);
      assert rs[..n][1..] == rs[1..][..n - 1];
      if rs[0].ebx == 0 {
        assert n == 1;
        assert WantedSlots(rs[..n][1..]) == [];
      } else {
        KeptIsWanted(rs[1..], n - 1);
      }
    }
  }

  lemma {:induction false} WantedFirst(rs: seq<Response>)
    requires AllWellFormed(rs) && rs != []
    ensures WantedSlots(rs) == (if Wanted(rs[0]) then [SlotOf(rs[0])] else []) + WantedSlots(rs[1..])
    decreases |rs|
  {
    hide Wanted, SlotOf;
    var init := rs[..|rs| - 1];
    if init == [] {
      assert rs[1..] == [] && WantedSlots([]) == [];
    } else {
      WantedFirst(init);
      assert rs[1..][..|rs[1..]| - 1] == init[1..];
    }
  }

  // ---------- the collecting loop ----------

  /** Bytes written at segment offset `off` on; offsets wrap within the segment. */
  function PutWrapped(m: seq<Byte>, off: nat, bs: seq<Byte>): (r: seq<Byte>)
    requires |m| >= MAP_END && off < SEGMENT && |bs| <= ENTRY_SIZE
    ensures |r| == |m|
  {
    if off + |bs| <= SEGMENT then Put(m, MAP_BASE + off, bs)
    else Put(Put(m, MAP_BASE + off, bs[..SEGMENT - off]), MAP_BASE, bs[SEGMENT - off..])
  }

  /** The address of byte `j` from segment offset `off` on. */
  function Wrapped(off: nat, j: nat): (a: nat)
    requires off < SEGMENT && j <= ENTRY_SIZE
    ensures MAP_BASE <= a < MAP_END
  {
    if off + j < SEGMENT then MAP_BASE + off + j else MAP_BASE + off + j - SEGMENT
  }

  lemma PutWrappedNone(m: seq<Byte>, off: nat)
    requires |m| >= MAP_END && off < SEGMENT
    ensures PutWrapped(m, off, []) == m
  {
  }

  lemma PutWrappedSnoc(m: seq<Byte>, off: nat, bs: seq<Byte>, b: Byte)
    requires |m| >= MAP_END && off < SEGMENT && |bs| < ENTRY_SIZE
    ensures PutWrapped(m, off, bs + [b]) == PutWrapped(m, off, bs)[Wrapped(off, |bs|) := b]
  {
    if off + |bs| < SEGMENT {
      assert PutWrapped(m, off, bs) == Put(m, MAP_BASE + off, bs);
    } else {
      var k := SEGMENT - off;
      assert (bs + [b])[..k] == bs[..k] && (bs + [b])[k..] == bs[k..] + [b];
    }
  }

  /** Memory after one call with DI = `di`: the loader's forced attribute, then the BIOS. */
  function AfterCall(m: seq<Byte>, di: nat, bytes: seq<Byte>): (r: seq<Byte>)
    requires |m| >= MAP_END && di < SEGMENT && |bytes| <= ENTRY_SIZE
    ensures |r| == |m|
  {
    PutWrapped(PutWrapped(m, (di + 20) % 0x1_0000, Bytes32(1)), di, bytes)
  }

  /** The tests at `.jmpin` and `.notext`. */
  predicate Accepts(m: seq<Byte>, di: nat, ecx: Word)
    requires |m| >= MAP_END + 4
  {
    && ecx % 0x1_0000 != 0
    && (ecx % 0x100 <= 20 || m[MAP_BASE + (di + 20) % 0x1_0000] % 2 == 1)
    && (Word32(m, MAP_BASE + (di + 8) % 0x1_0000) != 0 || Word32(m, MAP_BASE + (di + 12) % 0x1_0000) != 0)
  }

  /** The loop from the call with DI = `di` and `bp` entries stored, to its end. */
  function Collect(m: seq<Byte>, di: nat, bp: nat, rs: seq<Response>): (r: (seq<Byte>, nat))
    requires |m| >= MAP_END + 4 && di < SEGMENT && AllWellFormed(rs)
    ensures |r.0| == |m|
    decreases |rs|
  {
    if rs == [] then (AfterCall(m, di, []), bp)
    else
      var n := AfterCall(m, di, rs[0].bytes);
      if rs[0].carry then (n, bp)
      else
        var good := Accepts(n, di, rs[0].ecx);
        var di' := if good then (di + 24) % 0x1_0000 else di;
        var bp' := if good then (bp + 1) % 0x1_0000 else bp;
        if rs[0].ebx == 0 then (n, bp') else Collect(n, di', bp', rs[1..])
  }

  // ---------- what the loop leaves ----------

  function SlotAt(m: seq<Byte>, i: nat): (s: Slot)
    requires MAP_BASE + 24 * i + 24 <= |m|
  {
    m[MAP_BASE + 24 * i..MAP_BASE + 24 * i + 24]
  }

  ghost predicate Stored(m: seq<Byte>, slots: seq<Slot>)
    requires |m| >= MAP_END
  {
    && |slots| <= CAPACITY
    && forall i :: 0 <= i < |slots| ==> SlotAt(m, i) == slots[i]
  }

  /** Every BIOS call of the run is made with a whole free slot at ES:DI. */
  predicate Roomy(stored: nat, rs: seq<Response>)
    requires AllWellFormed(rs)
    decreases |rs|
  {
    && stored < CAPACITY
    && (rs == [] || rs[0].carry || rs[0].ebx == 0 || Roomy(stored + (if Wanted(rs[0]) then 1 else 0), rs[1..]))
  }

  lemma {:induction false} FewKeptIsRoomy(stored: nat, rs: seq<Response>)
    requires AllWellFormed(rs)
    requires stored + |Kept(rs)| < CAPACITY
    ensures Roomy(stored, rs)
    decreases |rs|
  {
    if rs != [] && !rs[0].carry && rs[0].ebx != 0 {
      FewKeptIsRoomy(stored + (if Wanted(rs[0]) then 1 else 0), rs[1..]);
    }
  }

  /** How far the offset of address `a` is past `off`, around the segment. */
  function Distance(off: nat, a: nat): (d: nat)
    requires off < SEGMENT && MAP_BASE <= a < MAP_END
    ensures d < SEGMENT
  {
    if MAP_BASE + off <= a then a - MAP_BASE - off else a - MAP_BASE + SEGMENT - off
  }

  lemma PutWrappedAt(m: seq<Byte>, off: nat, bs: seq<Byte>, a: nat)
    requires |m| >= MAP_END && off < SEGMENT && |bs| <= ENTRY_SIZE && MAP_BASE <= a < MAP_END
    ensures PutWrapped(m, off, bs)[a] == if Distance(off, a) < |bs| then bs[Distance(off, a)] else m[a]
  {
  }

  /** The byte that a call leaves at distance `d` past DI, if it leaves any. */
  function Left(bytes: seq<Byte>, d: nat, before: Byte): (b: Byte)
    requires |bytes| <= ENTRY_SIZE
  {
    if d < |bytes| then bytes[d]
    else if d == 20 then 1
    else if 20 < d < 24 then 0
    else before
  }

  lemma AfterCallAt(m: seq<Byte>, di: nat, bytes: seq<Byte>, a: nat)
    requires |m| >= MAP_END && di < SEGMENT && |bytes| <= ENTRY_SIZE && MAP_BASE <= a < MAP_END
    ensures AfterCall(m, di, bytes)[a] == Left(bytes, Distance(di, a), m[a])
  {
    hide PutWrapped;
    var at := (di + 20) % 0x1_0000;
    var one := Bytes32(1);
    assert one == [1, 0, 0, 0];
    PutWrappedAt(m, at, one, a);
    PutWrappedAt(PutWrapped(m, at, one), di, bytes, a);
    assert Distance(at, a) == if Distance(di, a) >= 20 then Distance(di, a) - 20 else Distance(di, a) + 0xFFEC;
  }

  /** A call writes only within 24 bytes past DI, and outside the segment nothing. */
  lemma CallFrame(m: seq<Byte>, di: nat, bytes: seq<Byte>, a: nat)
    requires |m| >= MAP_END && di < SEGMENT && |bytes| <= ENTRY_SIZE && a < |m|
    requires MAP_BASE <= a < MAP_END ==> Distance(di, a) >= 24
    ensures AfterCall(m, di, bytes)[a] == m[a]
  {
    if MAP_BASE <= a < MAP_END {
      AfterCallAt(m, di, bytes, a);
    }
  }

  /** A response of at least 20 bytes reads back as its slot. */
  lemma ResponseReadsBack(m: seq<Byte>, di: nat, r: Response, d: nat, a: nat)
    requires |m| >= MAP_END && di < SEGMENT && 20 <= |r.bytes| <= ENTRY_SIZE && d < ENTRY_SIZE
    requires a == MAP_BASE + (di + d) % 0x1_0000
    ensures AfterCall(m, di, r.bytes)[a] == SlotOf(r)[d]
  {
    hide AfterCall, SlotOf, Left, Distance;
    AfterCallAt(m, di, r.bytes, a);
    DistanceBack(di, d);
    LeftOfResponse(r, d, m[a]);
  }

  lemma DistanceBack(di: nat, d: nat)
    requires di < SEGMENT && d < ENTRY_SIZE
    ensures Distance(di, MAP_BASE + (di + d) % 0x1_0000) == d
  {
    assert (di + d) % 0x1_0000 == if di + d < 0x1_0000 then di + d else di + d - 0x1_0000;
  }

  lemma LeftOfResponse(r: Response, d: nat, before: Byte)
    requires 20 <= |r.bytes| <= ENTRY_SIZE && d < ENTRY_SIZE
    ensures Left(r.bytes, d, before) == SlotOf(r)[d]
  {
    var one: seq<Byte> := [1, 0, 0, 0];
    assert one[0] == 1 && one[1] == one[2] == one[3] == 0;
    SplitAt(r.bytes, one, |r.bytes| - 20, d);
  }

  lemma SplitAt(a: seq<Byte>, b: seq<Byte>, k: nat, d: nat)
    requires k <= |b| && d < |a| + |b| - k
    ensures (a + b[k..])[d] == if d < |a| then a[d] else b[d - |a| + k]
  {
  }

  lemma WordReadsBack(m: seq<Byte>, di: nat, r: Response, d: nat)
    requires |m| >= MAP_END + 4 && di < SEGMENT && 20 <= |r.bytes| <= ENTRY_SIZE
    requires di % 4 == 0 && d % 4 == 0 && d + 4 <= ENTRY_SIZE
    ensures Word32(AfterCall(m, di, r.bytes), MAP_BASE + (di + d) % 0x1_0000) == Word32(SlotOf(r), d)
  {
    hide AfterCall, SlotOf;
    var o := (di + d) % 0x1_0000;
    assert o % 4 == 0 && o <= 0xFFFC;
    ResponseReadsBack(m, di, r, d, MAP_BASE + o);
    ResponseReadsBack(m, di, r, d + 1, MAP_BASE + o + 1);
    ResponseReadsBack(m, di, r, d + 2, MAP_BASE + o + 2);
    ResponseReadsBack(m, di, r, d + 3, MAP_BASE + o + 3);
  }

  /** The loader's tests on memory decide, at every offset it can reach, whether the response
      is wanted. */
  lemma AcceptsIsWanted(m: seq<Byte>, di: nat, r: Response)
    requires |m| >= MAP_END + 4 && di < SEGMENT && di % 8 == 0 && WellFormed(r)
    ensures Accepts(AfterCall(m, di, r.bytes), di, r.ecx) == Wanted(r)
  {
    hide AfterCall, SlotOf, Word32;
    if r.ecx % 0x1_0000 != 0 {
      FieldsReadBack(m, di, r);
    }
  }

  lemma FieldsReadBack(m: seq<Byte>, di: nat, r: Response)
    requires |m| >= MAP_END + 4 && di < SEGMENT && di % 8 == 0 && 20 <= |r.bytes| <= ENTRY_SIZE
    ensures var n := AfterCall(m, di, r.bytes);
            && n[MAP_BASE + (di + 20) % 0x1_0000] == SlotOf(r)[20]
            && Word32(n, MAP_BASE + (di + 8) % 0x1_0000) == Word32(SlotOf(r), 8)
            && Word32(n, MAP_BASE + (di + 12) % 0x1_0000) == Word32(SlotOf(r), 12)
  {
    hide AfterCall, SlotOf, Word32;
    EighthIsFourth(di);
    ResponseReadsBack(m, di, r, 20, MAP_BASE + (di + 20) % 0x1_0000);
    WordReadsBack(m, di, r, 8);
    WordReadsBack(m, di, r, 12);
  }

  lemma EighthIsFourth(n: nat)
    requires n % 8 == 0
    ensures n % 4 == 0
  {
  }

  /** The entry count is right for every run, room or not, in the 16 bits of BP. */
  lemma {:induction false} CountIsKept(m: seq<Byte>, di: nat, bp: nat, rs: seq<Response>)
    requires |m| >= MAP_END + 4 && di < SEGMENT && di % 8 == 0 && bp < 0x1_0000 && AllWellFormed(rs)
    ensures Collect(m, di, bp, rs).1 == (bp + |Kept(rs)|) % 0x1_0000
    decreases |rs|
  {
    hide AfterCall, Accepts, Wanted, Kept;
    KeptCount(rs);
    if rs != [] && !rs[0].carry {
      var n := AfterCall(m, di, rs[0].bytes);
      AcceptsIsWanted(m, di, rs[0]);
      if rs[0].ebx != 0 {
        var di' := if Wanted(rs[0]) then (di + 24) % 0x1_0000 else di;
        var bp' := if Wanted(rs[0]) then (bp + 1) % 0x1_0000 else bp;
        CountIsKept(n, di', bp', rs[1..]);
        ModSum(bp + 1, |Kept(rs[1..])|);
      }
    }
  }

  lemma KeptCount(rs: seq<Response>)
    requires AllWellFormed(rs)
    ensures rs == [] || rs[0].carry ==> |Kept(rs)| == 0
    ensures rs != [] && !rs[0].carry ==>
              |Kept(rs)| == (if Wanted(rs[0]) then 1 else 0) + (if rs[0].ebx == 0 then 0 else |Kept(rs[1..])|)
  {
    hide Wanted, SlotOf;
  }

  lemma ModSum(a: nat, b: nat)
    ensures (a % 0x1_0000 + b) % 0x1_0000 == (a + b) % 0x1_0000
  {
  }

  lemma Offsets(i: nat)
    requires i < CAPACITY
    ensures (24 * i) % 8 == 0
    ensures (24 * i + 24) % 0x1_0000 == 24 * (i + 1) < SEGMENT && (i + 1) % 0x1_0000 == i + 1
  {
    SmallMod(24 * i + 24);
    SmallMod(i + 1);
    Multiple(3 * i);
  }

  lemma SmallMod(n: nat)
    requires n < 0x1_0000
    ensures n % 0x1_0000 == n
  {
  }

  lemma Multiple(n: nat)
    ensures (8 * n) % 8 == 0
  {
  }

  /** One call with room: the slot at DI holds the response, everything else is untouched. */
  lemma CallWithRoom(m: seq<Byte>, i: nat, bytes: seq<Byte>)
    requires |m| >= MAP_END + 4 && i < CAPACITY && |bytes| <= ENTRY_SIZE
    ensures var n, a0 := AfterCall(m, 24 * i, bytes), MAP_BASE + 24 * i;
            && (forall a :: 0 <= a < |m| && (a < a0 || a0 + 24 <= a) ==> n[a] == m[a])
            && (20 <= |bytes| ==> SlotAt(n, i) == bytes + [1, 0, 0, 0][|bytes| - 20..])
  {
    hide AfterCall;
    var n, a0 := AfterCall(m, 24 * i, bytes), MAP_BASE + 24 * i;
    forall a | 0 <= a < |m| && (a < a0 || a0 + 24 <= a) ensures n[a] == m[a] {
      CallFrame(m, 24 * i, bytes, a);
    }
    forall d | 0 <= d < 24 ensures SlotAt(n, i)[d] == Left(bytes, d, m[a0 + d]) {
      AfterCallAt(m, 24 * i, bytes, a0 + d);
    }
    if 20 <= |bytes| {
      assert SlotAt(n, i) == bytes + [1, 0, 0, 0][|bytes| - 20..];
    }
  }

  lemma StoredFrame(m: seq<Byte>, n: seq<Byte>, slots: seq<Slot>)
    requires |m| == |n| >= MAP_END && Stored(m, slots)
    requires forall a :: 0 <= a < MAP_BASE + 24 * |slots| ==> n[a] == m[a]
    ensures Stored(n, slots)
  {
    forall i | 0 <= i < |slots| ensures SlotAt(n, i) == slots[i] {
      assert SlotAt(n, i) == SlotAt(m, i);
    }
  }

  lemma CallKeeps(m: seq<Byte>, slots: seq<Slot>, bytes: seq<Byte>)
    requires |m| >= MAP_END + 4 && Stored(m, slots) && |slots| < CAPACITY && |bytes| <= ENTRY_SIZE
    ensures Stored(AfterCall(m, 24 * |slots|, bytes), slots)
  {
    CallWithRoom(m, |slots|, bytes);
    StoredFrame(m, AfterCall(m, 24 * |slots|, bytes), slots);
  }

  /** A call made with room adds the response's slot to those stored exactly if it is wanted. */
  lemma CallStores(m: seq<Byte>, slots: seq<Slot>, r: Response)
    requires |m| >= MAP_END + 4 && Stored(m, slots) && |slots| < CAPACITY && WellFormed(r)
    ensures var n := AfterCall(m, 24 * |slots|, r.bytes);
            && Accepts(n, 24 * |slots|, r.ecx) == Wanted(r)
            && Stored(n, if Wanted(r) then slots + [SlotOf(r)] else slots)
  {
    hide AfterCall, Accepts, SlotAt, Wanted;
    var n := AfterCall(m, 24 * |slots|, r.bytes);
    CallWithRoom(m, |slots|, r.bytes);
    StoredFrame(m, n, slots);
    Offsets(|slots|);
    AcceptsIsWanted(m, 24 * |slots|, r);
    if Wanted(r) {
      assert SlotAt(n, |slots|) == SlotOf(r);
    }
  }

  /** The loop never writes outside its segment, room or not. */
  lemma {:induction false} CollectStaysInside(m: seq<Byte>, di: nat, bp: nat, rs: seq<Response>, a: nat)
    requires |m| >= MAP_END + 4 && di < SEGMENT && AllWellFormed(rs)
    requires a < |m| && (a < MAP_BASE || MAP_END <= a)
    ensures Collect(m, di, bp, rs).0[a] == m[a]
    decreases |rs|
  {
    hide Accepts, Wanted, Bytes32;
    var n := AfterCall(m, di, if rs == [] then [] else rs[0].bytes);
    assert n[a] == m[a];
    hide AfterCall;
    if rs != [] && !rs[0].carry && rs[0].ebx != 0 {
      var good := Accepts(n, di, rs[0].ecx);
      CollectStaysInside(n, if good then (di + 24) % 0x1_0000 else di,
                         if good then (bp + 1) % 0x1_0000 else bp, rs[1..], a);
    }
  }

  lemma CollectEnds(m: seq<Byte>, slots: seq<Slot>, rs: seq<Response>)
    requires |m| >= MAP_END + 4 && Stored(m, slots) && |slots| < CAPACITY && AllWellFormed(rs)
    ensures rs == [] || rs[0].carry ==>
              var (n, bp) := Collect(m, 24 * |slots|, |slots|, rs);
              bp == |slots| && Stored(n, slots)
  {
    hide AfterCall, Stored;
    CallKeeps(m, slots, if rs == [] then [] else rs[0].bytes);
  }

  /** What `Kept` adds for one response. */
  lemma KeptTurn(slots: seq<Slot>, rs: seq<Response>)
    requires AllWellFormed(rs)
    ensures rs == [] || rs[0].carry ==> slots + Kept(rs) == slots
    ensures rs != [] && !rs[0].carry ==>
              var next := if Wanted(rs[0]) then slots + [SlotOf(rs[0])] else slots;
              slots + Kept(rs) == if rs[0].ebx == 0 then next else next + Kept(rs[1..])
  {
    hide Wanted, SlotOf;
  }

  /** One turn of the loop, made with room. */
  lemma CollectTurn(m: seq<Byte>, slots: seq<Slot>, rs: seq<Response>)
    requires |m| >= MAP_END + 4 && Stored(m, slots) && |slots| < CAPACITY && AllWellFormed(rs)
    requires rs != [] && !rs[0].carry
    ensures var n := AfterCall(m, 24 * |slots|, rs[0].bytes);
            var next := if Wanted(rs[0]) then slots + [SlotOf(rs[0])] else slots;
            && Stored(n, next)
            && Collect(m, 24 * |slots|, |slots|, rs) ==
               if rs[0].ebx == 0 then (n, |next|) else Collect(n, 24 * |next|, |next|, rs[1..])
  {
    hide AfterCall, Accepts, Wanted, SlotAt, SlotOf, Put, Stored, Bytes32;
    Offsets(|slots|);
    CallStores(m, slots, rs[0]);
  }

  // ---------- the full segment ----------

  /** The calls made once the segment is full. */
  function FullCalls(stored: nat, rs: seq<Response>): (rest: seq<Response>)
    requires AllWellFormed(rs) && stored <= CAPACITY && !Roomy(stored, rs)
    ensures AllWellFormed(rest)
    decreases |rs|
  {
    if stored == CAPACITY then rs else FullCalls(stored + (if Wanted(rs[0]) then 1 else 0), rs[1..])
  }

  /** What one such call makes of the first 8 bytes of the first entry: it forces 1 into the
      last four, and what the BIOS writes past its 16th byte lands on the first. */
  function HeadCall(head: seq<Byte>, bytes: seq<Byte>): (h: seq<Byte>)
    requires |head| == 8 && |bytes| <= ENTRY_SIZE
    ensures |h| == 8
  {
    var forced := Put(head, 4, Bytes32(1));
    if |bytes| <= 16 then forced else Put(forced, 0, bytes[16..])
  }

  /** What all of them make of it. */
  function HeadAfter(head: seq<Byte>, rs: seq<Response>): (h: seq<Byte>)
    requires |head| == 8 && AllWellFormed(rs)
    ensures |h| == 8
    decreases |rs|
  {
    if rs == [] then HeadCall(head, [])
    else
      var h := HeadCall(head, rs[0].bytes);
      if rs[0].carry || rs[0].ebx == 0 then h else HeadAfter(h, rs[1..])
  }

  /** A map that fills the segment exactly, and whose first entry already is what the calls
      without room make of it. */
  predicate Survives(slots: seq<Slot>, fullCalls: seq<Response>)
    requires AllWellFormed(fullCalls)
  {
    |slots| == CAPACITY && HeadAfter(slots[0][..8], fullCalls) == slots[0][..8]
  }

  /** For every run of the BIOS, exactly the wanted responses are stored, in order and packed,
      if and only if every call finds a free slot or the map survives the calls that do not. */
  lemma PackedExactly(m: seq<Byte>, rs: seq<Response>)
    requires |m| >= MAP_END + 4 && AllWellFormed(rs)
    ensures Stored(Collect(m, 0, 0, rs).0, Kept(rs)) <==> Roomy(0, rs) || Survives(Kept(rs), FullCalls(0, rs))
  {
    hide *;
    StoredNone(m);
    PacksFrom(m, [], rs);
    assert [] + Kept(rs) == Kept(rs);
  }

  lemma StoredNone(m: seq<Byte>)
    requires |m| >= MAP_END
    ensures Stored(m, [])
  {
  }

  lemma RoomyTurn(stored: nat, rs: seq<Response>)
    requires AllWellFormed(rs) && stored < CAPACITY
    ensures rs == [] || rs[0].carry || rs[0].ebx == 0 ==> Roomy(stored, rs)
    ensures rs != [] && !rs[0].carry && rs[0].ebx != 0 ==>
              var next := stored + (if Wanted(rs[0]) then 1 else 0);
              && Roomy(stored, rs) == Roomy(next, rs[1..])
              && (!Roomy(stored, rs) ==> FullCalls(stored, rs) == FullCalls(next, rs[1..]))
  {
    hide Wanted;
  }

  lemma {:induction false} PacksFrom(m: seq<Byte>, slots: seq<Slot>, rs: seq<Response>)
    requires |m| >= MAP_END + 4 && AllWellFormed(rs) && Stored(m, slots) && |slots| <= CAPACITY
    ensures Stored(Collect(m, 24 * |slots|, |slots|, rs).0, slots + Kept(rs)) <==>
            Roomy(|slots|, rs) || Survives(slots + Kept(rs), FullCalls(|slots|, rs))
    decreases |rs|
  {
    hide Collect, Kept, Roomy, Stored, Survives, FullCalls, AfterCall, Wanted, SlotOf;
    if |slots| == CAPACITY {
      FullFrom(m, slots, rs);
    } else {
      CollectEnds(m, slots, rs);
      KeptTurn(slots, rs);
      RoomyTurn(|slots|, rs);
      if rs != [] && !rs[0].carry {
        CollectTurn(m, slots, rs);
        if rs[0].ebx != 0 {
          PacksFrom(AfterCall(m, 24 * |slots|, rs[0].bytes),
                    if Wanted(rs[0]) then slots + [SlotOf(rs[0])] else slots, rs[1..]);
        }
      }
    }
  }

  /** With room for every call the count is exact as well. */
  lemma CollectPacks(m: seq<Byte>, rs: seq<Response>)
    requires |m| >= MAP_END + 4 && AllWellFormed(rs) && Roomy(0, rs)
    ensures var (n, bp) := Collect(m, 0, 0, rs);
            Stored(n, Kept(rs)) && bp == |Kept(rs)| <= CAPACITY
  {
    hide Collect, Kept, Roomy, Survives;
    PackedExactly(m, rs);
    CountIsKept(m, 0, 0, rs);
  }

  /** The slots are stored, except that the first one begins with the bytes `head`. */
  ghost predicate StoredUnder(m: seq<Byte>, slots: seq<Slot>, head: seq<Byte>)
    requires |m| >= MAP_END
  {
    && |slots| == CAPACITY && |head| == 8
    && (forall q :: 0 <= q < 24 ==> m[MAP_BASE + q] == if q < 8 then head[q] else slots[0][q])
    && forall i :: 1 <= i < |slots| ==> SlotAt(m, i) == slots[i]
  }

  lemma UnderOwnHead(m: seq<Byte>, slots: seq<Slot>, head: seq<Byte>)
    requires |m| >= MAP_END && |slots| == CAPACITY && |head| == 8
    ensures Stored(m, slots) ==> StoredUnder(m, slots, slots[0][..8])
    ensures StoredUnder(m, slots, head) ==> (Stored(m, slots) <==> head == slots[0][..8])
  {
    var s := SlotAt(m, 0);
    assert forall q :: 0 <= q < 24 ==> s[q] == m[MAP_BASE + q];
    assert StoredUnder(m, slots, head) && s == slots[0] ==> head == slots[0][..8];
  }

  /** One call with the segment full changes only the head of the first slot. */
  lemma CallWithoutRoom(m: seq<Byte>, slots: seq<Slot>, head: seq<Byte>, bytes: seq<Byte>)
    requires |m| >= MAP_END + 4 && StoredUnder(m, slots, head) && |bytes| <= ENTRY_SIZE
    ensures StoredUnder(AfterCall(m, 65520, bytes), slots, HeadCall(head, bytes))
  {
    hide AfterCall;
    var n := AfterCall(m, 65520, bytes);
    forall q | 0 <= q < 24 ensures n[MAP_BASE + q] == if q < 8 then HeadCall(head, bytes)[q] else slots[0][q] {
      AfterCallAt(m, 65520, bytes, MAP_BASE + q);
      HeadCallAt(head, bytes, q);
    }
    forall i | 1 <= i < |slots| ensures SlotAt(n, i) == slots[i] {
      forall q | 0 <= q < 24 ensures SlotAt(n, i)[q] == SlotAt(m, i)[q] {
        CallFrame(m, 65520, bytes, MAP_BASE + 24 * i + q);
      }
    }
  }

  lemma HeadCallAt(head: seq<Byte>, bytes: seq<Byte>, q: nat)
    requires |head| == 8 && |bytes| <= ENTRY_SIZE
    ensures q < 8 ==> HeadCall(head, bytes)[q] == Left(bytes, q + 16, head[q])
  {
    assert Bytes32(1) == [1, 0, 0, 0];
  }

  /** Calls without room that store nothing more: the loop ends with the same entries, but
      for the head of the first. */
  lemma {:induction false} FullTurns(m: seq<Byte>, slots: seq<Slot>, head: seq<Byte>, rs: seq<Response>)
    requires |m| >= MAP_END + 4 && AllWellFormed(rs) && StoredUnder(m, slots, head) && Kept(rs) == []
    ensures StoredUnder(Collect(m, 65520, CAPACITY, rs).0, slots, HeadAfter(head, rs))
    decreases |rs|
  {
    hide AfterCall, Accepts, Wanted, SlotOf, StoredUnder, HeadCall;
    var bytes := if rs == [] then [] else rs[0].bytes;
    CallWithoutRoom(m, slots, head, bytes);
    UnderHead(m, slots, head);
    if rs != [] && !rs[0].carry {
      AcceptsIsWanted(m, 65520, rs[0]);
      if rs[0].ebx != 0 {
        FullTurns(AfterCall(m, 65520, bytes), slots, HeadCall(head, bytes), rs[1..]);
      }
    }
  }

  lemma UnderHead(m: seq<Byte>, slots: seq<Slot>, head: seq<Byte>)
    requires |m| >= MAP_END && StoredUnder(m, slots, head)
    ensures |slots| == CAPACITY && |head| == 8
  {
  }

  lemma FullFrom(m: seq<Byte>, slots: seq<Slot>, rs: seq<Response>)
    requires |m| >= MAP_END + 4 && AllWellFormed(rs) && Stored(m, slots) && |slots| == CAPACITY
    ensures !Roomy(|slots|, rs)
    ensures Stored(Collect(m, 65520, |slots|, rs).0, slots + Kept(rs)) <==>
            Survives(slots + Kept(rs), FullCalls(|slots|, rs))
  {
    hide Collect, Kept, Stored, StoredUnder, HeadAfter;
    var n := Collect(m, 65520, CAPACITY, rs).0;
    if Kept(rs) == [] {
      var head := slots[0][..8];
      assert slots + Kept(rs) == slots;
      UnderOwnHead(m, slots, head);
      FullTurns(m, slots, head, rs);
      UnderOwnHead(n, slots, HeadAfter(head, rs));
    } else {
      FitsSegment(n, slots + Kept(rs));
    }
  }

  lemma FitsSegment(m: seq<Byte>, slots: seq<Slot>)
    requires |m| >= MAP_END
    ensures Stored(m, slots) ==> |slots| <= CAPACITY
  {
  }

  // ---------- the kernel's reading ----------

  const TWO64: nat := 0x1_0000_0000_0000_0000

  datatype Entry = Entry(base: nat, length: nat, kind: Word, acpi: Word)

  function Word64(m: seq<Byte>, a: nat): (w: nat)
    requires a + 8 <= |m|
    ensures w < TWO64
  {
    Word32(m, a) + 0x1_0000_0000 * Word32(m, a + 4)
  }

  function Decode(s: Slot): (e: Entry)
  {
    Entry(Word64(s, 0), Word64(s, 8), Word32(s, 16), Word32(s, 20))
  }

  /** The 24-byte ACPI 3.0 form of an entry. */
  function Encode(e: Entry): (s: Slot)
    requires e.base < TWO64 && e.length < TWO64
  {
    Bytes64(e.base) + Bytes64(e.length) + Bytes32(e.kind) + Bytes32(e.acpi)
  }

  function Bytes64(w: nat): (bs: seq<Byte>)
    requires w < TWO64
    ensures |bs| == 8
  {
    Bytes32(w % 0x1_0000_0000) + Bytes32(w / 0x1_0000_0000)
  }

  lemma EncodeRoundTrip(e: Entry)
    requires e.base < TWO64 && e.length < TWO64
    ensures Decode(Encode(e)) == e
  {
    JoinBytes(e.base % 0x1_0000_0000);
    JoinBytes(e.base / 0x1_0000_0000);
    JoinBytes(e.length % 0x1_0000_0000);
    JoinBytes(e.length / 0x1_0000_0000);
    JoinBytes(e.kind);
    JoinBytes(e.acpi);
  }

  function DecodeAll(slots: seq<Slot>): (es: seq<Entry>)
    ensures |es| == |slots|
  {
    seq(|slots|, i requires 0 <= i < |slots| => Decode(slots[i]))
  }

  /** The entries that a kernel which believes the count `count` reads. */
  function Parsed(m: seq<Byte>, count: nat): (es: seq<Entry>)
    requires MAP_BASE + 24 * count <= |m|
    ensures |es| == count
  {
    seq(count, i requires 0 <= i < count => Decode(SlotAt(m, i)))
  }

  /** The bytes of usable memory (type 1) that a list of entries describes. */
  function UsableBytes(es: seq<Entry>): nat
  {
    if es == [] then 0
    else UsableBytes(es[..|es| - 1]) + (if es[|es| - 1].kind == 1 then es[|es| - 1].length else 0)
  }

  /** The stride-3 and stride-6 indices read exactly the fields of entry `i`. */
  lemma ReadsSlot(m: seq<Byte>, i: nat)
    requires MAP_BASE + 24 * i + 24 <= |m|
    ensures Decode(SlotAt(m, i)) ==
            Entry(Word64(m, MAP_BASE + 8 * (3 * i)), Word64(m, MAP_BASE + 8 * (3 * i + 1)),
                  Word32(m, MAP_BASE + 4 * (6 * i + 4)), Word32(m, MAP_BASE + 4 * (6 * i + 5)))
  {
    var s, a := SlotAt(m, i), MAP_BASE + 24 * i;
    assert forall j :: 0 <= j <= 20 ==> Word32(s, j) == Word32(m, a + j);
  }

  /** The kernel's parsing loop: a quadword pointer that advances by 3 and a doubleword
      pointer that advances by 6. The total is a 64-bit sum; the kernel goes on only when it
      makes at least 50 MB in 32 bits. */
  method ParseMap(m: seq<Byte>, count: nat) returns (entries: seq<Entry>, total: nat, enough: bool)
    requires MAP_BASE + 24 * count <= |m|
    ensures entries == Parsed(m, count)
    ensures forall i :: 0 <= i < count ==>
              entries[i] == Entry(Word64(m, 0x3_0000 + 24 * i), Word64(m, 0x3_0008 + 24 * i),
                                  Word32(m, 0x3_0010 + 24 * i), Word32(m, 0x3_0014 + 24 * i))
    ensures total == UsableBytes(entries) % TWO64
    ensures enough <==> total / 0x10_0000 % 0x1_0000_0000 >= 50
  {
    hide Word32, Word64, SlotAt, UsableBytes;
    UsableSnocBase();
    entries, total := [], 0;
    var index0, index1 := 0, 4;
    for i := 0 to count
      invariant index0 == 3 * i && index1 == 6 * i + 4
      invariant |entries| == i && forall j :: 0 <= j < i ==> entries[j] == Decode(SlotAt(m, j))
      invariant forall j :: 0 <= j < i ==>
                  entries[j] == Entry(Word64(m, 0x3_0000 + 24 * j), Word64(m, 0x3_0008 + 24 * j),
                                      Word32(m, 0x3_0010 + 24 * j), Word32(m, 0x3_0014 + 24 * j))
      invariant total == UsableBytes(entries) % TWO64
    {
      var entry := Entry(
        Word64(m, MAP_BASE + 8 * index0),
        Word64(m, MAP_BASE + 8 * (index0 + 1)),
        Word32(m, MAP_BASE + 4 * index1),
        Word32(m, MAP_BASE + 4 * (index1 + 1)));
      ReadsSlot(m, i);
      UsableSnoc(entries, entry);
      entries := entries + [entry];
      if entry.kind == 1 {
        total := (total + entry.length) % TWO64;
      }
      index0 := index0 + 3;
      index1 := index1 + 6;
    }
    enough := total / 1024 / 1024 % 0x1_0000_0000 >= 50;
  }

  lemma UsableSnocBase()
    ensures UsableBytes([]) == 0
  {
  }

  lemma UsableSnoc(es: seq<Entry>, e: Entry)
    ensures UsableBytes(es + [e]) == UsableBytes(es) + (if e.kind == 1 then e.length else 0)
  {
    assert (es + [e])[..|es|] == es;
  }

  /** The kernel parses the BIOS's list exactly from those slots and that count. */
  lemma ParsedExactly(m: seq<Byte>, count: nat, slots: seq<Slot>)
    requires |m| >= MAP_END && MAP_BASE + 24 * count <= |m| && |slots| <= CAPACITY
    ensures Parsed(m, count) == DecodeAll(slots) <==> count == |slots| && Stored(m, slots)
  {
    if Parsed(m, count) == DecodeAll(slots) {
      forall i | 0 <= i < |slots| ensures SlotAt(m, i) == slots[i] {
        assert Parsed(m, count)[i] == DecodeAll(slots)[i];
        DecodeIsInjective(SlotAt(m, i), slots[i]);
      }
    }
  }

  lemma JoinIsInjective(m: seq<Byte>, n: seq<Byte>, a: nat)
    requires a + 4 <= |m| == |n| && Word32(m, a) == Word32(n, a)
    ensures forall i :: a <= i < a + 4 ==> m[i] == n[i]
  {
    DigitsAgree(m[a], m[a + 1], m[a + 2], m[a + 3], n[a], n[a + 1], n[a + 2], n[a + 3]);
  }

  lemma DigitsAgree(b0: int, b1: int, b2: int, b3: int, c0: int, c1: int, c2: int, c3: int)
    requires 0 <= b0 < 0x100 && 0 <= b1 < 0x100 && 0 <= b2 < 0x100
    requires 0 <= c0 < 0x100 && 0 <= c1 < 0x100 && 0 <= c2 < 0x100
    requires b0 + 0x100 * b1 + 0x1_0000 * b2 + 0x100_0000 * b3 == c0 + 0x100 * c1 + 0x1_0000 * c2 + 0x100_0000 * c3
    ensures b0 == c0 && b1 == c1 && b2 == c2 && b3 == c3
  {
    DigitAgrees(b0, b1 + 0x100 * b2 + 0x1_0000 * b3, c0, c1 + 0x100 * c2 + 0x1_0000 * c3);
    DigitAgrees(b1, b2 + 0x100 * b3, c1, c2 + 0x100 * c3);
    DigitAgrees(b2, b3, c2, c3);
  }

  lemma DigitAgrees(x: int, p: int, y: int, q: int)
    requires 0 <= x < 0x100 && 0 <= y < 0x100 && x + 0x100 * p == y + 0x100 * q
    ensures x == y && p == q
  {
  }

  lemma HalvesAreEqual(m: seq<Byte>, n: seq<Byte>, a: nat)
    requires a + 8 <= |m| == |n| && Word64(m, a) == Word64(n, a)
    ensures forall i :: a <= i < a + 8 ==> m[i] == n[i]
  {
    hide Word32;
    assert Word32(m, a) == Word64(m, a) % 0x1_0000_0000;
    assert Word32(n, a) == Word64(n, a) % 0x1_0000_0000;
    JoinIsInjective(m, n, a);
    JoinIsInjective(m, n, a + 4);
  }

  lemma DecodeIsInjective(s: Slot, t: Slot)
    requires Decode(s) == Decode(t)
    ensures s == t
  {
    hide Word32, Word64;
    HalvesAreEqual(s, t, 0);
    HalvesAreEqual(s, t, 8);
    JoinIsInjective(s, t, 16);
    JoinIsInjective(s, t, 20);
  }
}
