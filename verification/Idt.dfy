/**
 The interrupt descriptor table (Intel SDM volume 3A, section 6.11) and the table of
 11-byte wrappers behind it, built byte by byte in low memory as interrupts are installed.
 */
module Idt {
  import opened Memory

  const TABLES_END: nat := 0x7F00
  const GATES: nat := 256

  /** The 256 gates are at 6C00h and their wrappers right behind them, at 7400h. */
  function GateAt(n: nat): nat { 0x6C00 + 8 * n }

  function WrapperAt(n: nat): nat { 0x7400 + 11 * n }

  /** A gate descriptor: the offset is split into its halves. */
  function GateBytes(offset: Word, selector: nat, kind: Byte): (bs: seq<Byte>)
    requires selector < 0x1_0000
    ensures |bs| == 8
  {
    [offset % 0x100, offset % 0x1_0000 / 0x100] + Bytes16(selector) + [0, kind]
    + [offset % 0x100_0000 / 0x1_0000, offset / 0x100_0000]
  }

  /** pushad, cld, far call to 8:`isr`, popad, iretd. */
  function WrapperBytes(isr: Word): (bs: seq<Byte>)
    ensures |bs| == 11
  {
    [0x60, 0xFC, 0x9A] + Bytes32(isr) + [8, 0, 0x61, 0xCF]
  }

  function Gate(m: seq<Byte>, n: nat): (bs: seq<Byte>)
    requires n < GATES && |m| >= TABLES_END
    ensures |bs| == 8
  {
    m[GateAt(n)..GateAt(n) + 8]
  }

  function Wrapper(m: seq<Byte>, n: nat): (bs: seq<Byte>)
    requires n < GATES && |m| >= TABLES_END
    ensures |bs| == 11
  {
    m[WrapperAt(n)..WrapperAt(n) + 11]
  }

  // ---------- what the processor reads ----------

  function GateOffset(gate: seq<Byte>): (offset: Word)
    requires |gate| == 8
  {
    Join32(gate[0], gate[1], gate[6], gate[7])
  }

  predicate Present(gate: seq<Byte>)
    requires |gate| == 8
  {
    gate[5] >= 0x80
  }

  function CalledHandler(wrapper: seq<Byte>): (isr: Word)
    requires |wrapper| == 11
  {
    Join32(wrapper[3], wrapper[4], wrapper[5], wrapper[6])
  }

  lemma Decodes(offset: Word, selector: nat, kind: Byte, isr: Word)
    requires selector < 0x1_0000
    ensures var gate := GateBytes(offset, selector, kind);
            && GateOffset(gate) == offset && Word16(gate, 2) == selector && gate[4] == 0 && gate[5] == kind
    ensures var wrapper := WrapperBytes(isr);
            && wrapper[..3] == [0x60, 0xFC, 0x9A] && wrapper[7..] == [8, 0, 0x61, 0xCF]
            && CalledHandler(wrapper) == isr == Word32(wrapper, 3)
  {
    JoinBytes(offset);
    JoinBytes(isr);
  }

  // ---------- installing, as a function ----------

  function SetGate(m: seq<Byte>, n: nat, offset: Word, selector: nat, kind: Byte): (r: seq<Byte>)
    requires n < GATES && |m| >= TABLES_END && selector < 0x1_0000
    ensures |r| == |m|
  {
    Put(m, GateAt(n), GateBytes(offset, selector, kind))
  }

  function SetWrapper(m: seq<Byte>, n: nat, isr: Word): (r: seq<Byte>)
    requires n < GATES && |m| >= TABLES_END
    ensures |r| == |m|
  {
    Put(m, WrapperAt(n), WrapperBytes(isr))
  }

  /** `add_null_gates`: empty gates from `count` up to `number`. Each points at the wrapper of
      `number`, which is rewritten each time. */
  function NullGates(m: seq<Byte>, count: nat, number: nat): (r: seq<Byte>)
    requires number < GATES && |m| >= TABLES_END
    ensures |r| == |m|
    decreases number - count
  {
    if count >= number then m
    else NullGates(SetWrapper(SetGate(m, count, WrapperAt(number), 0, 0), number, 0), count + 1, number)
  }

  datatype Table = Table(mem: seq<Byte>, count: nat, limit: nat)

  datatype Request = Request(number: nat, isr: Word, kind: Byte)

  /** `idt_install_interrupt`. */
  function Install(t: Table, q: Request): (r: Table)
    requires q.number < GATES && |t.mem| >= TABLES_END
    ensures |r.mem| == |t.mem|
  {
    var prepared := if t.count <= q.number then NullGates(t.mem, t.count, q.number) else t.mem;
    var count := if t.count <= q.number then q.number + 1 else t.count;
    var gated := SetGate(prepared, q.number, WrapperAt(q.number), 8, q.kind);
    Table(SetWrapper(gated, q.number, q.isr), count, (8 * count - 1) % 0x1_0000)
  }

  // ---------- what every sequence of calls leaves ----------

  /** Gate and wrapper `n` serve request `q`. */
  predicate ServesOne(m: seq<Byte>, n: nat, q: Request)
    requires |m| >= TABLES_END && n < GATES
  {
    Gate(m, n) == GateBytes(WrapperAt(n), 8, q.kind) && Wrapper(m, n) == WrapperBytes(q.isr)
  }

  /** Count and limit follow the largest number. */
  ghost predicate Counted(t: Table, live: map<nat, Request>)
  {
    && |t.mem| >= TABLES_END && t.count <= GATES
    && (forall n :: n in live ==> n < t.count)
    && (if t.count == 0 then t.limit == 0 else t.count - 1 in live && t.limit == 8 * t.count - 1)
  }

  ghost predicate LiveServed(t: Table, live: map<nat, Request>)
    requires Counted(t, live)
  {
    forall n :: n in live ==> ServesOne(t.mem, n, live[n])
  }

  ghost predicate GapsAbsent(t: Table, live: map<nat, Request>)
    requires Counted(t, live)
  {
    forall n :: 0 <= n < t.count && n !in live ==> !Present(Gate(t.mem, n))
  }

  /** The table serves exactly the requests in `live`, by number. */
  ghost predicate Serves(t: Table, live: map<nat, Request>)
  {
    Counted(t, live) && LiveServed(t, live) && GapsAbsent(t, live)
  }

  lemma SetGateOnly(m: seq<Byte>, k: nat, offset: Word, selector: nat, kind: Byte, n: nat)
    requires k < GATES && n < GATES && |m| >= TABLES_END && selector < 0x1_0000
    ensures var r := SetGate(m, k, offset, selector, kind);
            && Gate(r, n) == (if n == k then GateBytes(offset, selector, kind) else Gate(m, n))
            && Wrapper(r, n) == Wrapper(m, n)
  {
  }

  lemma SetWrapperOnly(m: seq<Byte>, k: nat, isr: Word, n: nat)
    requires k < GATES && n < GATES && |m| >= TABLES_END
    ensures var r := SetWrapper(m, k, isr);
            && Gate(r, n) == Gate(m, n)
            && Wrapper(r, n) == if n == k then WrapperBytes(isr) else Wrapper(m, n)
  {
  }

  lemma NullGatesNext(m: seq<Byte>, count: nat, number: nat)
    requires number < GATES && |m| >= TABLES_END
    ensures WrapperAt(number) < 0x1_0000
    ensures NullGates(m, count, number) ==
            if count >= number then m
            else NullGates(SetWrapper(SetGate(m, count, WrapperAt(number), 0, 0), number, 0), count + 1, number)
  {
    hide SetGate, SetWrapper;
  }

  lemma NullNotPresent(offset: Word)
    ensures !Present(GateBytes(offset, 0, 0))
  {
  }

  lemma {:induction false} NullGatesOnly(m: seq<Byte>, count: nat, number: nat, n: nat)
    requires number < GATES && n < GATES && |m| >= TABLES_END
    ensures var r := NullGates(m, count, number);
            && (count <= n < number ==> !Present(Gate(r, n)))
            && (n < count || number <= n ==> Gate(r, n) == Gate(m, n))
            && (n != number ==> Wrapper(r, n) == Wrapper(m, n))
    decreases number - count
  {
    hide *;
    NullGatesNext(m, count, number);
    if count < number {
      NullNotPresent(WrapperAt(number));
      var gated := SetGate(m, count, WrapperAt(number), 0, 0);
      SetGateOnly(m, count, WrapperAt(number), 0, 0, n);
      SetWrapperOnly(gated, number, 0, n);
      NullGatesOnly(SetWrapper(gated, number, 0), count + 1, number, n);
    }
  }

  /** What one call does to each gate and wrapper: only its own are live afterwards that were
      not before, and no live one of another number is disturbed. */
  lemma InstallOnly(t: Table, q: Request, n: nat)
    requires q.number < GATES && n < GATES && |t.mem| >= TABLES_END
    ensures var r := Install(t, q);
            && (n == q.number ==> ServesOne(r.mem, n, q))
            && (n < t.count && n != q.number ==>
                  Gate(r.mem, n) == Gate(t.mem, n) && Wrapper(r.mem, n) == Wrapper(t.mem, n))
            && (t.count <= n < q.number ==> !Present(Gate(r.mem, n)))
  {
    hide SetGate, SetWrapper, Gate, Wrapper, GateBytes, WrapperBytes, NullGates;
    var prepared := if t.count <= q.number then NullGates(t.mem, t.count, q.number) else t.mem;
    if t.count <= q.number {
      NullGatesOnly(t.mem, t.count, q.number, n);
    }
    SetGateOnly(prepared, q.number, WrapperAt(q.number), 8, q.kind, n);
    SetWrapperOnly(SetGate(prepared, q.number, WrapperAt(q.number), 8, q.kind), q.number, q.isr, n);
  }

  lemma InstallServes(t: Table, live: map<nat, Request>, q: Request)
    requires Serves(t, live) && q.number < GATES
    ensures Serves(Install(t, q), live[q.number := q])
  {
    hide LiveServed, GapsAbsent, Counted, Install;
    CountedAfter(t, live, q);
    LiveAfter(t, live, q);
    GapsAfter(t, live, q);
  }

  lemma CountedAfter(t: Table, live: map<nat, Request>, q: Request)
    requires Counted(t, live) && q.number < GATES
    ensures Counted(Install(t, q), live[q.number := q])
  {
    InstallCounts(t, q);
    hide Install;
  }

  lemma LiveAfter(t: Table, live: map<nat, Request>, q: Request)
    requires Counted(t, live) && LiveServed(t, live) && q.number < GATES
    ensures Counted(Install(t, q), live[q.number := q]) && LiveServed(Install(t, q), live[q.number := q])
  {
    CountedAfter(t, live, q);
    var more := live[q.number := q];
    hide Install, ServesOne;
    forall n | n in more ensures ServesOne(Install(t, q).mem, n, more[n]) {
      InstallKeeps(t, q, n, more[n]);
    }
  }

  lemma GapsAfter(t: Table, live: map<nat, Request>, q: Request)
    requires Counted(t, live) && GapsAbsent(t, live) && q.number < GATES
    ensures Counted(Install(t, q), live[q.number := q]) && GapsAbsent(Install(t, q), live[q.number := q])
  {
    CountedAfter(t, live, q);
    InstallCounts(t, q);
    hide Install, ServesOne, Present, Gate;
    forall n | 0 <= n < Install(t, q).count && n !in live[q.number := q] ensures !Present(Gate(Install(t, q).mem, n)) {
      InstallOnly(t, q, n);
    }
  }

  lemma InstallCounts(t: Table, q: Request)
    requires q.number < GATES && t.count <= GATES && |t.mem| >= TABLES_END
    ensures var r := Install(t, q);
            r.count == (if t.count <= q.number then q.number + 1 else t.count) && r.limit == 8 * r.count - 1
  {
    hide NullGates, SetGate, SetWrapper;
  }

  lemma InstallKeeps(t: Table, q: Request, n: nat, x: Request)
    requires q.number < GATES && n < GATES && |t.mem| >= TABLES_END
    requires if n == q.number then x == q else n < t.count && ServesOne(t.mem, n, x)
    ensures ServesOne(Install(t, q).mem, n, x)
  {
    hide Install, Gate, Wrapper, GateBytes, WrapperBytes;
    InstallOnly(t, q, n);
  }

  function InstallAll(t: Table, qs: seq<Request>): (r: Table)
    requires |t.mem| >= TABLES_END && forall i :: 0 <= i < |qs| ==> qs[i].number < GATES
    ensures |r.mem| == |t.mem|
    decreases |qs|
  {
    if qs == [] then t else Install(InstallAll(t, qs[..|qs| - 1]), qs[|qs| - 1])
  }

  /** The most recent request of each number. */
  function Latest(qs: seq<Request>): (live: map<nat, Request>)
    ensures forall n :: n in live <==> exists i :: 0 <= i < |qs| && qs[i].number == n
    ensures forall n :: n in live ==> live[n] in qs && live[n].number == n
    ensures forall i :: 0 <= i < |qs| && (forall j :: i < j < |qs| ==> qs[j].number != qs[i].number) ==>
              qs[i].number in live && live[qs[i].number] == qs[i]
    decreases |qs|
  {
    if qs == [] then map[]
    else
      var q, rest := qs[|qs| - 1], qs[..|qs| - 1];
      assert qs == rest + [q];
      Latest(rest)[q.number := q]
  }

  /** From an empty table, any sequence of installations leaves a table that serves exactly
      the most recent request of every number: the gate's split offset leads to the number's
      own wrapper, which calls that handler; the gates between are not present; and count and
      limit follow the largest number. */
  lemma {:induction false} AnyRunServesLatest(m: seq<Byte>, qs: seq<Request>)
    requires |m| >= TABLES_END && forall i :: 0 <= i < |qs| ==> qs[i].number < GATES
    ensures Serves(InstallAll(Table(m, 0, 0), qs), Latest(qs))
    decreases |qs|
  {
    if qs != [] {
      AnyRunServesLatest(m, qs[..|qs| - 1]);
      InstallServes(InstallAll(Table(m, 0, 0), qs[..|qs| - 1]), Latest(qs[..|qs| - 1]), qs[|qs| - 1]);
    }
  }

  /** The path of an interrupt through a serving table. */
  lemma ServedInterrupt(t: Table, live: map<nat, Request>, n: nat)
    requires Serves(t, live) && n < GATES
    ensures n in live ==>
              && 8 * n + 7 <= t.limit
              && GateOffset(Gate(t.mem, n)) == WrapperAt(n) == 0x7400 + 11 * n
              && Word16(Gate(t.mem, n), 2) == 8 && Gate(t.mem, n)[4] == 0
              && Gate(t.mem, n)[5] == live[n].kind
              && CalledHandler(Wrapper(t.mem, n)) == live[n].isr
    ensures n !in live ==> (t.count == 0 || 8 * n + 7 > t.limit) || Gate(t.mem, n)[5] < 128
  {
    if n in live {
      Decodes(WrapperAt(n), 8, live[n].kind, live[n].isr);
    }
  }

  /** The same in bytes of memory: gate `n` at 6C00h + 8n selects segment 8 and the address of
      wrapper `n`, which is pushad, cld, far call to 8:handler, popad, iretd. */
  lemma ServedBytes(t: Table, live: map<nat, Request>, n: nat)
    requires Serves(t, live) && n in live && n < GATES
    ensures |t.mem| >= 0x7F00
    ensures var m, g, w := t.mem, 0x6C00 + 8 * n, 0x7400 + 11 * n;
            && Join32(m[g], m[g + 1], m[g + 6], m[g + 7]) == w
            && m[g + 2] == 8 && m[g + 3] == 0 && m[g + 4] == 0 && m[g + 5] == live[n].kind
            && m[w] == 0x60 && m[w + 1] == 0xFC && m[w + 2] == 0x9A
            && Word32(m, w + 3) == live[n].isr
            && m[w + 7] == 8 && m[w + 8] == 0 && m[w + 9] == 0x61 && m[w + 10] == 0xCF
  {
    hide ServesOne;
    ServingBytes(t.mem, n, live[n]);
  }

  lemma ServingBytes(m: seq<Byte>, n: nat, q: Request)
    requires |m| >= TABLES_END && n < GATES && ServesOne(m, n, q)
    ensures var g, w := 0x6C00 + 8 * n, 0x7400 + 11 * n;
            && Join32(m[g], m[g + 1], m[g + 6], m[g + 7]) == w
            && m[g + 2] == 8 && m[g + 3] == 0 && m[g + 4] == 0 && m[g + 5] == q.kind
            && m[w] == 0x60 && m[w + 1] == 0xFC && m[w + 2] == 0x9A
            && Word32(m, w + 3) == q.isr
            && m[w + 7] == 8 && m[w + 8] == 0 && m[w + 9] == 0x61 && m[w + 10] == 0xCF
  {
    Decodes(WrapperAt(n), 8, q.kind, q.isr);
    hide GateBytes, WrapperBytes, Join32;
    var gate, wrapper := Gate(m, n), Wrapper(m, n);
    GateInMemory(m, n);
    WrapperInMemory(m, n);
    assert gate == GateBytes(WrapperAt(n), 8, q.kind) && wrapper == WrapperBytes(q.isr);
    hide Gate, Wrapper;
    assert wrapper[..3][0] == wrapper[0] && wrapper[..3][1] == wrapper[1] && wrapper[..3][2] == wrapper[2];
    assert wrapper[7..][0] == wrapper[7] && wrapper[7..][1] == wrapper[8];
    assert wrapper[7..][2] == wrapper[9] && wrapper[7..][3] == wrapper[10];
    SelectorEight(gate);
  }

  lemma InstalledBytes(t: Table, q: Request)
    requires q.number < GATES && |t.mem| >= TABLES_END
    ensures var m, g, w := Install(t, q).mem, 0x6C00 + 8 * q.number, 0x7400 + 11 * q.number;
            && Join32(m[g], m[g + 1], m[g + 6], m[g + 7]) == w
            && m[g + 2] == 8 && m[g + 3] == 0 && m[g + 4] == 0 && m[g + 5] == q.kind
            && Join32(m[w + 3], m[w + 4], m[w + 5], m[w + 6]) == q.isr
  {
    hide Install, ServesOne;
    InstallOnly(t, q, q.number);
    ServingBytes(Install(t, q).mem, q.number, q);
  }

  lemma SelectorEight(gate: seq<Byte>)
    requires |gate| == 8 && Word16(gate, 2) == 8
    ensures gate[2] == 8 && gate[3] == 0
  {
  }

  lemma GateInMemory(m: seq<Byte>, n: nat)
    requires n < GATES && |m| >= TABLES_END
    ensures forall i :: 0 <= i < 8 ==> Gate(m, n)[i] == m[0x6C00 + 8 * n + i]
  {
  }

  lemma WrapperInMemory(m: seq<Byte>, n: nat)
    requires n < GATES && |m| >= TABLES_END
    ensures forall i :: 0 <= i < 11 ==> Wrapper(m, n)[i] == m[0x7400 + 11 * n + i]
  {
  }

  // ---------- in place ----------

  class Builder {
    const mem: array<Byte>
    var idtGateCount: nat
    var length: nat          // idtr_info.length
    var genericIsr: Word     // generic_wrapper.isr_addr

    ghost function Now(): (t: Table)
      reads this, mem
    {
      Table(mem[..], idtGateCount, length)
    }

    constructor (mem: array<Byte>)
      ensures this.mem == mem && Now() == Table(mem[..], 0, 0)
    {
      this.mem, idtGateCount, length, genericIsr := mem, 0, 0, 0;
    }

    /** `__set_isr_wrapper`: the address goes through the static generic wrapper. */
    method SetIsrWrapper(n: nat, isr: Word)
      requires n < GATES && mem.Length >= TABLES_END
      modifies this`genericIsr, mem
      ensures mem[..] == SetWrapper(old(mem[..]), n, isr)
      ensures var w := 0x7400 + 11 * n;
              && mem[w] == 0x60 && mem[w + 1] == 0xFC && mem[w + 2] == 0x9A
              && Join32(mem[w + 3], mem[w + 4], mem[w + 5], mem[w + 6]) == isr
              && mem[w + 7] == 8 && mem[w + 8] == 0 && mem[w + 9] == 0x61 && mem[w + 10] == 0xCF
    {
      JoinBytes(isr);
      genericIsr := isr;
      var bytes := WrapperBytes(genericIsr);
      forall i | 0 <= i < 11 {
        mem[WrapperAt(n) + i] := bytes[i];
      }
    }

    /** `__set_idt_gate`: the halves of the offset by shifting left and right. */
    method SetIdtGate(n: nat, offset: Word, segment: nat, kind: Byte)
      requires n < GATES && mem.Length >= TABLES_END && segment < 0x1_0000
      modifies mem
      ensures mem[..] == SetGate(old(mem[..]), n, offset, segment, kind)
      ensures var g := 0x6C00 + 8 * n;
              && Join32(mem[g], mem[g + 1], mem[g + 6], mem[g + 7]) == offset
              && mem[g + 2] == segment % 256 && mem[g + 3] == segment / 256 && mem[g + 4] == 0 && mem[g + 5] == kind
    {
      JoinBytes(offset);
      var low := offset * 0x1_0000 % 0x1_0000_0000 / 0x1_0000;
      var high := offset / 0x1_0000;
      ShiftLeftRight(offset);
      assert [low % 0x100, low / 0x100, segment % 0x100, segment / 0x100, 0, kind, high % 0x100, high / 0x100]
             == GateBytes(offset, segment, kind) by { LowBytes(offset); }
      hide GateBytes;
      var a := GateAt(n);
      mem[a], mem[a + 1] := low % 0x100, low / 0x100;
      mem[a + 6], mem[a + 7] := high % 0x100, high / 0x100;
      mem[a + 2], mem[a + 3] := segment % 0x100, segment / 0x100;
      mem[a + 4] := 0;
      mem[a + 5] := kind;
    }

    method AddNullGates(number: nat)
      requires number < GATES && idtGateCount <= number && mem.Length >= TABLES_END
      modifies this`idtGateCount, this`genericIsr, mem
      ensures idtGateCount == number && mem[..] == NullGates(old(mem[..]), old(idtGateCount), number)
    {
      hide *;
      while number - idtGateCount != 0
        invariant idtGateCount <= number
        invariant NullGates(mem[..], idtGateCount, number) == NullGates(old(mem[..]), old(idtGateCount), number)
        decreases number - idtGateCount
      {
        NullGatesNext(mem[..], idtGateCount, number);
        SetIdtGate(idtGateCount, WrapperAt(number), 0, 0);
        SetIsrWrapper(number, 0);
        idtGateCount := idtGateCount + 1;
      }
      NullGatesNext(mem[..], number, number);
    }

    method InstallInterrupt(number: nat, isr: Word, kind: Byte)
      requires number < GATES && mem.Length >= TABLES_END
      modifies this, mem
      ensures Now() == Install(old(Now()), Request(number, isr, kind))
      ensures var g, w := 0x6C00 + 8 * number, 0x7400 + 11 * number;
              && Join32(mem[g], mem[g + 1], mem[g + 6], mem[g + 7]) == w
              && mem[g + 2] == 8 && mem[g + 3] == 0 && mem[g + 4] == 0 && mem[g + 5] == kind
              && Join32(mem[w + 3], mem[w + 4], mem[w + 5], mem[w + 6]) == isr
    {
      InstalledBytes(Now(), Request(number, isr, kind));
      hide *;
      Enter(number, isr, kind);
      assert mem[..] == Now().mem by { NowMeans(); }
    }

    lemma NowMeans()
      ensures Now() == Table(mem[..], idtGateCount, length)
    {
    }

    method Enter(number: nat, isr: Word, kind: Byte)
      requires number < GATES && mem.Length >= TABLES_END
      modifies this, mem
      ensures Now() == Install(old(Now()), Request(number, isr, kind))
    {
      hide SetGate, SetWrapper, NullGates;
      if idtGateCount <= number {
        AddNullGates(number);
        idtGateCount := idtGateCount + 1;
      }
      SetIdtGate(number, WrapperAt(number), 8, kind);
      SetIsrWrapper(number, isr);
      length := (8 * idtGateCount - 1) % 0x1_0000;
    }
  }

  lemma LowBytes(x: Word)
    ensures x % 0x1_0000 % 0x100 == x % 0x100
  {
  }

  lemma ShiftLeftRight(x: Word)
    ensures x * 0x1_0000 % 0x1_0000_0000 / 0x1_0000 == x % 0x1_0000
    ensures x / 0x1_0000 % 0x100 == x % 0x100_0000 / 0x1_0000 && x / 0x1_0000 / 0x100 == x / 0x100_0000
  {
    var q: int, r: int := x / 0x1_0000, x % 0x1_0000;
    assert x * 0x1_0000 == r * 0x1_0000 + 0x1_0000_0000 * q;
    assert x * 0x1_0000 % 0x1_0000_0000 == r * 0x1_0000;
    var q1: int, q0: int := q / 0x100, q % 0x100;
    assert x == 0x100_0000 * q1 + (0x1_0000 * q0 + r);
    assert x % 0x100_0000 == 0x1_0000 * q0 + r && x / 0x100_0000 == q1;
  }
}
