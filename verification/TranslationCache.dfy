/**
 The processor that runs the loader once paging is on. Every operand address goes through
 a translation lookaside buffer, a cache of directory entries, or the page walk, and both
 caches may be filled speculatively and evicted at any moment (Intel SDM volume 3A,
 section 4.10). The loader rewrites the live directory and never flushes.
 */
module TranslationCache {
  import opened Memory
  import opened Paging

  datatype Cpu = Cpu(
    ram: seq<Byte>,
    done: nat,                      // operations executed
    tlb: map<nat, Translation>,     // by page number
    directory: map<nat, Word>,      // cached directory entries, by index
    faulted: bool)

  datatype Event =
    | Execute                       // the next operation of the loader
    | CacheTranslation(page: nat)
    | CacheEntry(d: nat)
    | EvictTranslation(page: nat)
    | EvictEntry(d: nat)

  predicate Sized(c: Cpu)
  {
    |c.ram| >= RAM_MIN && c.done <= TOTAL
  }

  /** The translation the processor uses for a page: what is cached, before what memory says. */
  function Lookup(c: Cpu, page: nat): (t: Translation)
    requires Sized(c) && page < PAGES
  {
    if page in c.tlb then c.tlb[page]
    else if page / 1024 in c.directory then WalkTable(c.ram, c.directory[page / 1024], page)
    else Walk(c.ram, DIRECTORY, page)
  }

  /** The physical address of a linear operand, for a read or a write. */
  function Operand(c: Cpu, linear: Word, size: nat): (r: Option<nat>)
    requires Sized(c)
  {
    match Lookup(c, linear / 0x1000)
    case PageFault => None
    case Mapped(frame, writable) =>
      var physical := frame * 0x1000 + linear % 0x1000;
      if writable && physical + size <= |c.ram| then Some(physical) else None
  }

  function ExecuteNext(c: Cpu): (r: Cpu)
    requires Sized(c)
    ensures Sized(r)
  {
    if c.faulted || c.done == TOTAL then c
    else
      match BootOp(c.done)
      case StoreWord(a, w) =>
        var to := Operand(c, a, 4);
        if to.None? then c.(faulted := true)
        else c.(ram := Store32(c.ram, to.value, w), done := c.done + 1)
      case CopyByte(s, d) =>
        var from, to := Operand(c, s, 1), Operand(c, d, 1);
        if from.None? || to.None? then c.(faulted := true)
        else c.(ram := Put(c.ram, to.value, [c.ram[from.value]]), done := c.done + 1)
  }

  function Step(c: Cpu, e: Event): (r: Cpu)
    requires Sized(c)
    ensures Sized(r)
  {
    match e
    case Execute => ExecuteNext(c)
    case CacheTranslation(page) =>
      if page < PAGES && Lookup(c, page).Mapped? then c.(tlb := c.tlb[page := Lookup(c, page)]) else c
    case CacheEntry(d) =>
      if d < 1024 && Present(Entry(c.ram, DIRECTORY, d))
      then c.(directory := c.directory[d := Entry(c.ram, DIRECTORY, d)])
      else c
    case EvictTranslation(page) => c.(tlb := c.tlb - {page})
    case EvictEntry(d) => c.(directory := c.directory - {d})
  }

  function Perform(c: Cpu, events: seq<Event>): (r: Cpu)
    requires Sized(c)
    ensures Sized(r)
    decreases |events|
  {
    if events == [] then c else Perform(Step(c, events[0]), events[1..])
  }

  /** A cached translation is used until it is evicted, whatever memory says meanwhile. */
  lemma {:induction false} CachedUntilEvicted(c: Cpu, page: nat, events: seq<Event>)
    requires Sized(c) && page < PAGES && page in c.tlb && EvictTranslation(page) !in events
    ensures var r := Perform(c, events);
            page in r.tlb && Lookup(r, page) == c.tlb[page]
    decreases |events|
  {
    hide Walk, WalkTable;
    if events != [] {
      assert events[0] != EvictTranslation(page);
      TlbAfterExecute(c);
      CachedUntilEvicted(Step(c, events[0]), page, events[1..]);
    }
  }

  lemma TlbAfterExecute(c: Cpu)
    requires Sized(c)
    ensures ExecuteNext(c).tlb == c.tlb && ExecuteNext(c).directory == c.directory
  {
    hide Operand, BootOp;
  }

  /** So is a cached directory entry, for pages with no translation of their own, until it is
      evicted or cached anew. */
  lemma EntryUsed(c: Cpu, page: nat)
    requires Sized(c) && page < PAGES && page / 1024 in c.directory
    ensures var r := ExecuteNext(Step(c, EvictTranslation(page)));
            Lookup(r, page) == WalkTable(r.ram, c.directory[page / 1024], page)
  {
    hide Walk, WalkTable;
    TlbAfterExecute(Step(c, EvictTranslation(page)));
  }

  /** Just after paging is switched on: loading CR3 has emptied both caches. */
  function Start(m: seq<Byte>): (c: Cpu)
    requires |m| >= RAM_MIN
    ensures Sized(c)
  {
    Cpu(Run(m, PAGING_ON), PAGING_ON, map[], map[], false)
  }

  ghost predicate Coherent(m: seq<Byte>, c: Cpu)
    requires |m| >= RAM_MIN
  {
    && Sized(c) && PAGING_ON <= c.done && !c.faulted
    && c.ram == Run(m, c.done)
    && (forall p :: p in c.tlb ==> p < PAGES && MappedAt(c.done, p) && c.tlb[p] == Mapped(p, true))
    && (forall d :: d in c.directory ==> d < 1024 && LoaderEntry(c.done, d, c.directory[d]))
  }

  /** In a coherent state every lookup, by whatever route, agrees with the current tables. */
  lemma LookupIsWalk(m: seq<Byte>, c: Cpu, page: nat)
    requires |m| >= RAM_MIN && Coherent(m, c) && page < PAGES
    ensures Lookup(c, page) == Walk(c.ram, DIRECTORY, page)
    ensures Lookup(c, page) == if MappedAt(c.done, page) then Mapped(page, true) else PageFault
  {
    WalkIsIdentity(m, c.done, page);
    if page !in c.tlb && page / 1024 in c.directory {
      LayoutHolds(m, c.done);
      TableIdentity(c.ram, c.done, c.directory[page / 1024], page);
    }
  }

  lemma OperandIsPhysical(m: seq<Byte>, c: Cpu, linear: Word, size: nat)
    requires |m| >= RAM_MIN && Coherent(m, c) && linear + size <= RAM_MIN
    ensures Operand(c, linear, size) == Some(linear)
  {
    assert Sized(c);
    PageOffset(linear);
    hide Lookup, Coherent, Walk, Operand;
    LookupIsWalk(m, c, linear / 0x1000);
    OperandThrough(c, linear, size);
  }

  lemma OperandThrough(c: Cpu, linear: Word, size: nat)
    requires Sized(c) && linear + size <= |c.ram| && linear / 0x1000 < PAGES
    requires Lookup(c, linear / 0x1000) == Mapped(linear / 0x1000, true)
    ensures Operand(c, linear, size) == Some(linear)
  {
    hide Lookup;
    PageOffset(linear);
  }

  /** An operation whose operands translate to themselves acts on memory as if untranslated. */
  lemma ExecuteDirectly(c: Cpu, op: Op)
    requires Sized(c) && c.done < TOTAL && !c.faulted && op == BootOp(c.done)
    requires op.StoreWord? ==> Operand(c, op.addr, 4) == Some(op.addr)
    requires op.CopyByte? ==> Operand(c, op.src, 1) == Some(op.src) && Operand(c, op.dst, 1) == Some(op.dst)
    ensures ExecuteNext(c) == c.(ram := Apply(c.ram, op), done := c.done + 1)
  {
  }

  lemma ExecuteCoherent(m: seq<Byte>, c: Cpu)
    requires |m| >= RAM_MIN && Coherent(m, c) && c.done < TOTAL
    ensures Coherent(m, ExecuteNext(c)) && ExecuteNext(c).done == c.done + 1
  {
    hide Apply, BootOp, Operand, ExecuteNext;
    var op := BootOp(c.done);
    match op {
      case StoreWord(a, _) => OperandIsPhysical(m, c, a, 4);
      case CopyByte(s, d) =>
        OperandIsPhysical(m, c, s, 1);
        OperandIsPhysical(m, c, d, 1);
    }
    ExecuteDirectly(c, op);
  }

  lemma CacheEntryCoherent(m: seq<Byte>, c: Cpu, d: nat)
    requires |m| >= RAM_MIN && Coherent(m, c) && d < 1024
    ensures Coherent(m, Step(c, CacheEntry(d)))
  {
    hide Run, Entry;
    LayoutHolds(m, c.done);
    assert Entry(c.ram, DIRECTORY, d) == DirectoryEntry(c.done, d);
  }

  lemma StepCoherent(m: seq<Byte>, c: Cpu, e: Event)
    requires |m| >= RAM_MIN && Coherent(m, c)
    ensures Coherent(m, Step(c, e))
    ensures Step(c, e).done == if e.Execute? then Min(TOTAL, c.done + 1) else c.done
  {
    match e
    case Execute => if c.done < TOTAL { ExecuteCoherent(m, c); }
    case CacheTranslation(page) => if page < PAGES { LookupIsWalk(m, c, page); }
    case CacheEntry(d) => if d < 1024 { CacheEntryCoherent(m, c, d); }
    case EvictTranslation(_) =>
    case EvictEntry(_) =>
  }

  /** The number of operations that a run of events attempts. */
  function Attempts(events: seq<Event>): nat
  {
    if events == [] then 0 else (if events[0].Execute? then 1 else 0) + Attempts(events[1..])
  }

  function Min(a: nat, b: nat): nat { if a < b then a else b }

  lemma {:induction false} PerformCoherent(m: seq<Byte>, c: Cpu, events: seq<Event>)
    requires |m| >= RAM_MIN && Coherent(m, c)
    ensures Coherent(m, Perform(c, events))
    ensures Perform(c, events).done == Min(TOTAL, c.done + Attempts(events))
    decreases |events|
  {
    if events != [] {
      StepCoherent(m, c, events[0]);
      PerformCoherent(m, Step(c, events[0]), events[1..]);
    }
  }

  /** Whatever the caches do, the loader never faults or stalls, leaves memory exactly as if
      every operation went to the physical address it names, and no translation obtained from a
      cache ever differs from the current tables, although nothing is flushed. */
  lemma CachesAreInvisible(m: seq<Byte>, events: seq<Event>)
    requires |m| >= RAM_MIN
    ensures var c := Perform(Start(m), events);
            && !c.faulted
            && c.done == Min(TOTAL, PAGING_ON + Attempts(events))
            && c.ram == Run(m, c.done)
            && (forall p :: p in c.tlb ==> p < PAGES && c.tlb[p] == Walk(c.ram, DIRECTORY, p))
            && (forall p :: 0 <= p < PAGES ==> Lookup(c, p) == Walk(c.ram, DIRECTORY, p))
  {
    PerformCoherent(m, Start(m), events);
    var c := Perform(Start(m), events);
    forall p | 0 <= p < PAGES ensures Lookup(c, p) == Walk(c.ram, DIRECTORY, p) {
      LookupIsWalk(m, c, p);
    }
    forall p | p in c.tlb ensures p < PAGES && c.tlb[p] == Walk(c.ram, DIRECTORY, p) {
      LookupIsWalk(m, c, p);
    }
  }
}
