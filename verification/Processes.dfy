/** The memory manager over the life of the system: allocations and writes of the kernel, mappings at
    fixed addresses, and the creation of address spaces, in any order. */
module Processes {
  import opened Bits
  import opened Paging
  import opened Wrappers
  import opened PageTree
  import opened MapPages
  import opened MapRange
  import opened WalkCache
  import opened Arena
  import opened AddressSpace
  import opened Heap

  /** A call of the allocators or a write of a client; `map_pages` of given frames and
      `mapalloc_pages` at an address, as for controllers, segments and user stacks; and the switch to
      a new top level. */
  datatype Event =
    | Kernel(call: Call)
    | MapAt(v: nat, paddr: nat, n: nat, flags: nat)
    | MapFresh(va: nat, count: nat, prot: nat)
    | NewSpace

  function Step(s: Vm, e: Event): Vm
  {
    match e
    case Kernel(call) => Do(s, call).0
    case MapAt(v, paddr, n, flags) => MapPagesC(s, v, paddr, n, flags).0
    case MapFresh(v, n, flags) => MapAllocPages(s, v, n, flags).0
    case NewSpace => SwitchSpace(s)
  }

  /** No page of the range is in the virtual arena. */
  ghost predicate AvoidsArena(v: nat, n: nat, flags: nat)
  {
    forall w: nat :: VM_BEGIN_REQUEST <= w < VM_END_REQUEST ==> Dist(v, w, flags) >= n
  }

  /** All pages are in the lower half or in the PML4 slot of the kernel, where no huge pages are. */
  predicate PlainPlaces(v: nat, n: nat, flags: nat)
  {
    forall i :: 0 <= i < n ==> I4(PageAt(v, i, flags)) < HALF || I4(PageAt(v, i, flags)) == ARENA_SLOT
  }

  /** What the callers of the manager keep to. */
  ghost predicate Permitted(s: Vm, blocks: seq<Block>, e: Event)
  {
    match e
    case Kernel(call) => Allowed(s, blocks, call)
    case MapAt(v, paddr, n, flags) =>
      && SmallFlags(flags) && PlainPlaces(v, n, flags) && AvoidsArena(v, n, flags) && !Exhausted(s.phys)
      && paddr % PAGE_SIZE == 0 && paddr + n * PAGE_SIZE <= TWO52
    case MapFresh(v, n, flags) =>
      SmallFlags(flags) && PlainPlaces(v, n, flags) && AvoidsArena(v, n, flags) && FramesFit(s.phys, n)
    case NewSpace => !Exhausted(s.phys) && (s.cache.tab4 == 0 || s.cache.off4 >= HALF)
  }

  /** `load_mapping` is such a mapping, whatever segment of the lower half it is given. */
  lemma SegmentIsPermitted(s: Vm, g: Segment)
    requires VmOk(s) && SegmentOk(g)
    ensures var e := MapFresh(g.begin, SegmentPages(g), Or(g.flags, PG_USER));
            Permitted(s, [], e) && Step(s, e) == LoadMapping(s, g).0
  {
    hide MapAllocPages, VmOk, Dist, I4, PageAt, Or;
    var flags := Or(g.flags, PG_USER);
    HeadIsSmall(s);
    SegmentPagesCover(g);
    if g.begin < g.end {
      SegmentSlots(g, flags);
    }
    forall w: nat | VM_BEGIN_REQUEST <= w < VM_END_REQUEST ensures Dist(g.begin, w, flags) >= SegmentPages(g)
    {
      SegmentBelowArena(g, w, flags);
    }
  }

  lemma SegmentBelowArena(g: Segment, w: nat, flags: nat)
    requires SegmentOk(g) && VM_BEGIN_REQUEST <= w < VM_END_REQUEST && !WantsHuge(flags)
    ensures Dist(g.begin, w, flags) >= SegmentPages(g)
  {
    SegmentPagesCover(g);
    LowerSlot(g.begin);
    ArenaNumber(w);
    var b, i := g.begin / PAGE_SIZE, Trim(w) / PAGE_SIZE;
    DivMod(i - b, PAGE_COUNT, 0, i - b);
  }

  /** So are pages between the arena and the kernel text, where the interrupt controllers are. */
  lemma AboveArenaIsPermitted(v: nat, n: nat, flags: nat)
    requires VM_END_REQUEST <= v && v + n * PAGE_SIZE <= KERNEL_TEXT && v % PAGE_SIZE == 0 && SmallFlags(flags)
    ensures PlainPlaces(v, n, flags) && AvoidsArena(v, n, flags)
  {
    forall i | 0 <= i < n ensures I4(PageAt(v, i, flags)) == ARENA_SLOT
    {
      KernelSlot(v + i * PAGE_SIZE);
    }
    forall w: nat | VM_BEGIN_REQUEST <= w < VM_END_REQUEST ensures Dist(v, w, flags) >= n
    {
      KernelSlot(v);
      ArenaNumber(w);
      var j, i := Trim(v) / PAGE_SIZE, Trim(w) / PAGE_SIZE;
      assert Trim(v) == j * PAGE_SIZE;
      DivMod(i - j, PAGE_COUNT, -1, i - j + PAGE_COUNT);
    }
  }

  lemma KernelSlot(v: nat)
    requires VM_BEGIN_REQUEST <= v < TWO64
    ensures I4(v) == ARENA_SLOT && Trim(v) == v - 0xFFFF_0000_0000_0000
  {
    DivMod(v, TWO48, 0xFFFF, v - 0xFFFF_0000_0000_0000);
    DivMod(Trim(v), PML4E_COVERAGE, ARENA_SLOT, Trim(v) - ARENA_SLOT * PML4E_COVERAGE);
  }

  // ---- the invariant ----

  /** No huge page is in the lower half. */
  ghost predicate LowerPlain(s: Vm)
  {
    forall w: nat :: I4(w) < HALF ==> !HugeAt(s.phys.mem, s.top, w)
  }

  predicate DirectAt(s: Vm, x: nat)
  {
    x < HHDM_SIZE ==> Translate(s.phys.mem, s.top, HHDM_BEGIN + x) == Some(x)
  }

  /** `P2V` is a right inverse of translation. */
  ghost predicate DirectMap(s: Vm)
  {
    forall x: nat :: DirectAt(s, x)
  }

  ghost predicate SystemOk(s: Vm, chunks: seq<Chunk>, blocks: seq<Block>, cur: nat)
  {
    HeapOk(s, chunks, blocks, cur) && s.cr3 == s.top && LowerPlain(s) && DirectMap(s) && s.phys.end <= HHDM_SIZE
  }

  /** The kernel reaches each of its page tables where `P2V` says. */
  lemma TablesAreReachable(s: Vm, chunks: seq<Chunk>, blocks: seq<Block>, cur: nat, path: Path, o: nat)
    requires SystemOk(s, chunks, blocks, cur) && ValidPath(path) && Reach(s.phys.mem, s.top, path) != 0 && o < PAGE_SIZE
    ensures var t := Reach(s.phys.mem, s.top, path); Translate(s.phys.mem, s.top, HHDM_BEGIN + t + o) == Some(t + o)
  {
    hide Translate, LastEntry, HeapOk;
    HeapHasVm(s, chunks, blocks, cur);
    var t := Reach(s.phys.mem, s.top, path);
    assert t + PAGE_SIZE <= s.phys.head <= s.phys.end;
    assert DirectAt(s, t + o);
  }

  // ---- what only adds ----

  lemma OnlyAddsKeepsMaps(s: Vm, t: Vm)
    requires OnlyAdds(s.phys, t.phys, s.top) && t.top == s.top && LowerPlain(s) && DirectMap(s)
    ensures LowerPlain(t) && DirectMap(t) && t.phys.end == s.phys.end
  {
    hide Translate, LastEntry, HugeAt;
    forall x: nat ensures DirectAt(t, x)
    {
      assert DirectAt(s, x);
    }
  }

  /** Adding mappings outside the arena keeps the heap. */
  lemma AddingKeepsHeap(s: Vm, t: Vm, chunks: seq<Chunk>, blocks: seq<Block>, cur: nat)
    requires HeapOk(s, chunks, blocks, cur) && VmOk(t)
    requires OnlyAdds(s.phys, t.phys, s.top) && t == s.(phys := t.phys, cache := t.cache)
    ensures HeapOk(t, chunks, blocks, cur)
  {
    hide VmOk, OnlyAdds, ChunksOk;
    ChunksKept(s, t, chunks);
  }

  lemma PlacesArePlain(s: Vm, v: nat, n: nat, flags: nat)
    requires VmOk(s) && LowerPlain(s) && PlainPlaces(v, n, flags)
    ensures PlainRange(s, v, n, flags)
  {
    hide HugeAt, I4, PageAt;
  }

  lemma ArenaStaysFree(s: Vm, t: Vm, v: nat, n: nat, flags: nat)
    requires VmOk(s) && t == s.(phys := t.phys, cache := t.cache) && AvoidsArena(v, n, flags)
    requires OnlyAdds(s.phys, t.phys, s.top) && Shape(t.phys, t.top) && CacheUsable(t)
    requires forall w :: Dist(v, w, flags) >= n ==> Translate(t.phys.mem, t.top, w) == Translate(s.phys.mem, s.top, w)
    ensures VmOk(t)
  {
    hide Translate, LastEntry, HugeAt, OnlyAdds, Shape, Dist, CacheUsable;
    StillPlain(s.phys, t.phys, s.top, ARENA_SLOT);
  }

  lemma MapFreshKeeps(s: Vm, e: Event, chunks: seq<Chunk>, blocks: seq<Block>, cur: nat)
    requires e.MapFresh? && SystemOk(s, chunks, blocks, cur) && Permitted(s, blocks, e)
    ensures SystemOk(Step(s, e), chunks, blocks, cur) && OnlyAdds(s.phys, Step(s, e).phys, s.top)
    ensures Step(s, e).top == s.top
  {
    hide MapAllocPages, OnlyAdds, Shape, CacheUsable, HeapOk, VmOk, AvoidsArena, PlainPlaces, Dist, Translate,
         LastEntry,
         FreshlyMapped;
    HeapHasVm(s, chunks, blocks, cur);
    VmHasCache(s);
    PlacesArePlain(s, e.va, e.count, e.prot);
    MapAllocMaps(s, e.va, e.count, e.prot);
    var t := Step(s, e);
    ArenaStaysFree(s, t, e.va, e.count, e.prot);
    AddingKeepsHeap(s, t, chunks, blocks, cur);
    OnlyAddsKeepsMaps(s, t);
  }

  lemma VmHasCache(s: Vm)
    requires VmOk(s)
    ensures CacheUsable(s) && Shape(s.phys, s.top)
  {
  }

  /** `map_pages` of given frames outside the arena. */
  lemma MapGivenMaps(s: Vm, v: nat, paddr: nat, n: nat, flags: nat)
    requires VmOk(s) && !Exhausted(s.phys) && SmallFlags(flags) && PlainRange(s, v, n, flags)
    requires paddr % PAGE_SIZE == 0 && paddr + n * PAGE_SIZE <= TWO52
    ensures var t := MapPagesC(s, v, paddr, n, flags).0;
            && t == s.(phys := t.phys, cache := t.cache) && Shape(t.phys, t.top) && CacheUsable(t)
            && OnlyAdds(s.phys, t.phys, s.top)
            && (forall w :: Dist(v, w, flags) >= n ==>
                  Translate(t.phys.mem, t.top, w) == Translate(s.phys.mem, s.top, w))
  {
    hide MapAll, CachedMapAll, Translate, LastEntry, HugeAt, OnlyAdds, Shape, PlainSlot, PageAt, Dist, Coherent;
    CacheIsCoherent(s);
    VmHasCache(s);
    MapAllTranslates(s.phys, s.top, v, paddr, n, flags);
    CachedMapAllRefines(s.phys, s.cache, s.top, v, paddr, n, flags);
    var q := MapAll(s.phys, s.top, v, paddr, n, flags).0;
    var k := Progress(s.phys, s.top, v, paddr, n, flags);
    MappedOnlyAdds(s.phys, s.phys, q, s.top, v, paddr, k, flags);
    forall w | Dist(v, w, flags) >= n ensures Translate(q.mem, s.top, w) == Translate(s.phys.mem, s.top, w)
    {
      assert MappedAt(s.phys, q, s.top, v, paddr, k, flags, w);
      BeyondKeeps(s.phys, q, s.top, v, paddr, k, flags, w);
    }
  }

  lemma MapAtKeeps(s: Vm, e: Event, chunks: seq<Chunk>, blocks: seq<Block>, cur: nat)
    requires e.MapAt? && SystemOk(s, chunks, blocks, cur) && Permitted(s, blocks, e)
    ensures SystemOk(Step(s, e), chunks, blocks, cur) && OnlyAdds(s.phys, Step(s, e).phys, s.top)
    ensures Step(s, e).top == s.top
  {
    hide MapPagesC, OnlyAdds, Shape, CacheUsable, HeapOk, VmOk, AvoidsArena, PlainPlaces, Dist, Translate, LastEntry;
    HeapHasVm(s, chunks, blocks, cur);
    PlacesArePlain(s, e.v, e.n, e.flags);
    MapGivenMaps(s, e.v, e.paddr, e.n, e.flags);
    var t := Step(s, e);
    ArenaStaysFree(s, t, e.v, e.n, e.flags);
    AddingKeepsHeap(s, t, chunks, blocks, cur);
    OnlyAddsKeepsMaps(s, t);
  }

  // ---- calls and writes ----

  lemma CallKeepsRegister(s: Vm, call: Call)
    ensures Do(s, call).0.cr3 == s.cr3 && Do(s, call).0.top == s.top
  {
    hide CachedMapAll, Translate, LastEntry, Store, AllocPages;
  }

  lemma PokeKeepsMaps(s: Vm, call: Call, chunks: seq<Chunk>, blocks: seq<Block>, cur: nat)
    requires call.Poke? && HeapOk(s, chunks, blocks, cur) && Allowed(s, blocks, call) && LowerPlain(s) && DirectMap(s)
    ensures var t := Do(s, call).0; LowerPlain(t) && DirectMap(t) && t.phys.end == s.phys.end
  {
    hide Translate, LastEntry, HugeAt, Store, HeapOk, Shape, VmOk;
    HeapHasVm(s, chunks, blocks, cur);
    var i :| 0 <= i < |blocks| && WordInBlock(blocks[i], call.addr);
    var x := BlockWord(s, chunks, blocks, cur, i, call.addr);
    DataStoreKeepsTree(s.phys, s.top, x, call.word);
    var t := Do(s, call).0;
    forall y: nat ensures DirectAt(t, y)
    {
      assert DirectAt(s, y);
    }
  }

  lemma KernelKeeps(s: Vm, e: Event, chunks: seq<Chunk>, blocks: seq<Block>, cur: nat)
    returns (more: seq<Chunk>, next: nat)
    requires e.Kernel? && SystemOk(s, chunks, blocks, cur) && Permitted(s, blocks, e)
    ensures SystemOk(Step(s, e), more, blocks + Handed(s, e.call, chunks, cur), next) && ChunksGrow(s, chunks, more)
  {
    hide Do, HeapOk, VmOk, LowerPlain, DirectMap, OnlyAdds, Allowed;
    more, next := CallStep(s, e.call, chunks, blocks, cur);
    CallKeepsRegister(s, e.call);
    HeapHasVm(s, chunks, blocks, cur);
    if e.call.Poke? {
      PokeKeepsMaps(s, e.call, chunks, blocks, cur);
    } else {
      OnlyPokesWrite(s, blocks, e.call);
      OnlyAddsKeepsMaps(s, Step(s, e));
    }
  }

  // ---- the switch ----

  lemma HhdmUpper(x: nat)
    requires x < HHDM_SIZE
    ensures I4(HHDM_BEGIN + x) >= HALF
  {
    DivMod(HHDM_BEGIN + x, TWO48, 0xFFFF, 0x8000_0000_0000 + x);
  }

  /** No table of the new tree is in frames that held none. */
  lemma SwitchKeepsFrames(s: Vm, f: nat, n: nat)
    requires CanSwitch(s) && NoTableIn(s.phys.mem, s.top, f, n) && f + n * PAGE_SIZE <= s.phys.head
    ensures NoTableIn(SwitchSpace(s).phys.mem, SwitchSpace(s).top, f, n)
  {
    hide SwitchSpace, Shape;
    SwitchLayout(s);
    var t := SwitchSpace(s);
    forall path | ValidPath(path) && Reach(t.phys.mem, t.top, path) != 0
      ensures Reach(t.phys.mem, t.top, path) + PAGE_SIZE <= f || f + n * PAGE_SIZE <= Reach(t.phys.mem, t.top, path)
    {
      SwitchedReach(s, path);
    }
  }

  lemma SwitchKeepsChunk(s: Vm, c: Chunk)
    requires CanSwitch(s) && VmOk(s) && Backed(s, c)
    ensures Backed(SwitchSpace(s), c)
  {
    hide SwitchSpace, Translate, LastEntry, CanSwitch, VmOk, NoTableIn, I4;
    assert c.len / PAGE_SIZE * PAGE_SIZE == c.len;
    SwitchKeepsFrames(s, c.f, c.len / PAGE_SIZE);
    SwitchLayout(s);
    ArenaBounds(s);
    var t := SwitchSpace(s);
    forall o: nat | o < c.len ensures ByteMapped(t, c, o)
    {
      assert ByteMapped(s, c, o);
      ArenaNumber(c.v + o);
      SwitchTranslates(s, c.v + o);
    }
  }

  lemma SwitchKeeps(s: Vm, chunks: seq<Chunk>, blocks: seq<Block>, cur: nat)
    requires SystemOk(s, chunks, blocks, cur) && Permitted(s, blocks, NewSpace)
    ensures SystemOk(SwitchSpace(s), chunks, blocks, cur) && CanSwitch(s)
  {
    hide SwitchSpace, Translate, LastEntry, HugeAt, VmOk, Backed, Coherent, I4;
    CacheIsCoherent(s);
    HeapHasVm(s, chunks, blocks, cur);
    SwitchKeepsVm(s);
    SwitchLayout(s);
    var t := SwitchSpace(s);
    forall i | 0 <= i < |chunks| ensures Backed(t, chunks[i])
    {
      SwitchKeepsChunk(s, chunks[i]);
    }
    forall w: nat | I4(w) < HALF ensures !HugeAt(t.phys.mem, t.top, w)
    {
      SwitchTranslates(s, w);
    }
    forall x: nat ensures DirectAt(t, x)
    {
      assert DirectAt(s, x);
      if x < HHDM_SIZE {
        HhdmUpper(x);
        SwitchTranslates(s, HHDM_BEGIN + x);
      }
    }
  }

  // ---- the memory of processes ----

  /** Pages of an address space from v on, mapped in order to n fresh frames from f on. */
  datatype Grant = Grant(v: nat, f: nat, n: nat, flags: nat)

  predicate InGrant(g: Grant, w: nat) { Dist(g.v, w, g.flags) < g.n }
  function FrameByte(g: Grant, w: nat): nat { g.f + Dist(g.v, w, g.flags) * PAGE_SIZE + w % PAGE_SIZE }

  predicate GrantByte(s: Vm, g: Grant, w: nat)
  {
    InGrant(g, w) ==> && Translate(s.phys.mem, s.top, w) == Some(FrameByte(g, w))
                      && LastEntry(s.phys.mem, s.top, w) % 0x1000 == LowOf(g.flags)
  }

  ghost predicate GrantMapped(s: Vm, g: Grant)
  {
    forall w: nat :: GrantByte(s, g, w)
  }

  ghost predicate GrantFrames(s: Vm, g: Grant)
  {
    g.f + g.n * PAGE_SIZE <= s.phys.head && NoTableIn(s.phys.mem, s.top, g.f, g.n)
  }

  predicate FramesApart(g: Grant, c: Chunk) { g.f + g.n * PAGE_SIZE <= c.f || c.f + c.len <= g.f }

  /** The frames of all grants so far are disjoint, from each other, from the heap's and from all
      tables; those since the last switch are mapped. */
  ghost predicate GrantsOk(s: Vm, chunks: seq<Chunk>, grants: seq<Grant>, live: nat)
  {
    && live <= |grants|
    && (forall i :: 0 <= i < |grants| ==> GrantFrames(s, grants[i]))
    && (forall i, j :: 0 <= i < j < |grants| ==> grants[i].f + grants[i].n * PAGE_SIZE <= grants[j].f)
    && (forall i :: live <= i < |grants| ==> GrantMapped(s, grants[i]))
    && (forall i, j :: 0 <= i < |grants| && 0 <= j < |chunks| ==> FramesApart(grants[i], chunks[j]))
  }

  /** The grant of a successful `mapalloc_pages`. */
  function GrantedBy(s: Vm, e: Event): seq<Grant>
  {
    if e.MapFresh? && MapAllocPages(s, e.va, e.count, e.prot).1 == 0
    then [Grant(e.va, s.phys.head, e.count, e.prot)] else []
  }

  function LiveAfter(e: Event, grants: seq<Grant>, live: nat): nat
  {
    if e.NewSpace? then |grants| else live
  }

  lemma AddingKeepsGrant(s: Vm, t: Vm, g: Grant)
    requires OnlyAdds(s.phys, t.phys, s.top) && t.top == s.top && GrantFrames(s, g)
    ensures GrantFrames(t, g) && (GrantMapped(s, g) ==> GrantMapped(t, g))
  {
    hide Translate, LastEntry, HugeAt, Dist;
    forall path | ValidPath(path) && Reach(t.phys.mem, t.top, path) != 0
      ensures Reach(t.phys.mem, t.top, path) + PAGE_SIZE <= g.f
              || g.f + g.n * PAGE_SIZE <= Reach(t.phys.mem, t.top, path)
    {
      assert Reach(s.phys.mem, s.top, path) == 0 || Reach(t.phys.mem, s.top, path) == Reach(s.phys.mem, s.top, path);
    }
    if GrantMapped(s, g) {
      forall w: nat ensures GrantByte(t, g, w)
      {
        assert GrantByte(s, g, w);
      }
    }
  }

  lemma PokeKeepsGrant(s: Vm, call: Call, chunks: seq<Chunk>, blocks: seq<Block>, cur: nat, g: Grant)
    requires call.Poke? && HeapOk(s, chunks, blocks, cur) && Allowed(s, blocks, call) && GrantFrames(s, g)
    ensures var t := Do(s, call).0; GrantFrames(t, g) && (GrantMapped(s, g) ==> GrantMapped(t, g))
  {
    hide Translate, LastEntry, HugeAt, Store, HeapOk, Shape, VmOk, Dist;
    HeapHasVm(s, chunks, blocks, cur);
    var i :| 0 <= i < |blocks| && WordInBlock(blocks[i], call.addr);
    var x := BlockWord(s, chunks, blocks, cur, i, call.addr);
    DataStoreKeepsTree(s.phys, s.top, x, call.word);
    var t := Do(s, call).0;
    if GrantMapped(s, g) {
      forall w: nat ensures GrantByte(t, g, w)
      {
        assert GrantByte(s, g, w);
      }
    }
  }

  lemma StepKeepsGrant(s: Vm, e: Event, chunks: seq<Chunk>, blocks: seq<Block>, cur: nat, g: Grant)
    requires SystemOk(s, chunks, blocks, cur) && Permitted(s, blocks, e) && GrantFrames(s, g)
    ensures GrantFrames(Step(s, e), g) && (GrantMapped(s, g) && !e.NewSpace? ==> GrantMapped(Step(s, e), g))
  {
    hide HeapOk, Do, SwitchSpace, MapPagesC, MapAllocPages, OnlyAdds, Allowed, LowerPlain, DirectMap, PlainPlaces,
         AvoidsArena, GrantMapped, CanSwitch, FramesFit;
    match e
    case Kernel(call) =>
      if call.Poke? {
        PokeKeepsGrant(s, call, chunks, blocks, cur, g);
      } else {
        HeapHasVm(s, chunks, blocks, cur);
        OnlyPokesWrite(s, blocks, call);
        AddingKeepsGrant(s, Step(s, e), g);
      }
    case MapAt(_, _, _, _) => MapAtKeeps(s, e, chunks, blocks, cur); AddingKeepsGrant(s, Step(s, e), g);
    case MapFresh(_, _, _) => MapFreshKeeps(s, e, chunks, blocks, cur); AddingKeepsGrant(s, Step(s, e), g);
    case NewSpace =>
      SwitchKeeps(s, chunks, blocks, cur);
      SwitchKeepsFrames(s, g.f, g.n);
      SwitchLayout(s);
  }

  /** A new grant is mapped to frames that were free. */
  lemma NewGrant(s: Vm, e: Event, chunks: seq<Chunk>, blocks: seq<Block>, cur: nat)
    requires SystemOk(s, chunks, blocks, cur) && Permitted(s, blocks, e) && GrantedBy(s, e) != []
    ensures var g := GrantedBy(s, e)[0]; g.f == s.phys.head && GrantFrames(Step(s, e), g) && GrantMapped(Step(s, e), g)
  {
    hide MapAllocPages, OnlyAdds, Shape, CacheUsable, HeapOk, VmOk, AvoidsArena, PlainPlaces, Dist, Translate,
         LastEntry,
         NoTableIn, FramesFit;
    HeapHasVm(s, chunks, blocks, cur);
    VmHasCache(s);
    PlacesArePlain(s, e.va, e.count, e.prot);
    MapAllocMaps(s, e.va, e.count, e.prot);
    var g, t := GrantedBy(s, e)[0], Step(s, e);
    forall w: nat ensures GrantByte(t, g, w)
    {
      assert MappedAt(s.phys, t.phys, s.top, e.va, s.phys.head, e.count, e.prot, w);
      SmallWithin(w, e.prot);
    }
  }

  lemma SmallWithin(w: nat, flags: nat)
    requires !WantsHuge(flags)
    ensures Span(flags) == PAGE_SIZE && Within(w, flags) == w % PAGE_SIZE
  {
  }

  lemma ChunksBelowHead(s: Vm, chunks: seq<Chunk>, blocks: seq<Block>, cur: nat)
    requires HeapOk(s, chunks, blocks, cur)
    ensures forall j :: 0 <= j < |chunks| ==> chunks[j].f + chunks[j].len <= s.phys.head
  {
    hide Translate, LastEntry, VmOk, NoTableIn;
    forall j | 0 <= j < |chunks| ensures chunks[j].f + chunks[j].len <= s.phys.head
    {
      assert Backed(s, chunks[j]);
    }
  }

  lemma StepKeepsGrants(s: Vm, e: Event, chunks: seq<Chunk>, blocks: seq<Block>, cur: nat, more: seq<Chunk>,
                        grants: seq<Grant>, live: nat)
    requires SystemOk(s, chunks, blocks, cur) && Permitted(s, blocks, e) && GrantsOk(s, chunks, grants, live)
    requires ChunksGrow(s, chunks, more) && (e.MapFresh? ==> more == chunks)
    ensures GrantsOk(Step(s, e), more, grants + GrantedBy(s, e), LiveAfter(e, grants, live))
  {
    hide Permitted, Step, GrantMapped, HeapOk, NoTableIn, LowerPlain, DirectMap, MapAllocPages;
    var t := Step(s, e);
    forall i | 0 <= i < |grants|
      ensures GrantFrames(t, grants[i]) && (i >= live && !e.NewSpace? ==> GrantMapped(t, grants[i]))
    {
      StepKeepsGrant(s, e, chunks, blocks, cur, grants[i]);
    }
    ChunksBelowHead(s, chunks, blocks, cur);
    if GrantedBy(s, e) != [] {
      NewGrant(s, e, chunks, blocks, cur);
    }
  }

  // ---- whole runs ----

  /** The blocks an event hands out. */
  function HandedBy(s: Vm, e: Event, chunks: seq<Chunk>, cur: nat): seq<Block>
  {
    if e.Kernel? then Handed(s, e.call, chunks, cur) else []
  }

  lemma StepKeeps(s: Vm, e: Event, chunks: seq<Chunk>, blocks: seq<Block>, cur: nat)
    returns (more: seq<Chunk>, next: nat)
    requires SystemOk(s, chunks, blocks, cur) && Permitted(s, blocks, e)
    ensures SystemOk(Step(s, e), more, blocks + HandedBy(s, e, chunks, cur), next) && ChunksGrow(s, chunks, more)
    ensures e.MapFresh? ==> more == chunks
  {
    hide SystemOk, Permitted, Do, SwitchSpace, MapPagesC, MapAllocPages, OnlyAdds;
    more, next := chunks, cur;
    assert blocks + [] == blocks;
    match e
    case Kernel(_) => more, next := KernelKeeps(s, e, chunks, blocks, cur);
    case MapAt(_, _, _, _) => MapAtKeeps(s, e, chunks, blocks, cur);
    case MapFresh(_, _, _) => MapFreshKeeps(s, e, chunks, blocks, cur);
    case NewSpace => SwitchKeeps(s, chunks, blocks, cur);
  }

  function ResultOf(s: Vm, e: Event): seq<(Word, nat, nat)>
  {
    if e.Kernel? then Result(e.call, Do(s, e.call).1) else []
  }

  /** The state after a run of events, and the ranges the allocators handed out. */
  function Life(s: Vm, events: seq<Event>): (Vm, seq<(Word, nat, nat)>)
    decreases |events|
  {
    if events == [] then (s, []) else
    var (t, rest) := Life(Step(s, events[0]), events[1..]);
    (t, ResultOf(s, events[0]) + rest)
  }

  ghost predicate EventPermitted(s: Vm, given: seq<(Word, nat, nat)>, e: Event)
  {
    if e.Kernel? then CallAllowed(s, given, e.call) else Permitted(s, [], e)
  }

  ghost predicate LifePermitted(s: Vm, given: seq<(Word, nat, nat)>, events: seq<Event>)
    decreases |events|
  {
    events == []
    || (EventPermitted(s, given, events[0])
        && LifePermitted(Step(s, events[0]), given + ResultOf(s, events[0]), events[1..]))
  }

  lemma PermittedOfEvent(s: Vm, given: seq<(Word, nat, nat)>, blocks: seq<Block>, e: Event)
    requires EventPermitted(s, given, e) && Describes(blocks, given)
    ensures Permitted(s, blocks, e)
  {
    hide Allowed, CallAllowed, Describes, PlainPlaces, AvoidsArena;
    if e.Kernel? {
      AllowedOfCall(s, given, blocks, e.call);
    }
  }

  lemma EventDescribes(s: Vm, e: Event, chunks: seq<Chunk>, cur: nat)
    ensures Describes(HandedBy(s, e, chunks, cur), ResultOf(s, e))
  {
    hide Handed, Result, Do;
    if e.Kernel? {
      HandedDescribes(s, e.call, chunks, cur);
    }
  }

  lemma DescribesCat(a: seq<Block>, x: seq<(Word, nat, nat)>, b: seq<Block>, y: seq<(Word, nat, nat)>)
    requires Describes(a, x) && Describes(b, y)
    ensures Describes(a + b, x + y)
  {
  }

  /** The grants of a run, after those there were, and which of them are of the last address space. */
  function LifeGrants(s: Vm, grants: seq<Grant>, live: nat, events: seq<Event>): (seq<Grant>, nat)
    decreases |events|
  {
    if events == [] then (grants, live) else
    var e := events[0];
    LifeGrants(Step(s, e), grants + GrantedBy(s, e), LiveAfter(e, grants, live), events[1..])
  }

  /** The invariants over every life of the system. */
  lemma {:induction false} LifeKeeps(s: Vm, given: seq<(Word, nat, nat)>, events: seq<Event>, chunks: seq<Chunk>,
                                     blocks: seq<Block>, cur: nat, grants: seq<Grant>, live: nat)
    returns (more: seq<Chunk>, all: seq<Block>, next: nat)
    requires SystemOk(s, chunks, blocks, cur) && Describes(blocks, given) && LifePermitted(s, given, events)
    requires GrantsOk(s, chunks, grants, live)
    ensures SystemOk(Life(s, events).0, more, all, next)
    ensures Describes(all, given + Life(s, events).1)
    ensures var (gs, l) := LifeGrants(s, grants, live, events); GrantsOk(Life(s, events).0, more, gs, l)
    decreases |events|
  {
    hide SystemOk, GrantsOk, Step, Permitted, EventPermitted, HandedBy, ResultOf, Describes, GrantedBy, LiveAfter,
         ChunksGrow;
    if events == [] {
      more, all, next := chunks, blocks, cur;
      assert given + [] == given;
    } else {
      var e := events[0];
      var r := ResultOf(s, e);
      PermittedOfEvent(s, given, blocks, e);
      EventDescribes(s, e, chunks, cur);
      DescribesCat(blocks, given, HandedBy(s, e, chunks, cur), r);
      var chunks1, cur1 := StepKeeps(s, e, chunks, blocks, cur);
      StepKeepsGrants(s, e, chunks, blocks, cur, chunks1, grants, live);
      more, all, next := LifeKeeps(Step(s, e), given + r, events[1..], chunks1,
                                   blocks + HandedBy(s, e, chunks, cur), cur1,
                                   grants + GrantedBy(s, e), LiveAfter(e, grants, live));
      assert given + r + Life(Step(s, e), events[1..]).1 == given + (r + Life(Step(s, e), events[1..]).1);
    }
  }

  /** A lower-half address does not translate in the boot tree. */
  lemma LowerIsUnmapped(k: Image, w: nat)
    requires ImageOk(k) && I4(w) < HALF
    ensures BootTranslation(k, w) == None
  {
    var t := Trim(w);
    assert t < 0x8000_0000_0000;
    var g, i := t / PDPTE_COVERAGE, t / PAGE_SIZE;
    assert g < 0x2_0000 && i < 0x8_0000_0000;
    DivMod(HHDM_BEGIN, TWO48, 0xFFFF, 0x8000_0000_0000);
    DivMod(KERNEL_TEXT, TWO48, 0xFFFF, 0xFFFF_8000_0000);
    DivMod(g - 0x2_0000, 0x4_0000, -1, g + 0x2_0000);
    DivMod(i - 0xF_FFF8_0000, PAGE_COUNT, -1, i + 0x8_0000);
  }

  lemma NotHuge(p: Phys, top: nat, w: nat)
    requires Shape(p, top) && Translate(p.mem, top, w) == None
    ensures !HugeAt(p.mem, top, w)
  {
    hide Translate, LastEntry;
    TranslateViaTables(p, top, w);
  }

  /** The state `setup_vm` leaves is in order. */
  lemma SystemStarts(s: Vm, k: Image)
    requires AtBoot(s) && ImageOk(k) && SetupVm(s, k).1 && s.phys.end <= HHDM_SIZE
    ensures SystemOk(SetupVm(s, k).0, [], [], 0)
  {
    hide SetupVm, Translate, LastEntry, HugeAt, VmOk, HeapOk, BootTranslation, I4;
    SetupVmMaps(s, k);
    SetupKeepsEnd(s, k);
    var t := SetupVm(s, k).0;
    HeapStarts(t);
    HeapHasVm(t, [], [], 0);
    forall w: nat | I4(w) < HALF ensures !HugeAt(t.phys.mem, t.top, w)
    {
      LowerIsUnmapped(k, w);
      NotHuge(t.phys, t.top, w);
    }
    forall x: nat ensures DirectAt(t, x)
    {
      if x < HHDM_SIZE {
        DirectAtBoot(s, k, x);
      }
    }
  }

  lemma DirectAtBoot(s: Vm, k: Image, x: nat)
    requires AtBoot(s) && ImageOk(k) && SetupVm(s, k).1 && x < HHDM_SIZE
    ensures var t := SetupVm(s, k).0; Translate(t.phys.mem, t.top, HHDM_BEGIN + x) == Some(x)
  {
    hide SetupVm, Translate, LastEntry, VmOk, Dist;
    SetupVmMaps(s, k);
    HhdmNumbers(x);
  }

  lemma SetupKeepsEnd(s: Vm, k: Image)
    requires ArenaOk(s.phys)
    ensures SetupVm(s, k).0.phys.end == s.phys.end
  {
    hide CachedMapAll, ArenaOk;
    ArenaBelowTop52(s.phys);
    var s1 := s.(phys := AllocPages(s.phys, 1).0, top := AllocPages(s.phys, 1).1);
    RunHead(s1.phys, s1.cache, s1.top, KERNEL_TEXT, k.phys, k.size / PAGE_SIZE, PG_WRITE);
    var s2 := MapPagesC(s1, KERNEL_TEXT, k.phys, k.size / PAGE_SIZE, PG_WRITE).0;
    RunHead(s2.phys, s2.cache, s2.top, HHDM_BEGIN, 0, HHDM_SIZE / PDPTE_COVERAGE, HUGE_WRITE);
  }

  /** From boot on, over every life of the system, with any number of address spaces: all ranges the
      allocators handed out are disjoint and mapped to bytes of memory of their own, outside the page
      tables, and the direct map still reaches all memory. */
  lemma SystemIsSafe(s: Vm, k: Image, events: seq<Event>, i: nat, j: nat, a: nat, b: nat, x: nat)
    requires AtBoot(s) && ImageOk(k) && SetupVm(s, k).1 && s.phys.end <= HHDM_SIZE
    requires LifePermitted(SetupVm(s, k).0, [], events)
    requires var given := Life(SetupVm(s, k).0, events).1; InRange(given, i, a) && InRange(given, j, b)
    ensures var (t, given) := Life(SetupVm(s, k).0, events);
            VmOk(t) && SafeBytes(t, given, i, j, a, b) && DirectAt(t, x)
  {
    hide *;
    SystemStarts(s, k);
    NothingGiven();
    NothingGranted(SetupVm(s, k).0);
    var (t, given) := Life(SetupVm(s, k).0, events);
    var chunks, blocks, cur := LifeKeeps(SetupVm(s, k).0, [], events, [], [], 0, [], 0);
    assert [] + given == given;
    SystemParts(t, chunks, blocks, cur, x);
    BlocksAreSafe(t, chunks, blocks, cur, given, i, j, a, b);
  }

  lemma NothingGranted(s: Vm)
    ensures GrantsOk(s, [], [], 0)
  {
  }

  /** Byte w of a mapped grant is a byte of its frames and of no page table, mapped with its flags. */
  ghost predicate SafeGrantByte(t: Vm, g: Grant, w: nat)
  {
    && Translate(t.phys.mem, t.top, w) == Some(FrameByte(g, w))
    && g.f <= FrameByte(g, w) < g.f + g.n * PAGE_SIZE
    && LastEntry(t.phys.mem, t.top, w) % 0x1000 == LowOf(g.flags)
    && !InTable(t.phys.mem, t.top, FrameByte(g, w))
  }

  lemma GrantIsSafe(t: Vm, g: Grant, w: nat)
    requires GrantFrames(t, g) && GrantMapped(t, g) && InGrant(g, w)
    ensures SafeGrantByte(t, g, w)
  {
    hide Translate, LastEntry, Dist;
    assert GrantByte(t, g, w);
    var x := FrameByte(g, w);
    var d := Dist(g.v, w, g.flags);
    assert (d + 1) * PAGE_SIZE <= g.n * PAGE_SIZE;
    forall path ensures !TableHolds(t.phys.mem, t.top, path, x)
    {
    }
  }

  /** A byte of the heap and a byte of a grant are different bytes of memory. */
  lemma HeapAndGrant(t: Vm, chunks: seq<Chunk>, blocks: seq<Block>, cur: nat, given: seq<(Word, nat, nat)>,
                     grants: seq<Grant>, live: nat, i: nat, a: nat, j: nat, w: nat)
    requires HeapOk(t, chunks, blocks, cur) && Describes(blocks, given) && InRange(given, i, a)
    requires GrantsOk(t, chunks, grants, live) && live <= j < |grants| && InGrant(grants[j], w)
    ensures Translate(t.phys.mem, t.top, a) != Translate(t.phys.mem, t.top, w)
  {
    hide Translate, LastEntry, HeapOk, InTable, GrantMapped, GrantFrames, Dist, FrameByte;
    assert InBlock(blocks[i], a);
    BlockByte(t, chunks, blocks, cur, i, a);
    GrantIsSafe(t, grants[j], w);
    BlockInChunk(t, chunks, blocks, cur, i);
    assert FramesApart(grants[j], chunks[blocks[i].chunk]);
  }

  lemma BlockInChunk(s: Vm, chunks: seq<Chunk>, blocks: seq<Block>, cur: nat, i: nat)
    requires HeapOk(s, chunks, blocks, cur) && i < |blocks|
    ensures blocks[i].chunk < |chunks|
  {
    hide VmOk, ChunksOk;
    assert BlockOk(blocks[i], chunks);
  }

  /** And so are bytes of two grants of the last address space. */
  lemma TwoGrants(t: Vm, chunks: seq<Chunk>, grants: seq<Grant>, live: nat, j: nat, w: nat, l: nat, u: nat)
    requires GrantsOk(t, chunks, grants, live) && live <= j < |grants| && InGrant(grants[j], w)
    requires live <= l < |grants| && InGrant(grants[l], u) && j != l
    ensures Translate(t.phys.mem, t.top, w) != Translate(t.phys.mem, t.top, u)
  {
    hide Translate, LastEntry, InTable, GrantMapped, GrantFrames, Dist, FrameByte;
    GrantIsSafe(t, grants[j], w);
    GrantIsSafe(t, grants[l], u);
    if j < l {
      assert grants[j].f + grants[j].n * PAGE_SIZE <= grants[l].f;
    } else {
      assert grants[l].f + grants[l].n * PAGE_SIZE <= grants[j].f;
    }
  }

  /** The memory of processes over every life of the system: each byte of each page mapped for the
      current address space is a byte of memory of its own, shared with no range of the kernel's
      allocators, no other such mapping and no page table. */
  lemma ProcessIsSafe(s: Vm, k: Image, events: seq<Event>, i: nat, a: nat, j: nat, w: nat, l: nat, u: nat)
    requires AtBoot(s) && ImageOk(k) && SetupVm(s, k).1 && s.phys.end <= HHDM_SIZE
    requires LifePermitted(SetupVm(s, k).0, [], events)
    requires var (grants, live) := LifeGrants(SetupVm(s, k).0, [], 0, events);
             && live <= j < |grants| && InGrant(grants[j], w) && live <= l < |grants| && InGrant(grants[l], u)
    ensures var (t, given) := Life(SetupVm(s, k).0, events);
            var (grants, live) := LifeGrants(SetupVm(s, k).0, [], 0, events);
            && SafeGrantByte(t, grants[j], w)
            && (InRange(given, i, a) ==> Translate(t.phys.mem, t.top, a) != Translate(t.phys.mem, t.top, w))
            && (j != l ==> Translate(t.phys.mem, t.top, w) != Translate(t.phys.mem, t.top, u))
  {
    hide *;
    SystemStarts(s, k);
    NothingGiven();
    NothingGranted(SetupVm(s, k).0);
    var (t, given) := Life(SetupVm(s, k).0, events);
    var (grants, live) := LifeGrants(SetupVm(s, k).0, [], 0, events);
    var chunks, blocks, cur := LifeKeeps(SetupVm(s, k).0, [], events, [], [], 0, [], 0);
    assert [] + given == given;
    SystemParts(t, chunks, blocks, cur, 0);
    LiveGrant(t, chunks, grants, live, j);
    GrantIsSafe(t, grants[j], w);
    if InRange(given, i, a) {
      HeapAndGrant(t, chunks, blocks, cur, given, grants, live, i, a, j, w);
    }
    if j != l {
      TwoGrants(t, chunks, grants, live, j, w, l, u);
    }
  }

  lemma LiveGrant(t: Vm, chunks: seq<Chunk>, grants: seq<Grant>, live: nat, j: nat)
    requires GrantsOk(t, chunks, grants, live) && live <= j < |grants|
    ensures GrantFrames(t, grants[j]) && GrantMapped(t, grants[j])
  {
    hide GrantMapped, GrantFrames;
  }

  /** The frames of the kernel stack, kept with the grants: not mapped by any of them, and never reused. */
  function StackGrant(s: Vm, k: Image): Grant { Grant(0, BootMaps(s, k).phys.head, 8, 0) }

  lemma StackIsGranted(s: Vm, k: Image)
    requires AtBoot(s) && ImageOk(k) && SetupVm(s, k).1 && BootMaps(s, k).phys.head + 0x8000 <= s.phys.end
    ensures GrantsOk(SetupVm(s, k).0, [], [StackGrant(s, k)], 1)
  {
    hide SetupVm, BootMaps, NoTableIn, GrantMapped;
    StackExactly(s, k);
  }

  lemma {:induction false} GrantsStay(s: Vm, grants: seq<Grant>, live: nat, events: seq<Event>)
    requires live <= |grants|
    ensures var (gs, l) := LifeGrants(s, grants, live, events); grants <= gs && live <= l <= |gs|
    decreases |events|
  {
    hide Step, GrantedBy;
    if events != [] {
      var e := events[0];
      GrantsStay(Step(s, e), grants + GrantedBy(s, e), LiveAfter(e, grants, live), events[1..]);
    }
  }

  /** A byte of the frames of a grant is no byte of the heap and of no table. */
  lemma FramesAreApart(t: Vm, chunks: seq<Chunk>, blocks: seq<Block>, cur: nat, given: seq<(Word, nat, nat)>,
                       grants: seq<Grant>, live: nat, j: nat, x: nat, i: nat, a: nat)
    requires HeapOk(t, chunks, blocks, cur) && Describes(blocks, given) && GrantsOk(t, chunks, grants, live)
    requires j < |grants| && grants[j].f <= x < grants[j].f + grants[j].n * PAGE_SIZE
    ensures !InTable(t.phys.mem, t.top, x)
    ensures InRange(given, i, a) ==> Translate(t.phys.mem, t.top, a) != Some(x)
  {
    hide Translate, LastEntry, HeapOk, GrantMapped;
    assert GrantFrames(t, grants[j]);
    FrameOutside(t, grants[j], x);
    if InRange(given, i, a) {
      assert InBlock(blocks[i], a);
      BlockByte(t, chunks, blocks, cur, i, a);
      BlockInChunk(t, chunks, blocks, cur, i);
      assert FramesApart(grants[j], chunks[blocks[i].chunk]);
    }
  }

  lemma FrameOutside(t: Vm, g: Grant, x: nat)
    requires GrantFrames(t, g) && g.f <= x < g.f + g.n * PAGE_SIZE
    ensures !InTable(t.phys.mem, t.top, x)
  {
    forall path ensures !TableHolds(t.phys.mem, t.top, path, x)
    {
    }
  }

  /** No byte of a mapped grant is a byte of an earlier one's frames. */
  lemma EarlierFrames(t: Vm, chunks: seq<Chunk>, grants: seq<Grant>, live: nat, j: nat, x: nat, l: nat, w: nat)
    requires GrantsOk(t, chunks, grants, live) && j < l < |grants| && live <= l && InGrant(grants[l], w)
    requires grants[j].f <= x < grants[j].f + grants[j].n * PAGE_SIZE
    ensures Translate(t.phys.mem, t.top, w) != Some(x)
  {
    hide Translate, LastEntry, InTable, GrantMapped, GrantFrames, Dist, FrameByte;
    LiveGrant(t, chunks, grants, live, l);
    GrantIsSafe(t, grants[l], w);
    assert grants[j].f + grants[j].n * PAGE_SIZE <= grants[l].f;
  }

  /** The kernel stack over every life of the system: its 0x8000 bytes are never a page table, never a
      range of the allocators, and never mapped for a process. */
  lemma StackIsSafe(s: Vm, k: Image, events: seq<Event>, x: nat, i: nat, a: nat, l: nat, w: nat)
    requires AtBoot(s) && ImageOk(k) && SetupVm(s, k).1 && s.phys.end <= HHDM_SIZE
    requires BootMaps(s, k).phys.head + 0x8000 <= s.phys.end
    requires BootMaps(s, k).phys.head <= x < BootMaps(s, k).phys.head + 0x8000
    requires LifePermitted(SetupVm(s, k).0, [], events)
    ensures var (t, given) := Life(SetupVm(s, k).0, events);
            var (grants, live) := LifeGrants(SetupVm(s, k).0, [StackGrant(s, k)], 1, events);
            && !InTable(t.phys.mem, t.top, x)
            && (InRange(given, i, a) ==> Translate(t.phys.mem, t.top, a) != Some(x))
            && (live <= l < |grants| && InGrant(grants[l], w) ==> Translate(t.phys.mem, t.top, w) != Some(x))
  {
    var boot, stack := SetupVm(s, k).0, StackGrant(s, k);
    assert stack.f == BootMaps(s, k).phys.head && stack.n * PAGE_SIZE == 0x8000;
    hide *;
    SystemStarts(s, k);
    NothingGiven();
    StackIsGranted(s, k);
    var (t, given) := Life(boot, events);
    var (grants, live) := LifeGrants(boot, [stack], 1, events);
    GrantsStay(boot, [stack], 1, events);
    var chunks, blocks, cur := LifeKeeps(boot, [], events, [], [], 0, [stack], 1);
    assert [] + given == given;
    SystemParts(t, chunks, blocks, cur, 0);
    assert grants[0] == stack;
    FramesAreApart(t, chunks, blocks, cur, given, grants, live, 0, x, i, a);
    if live <= l < |grants| && InGrant(grants[l], w) {
      EarlierFrames(t, chunks, grants, live, 0, x, l, w);
    }
  }

  lemma SystemParts(s: Vm, chunks: seq<Chunk>, blocks: seq<Block>, cur: nat, x: nat)
    requires SystemOk(s, chunks, blocks, cur)
    ensures HeapOk(s, chunks, blocks, cur) && DirectAt(s, x)
  {
    hide HeapOk;
  }

  // ---- what clients wrote ----

  lemma SwitchKeepsData(s: Vm, x: nat)
    requires CanSwitch(s) && x % 8 == 0 && x < s.phys.head
    ensures Load(SwitchSpace(s).phys.mem, x) == Load(s.phys.mem, x)
  {
    hide SwitchSpace, CopyWords, Load, Shape;
    SwitchLayout(s);
    var f := s.phys.head;
    DivMod(f + 0x800, 8, f / PAGE_SIZE * 512 + 0x100, 0);
    DivMod(s.top + 0x800, 8, s.top / PAGE_SIZE * 512 + 0x100, 0);
    CopiedWord(s.phys.mem, f + 0x800, s.top + 0x800, HALF, x);
  }

  /** An event changes a client's word only if it is a write to that word. */
  lemma EventKeepsWord(s: Vm, e: Event, chunks: seq<Chunk>, blocks: seq<Block>, cur: nat, i: nat, a: nat)
    requires SystemOk(s, chunks, blocks, cur) && Permitted(s, blocks, e)
    requires i < |blocks| && WordInBlock(blocks[i], a)
    ensures PeekAt(Step(s, e), a)
            == if e.Kernel? && e.call.Poke? && e.call.addr == a then e.call.word else PeekAt(s, a)
  {
    hide HeapOk, Do, Translate, LastEntry, SwitchSpace, Load, MapPagesC, MapAllocPages, VmOk, Permitted, InTable,
         Allowed,
         LowerPlain, DirectMap, PlainPlaces, AvoidsArena;
    var more, next := StepKeeps(s, e, chunks, blocks, cur);
    var t := Step(s, e);
    var all := blocks + HandedBy(s, e, chunks, cur);
    assert all[i] == blocks[i];
    HeapHasVm(s, chunks, blocks, cur);
    var x := BlockWord(s, chunks, blocks, cur, i, a);
    var y := BlockWord(t, more, all, next, i, a);
    match e
    case Kernel(call) =>
      PermittedCall(s, blocks, e);
      CallKeepsWord(s, call, chunks, blocks, cur, i, a);
    case MapAt(_, _, _, _) => MapAtKeeps(s, e, chunks, blocks, cur); AddingKeepsWord(s, t, a, x, y);
    case MapFresh(_, _, _) => MapFreshKeeps(s, e, chunks, blocks, cur); AddingKeepsWord(s, t, a, x, y);
    case NewSpace =>
      SwitchKeeps(s, chunks, blocks, cur);
      SwitchKeepsData(s, x);
      BlockIsUpper(s, chunks, blocks, cur, i, a);
      SwitchTranslates(s, a);
  }

  lemma PermittedCall(s: Vm, blocks: seq<Block>, e: Event)
    requires e.Kernel? && Permitted(s, blocks, e)
    ensures Allowed(s, blocks, e.call)
  {
  }

  lemma AddingKeepsWord(s: Vm, t: Vm, a: nat, x: nat, y: nat)
    requires Shape(s.phys, s.top) && OnlyAdds(s.phys, t.phys, s.top) && t.top == s.top && x % 8 == 0 && x < s.phys.head
    requires Translate(s.phys.mem, s.top, a) == Some(x) && Translate(t.phys.mem, t.top, a) == Some(y)
    requires !InTable(t.phys.mem, t.top, y)
    ensures PeekAt(t, a) == PeekAt(s, a)
  {
    hide Translate, LastEntry, Shape, HugeAt, InTable, Load;
    assert Some(y) == Some(x);
    WordOutsideTables(s.phys, t.phys, s.top, x);
  }

  lemma BlockIsUpper(s: Vm, chunks: seq<Chunk>, blocks: seq<Block>, cur: nat, i: nat, a: nat)
    requires HeapOk(s, chunks, blocks, cur) && i < |blocks| && WordInBlock(blocks[i], a)
    ensures I4(a) >= HALF
  {
    hide HeapOk, I4, Translate, LastEntry, InTable;
    BlockByte(s, chunks, blocks, cur, i, a);
    ArenaNumber(a);
  }

  /** So what a client wrote stays over every life that does not write it, switches included. */
  lemma {:induction false} LifeKeepsWord(s: Vm, given: seq<(Word, nat, nat)>, events: seq<Event>,
                                         chunks: seq<Chunk>, blocks: seq<Block>, cur: nat, i: nat, a: nat)
    requires SystemOk(s, chunks, blocks, cur) && Describes(blocks, given) && LifePermitted(s, given, events)
    requires i < |blocks| && WordInBlock(blocks[i], a)
    requires forall e :: e in events ==> !(e.Kernel? && e.call.Poke? && e.call.addr == a)
    ensures PeekAt(Life(s, events).0, a) == PeekAt(s, a)
    decreases |events|
  {
    hide SystemOk, Step, Permitted, EventPermitted, HandedBy, ResultOf, Describes, PeekAt;
    if events != [] {
      var e := events[0];
      PermittedOfEvent(s, given, blocks, e);
      EventDescribes(s, e, chunks, cur);
      DescribesCat(blocks, given, HandedBy(s, e, chunks, cur), ResultOf(s, e));
      EventKeepsWord(s, e, chunks, blocks, cur, i, a);
      var chunks1, cur1 := StepKeeps(s, e, chunks, blocks, cur);
      LifeKeepsWord(Step(s, e), given + ResultOf(s, e), events[1..], chunks1,
                    blocks + HandedBy(s, e, chunks, cur), cur1, i, a);
    }
  }

  // ---- lives judged by what the kernel sees ----

  /** The last mapping was in the upper half, if there was any. */
  predicate UpperCached(c: Cache) { c.tab4 == 0 || c.off4 >= HALF }

  predicate UpperPlaces(v: nat, n: nat, flags: nat)
  {
    forall i :: 0 <= i < n ==> I4(PageAt(v, i, flags)) >= HALF
  }

  lemma PageCached(p: Phys, c: Cache, top: nat, v: nat, paddr: Word, flags: nat)
    ensures var d := CachedMapPage(p, c, top, v, paddr, flags).1;
            (d.off4 == c.off4 && d.tab4 == c.tab4) || d.off4 == I4(v)
  {
    hide Descend, Place, I1, I2, I3, I4, Or, WantsHuge;
  }

  lemma {:induction false} UpperStaysCached(p: Phys, c: Cache, top: nat, v: nat, paddr: nat, n: nat, flags: nat)
    requires UpperCached(c) && UpperPlaces(v, n, flags)
    ensures UpperCached(CachedMapAll(p, c, top, v, paddr, n, flags).1)
  {
    hide CachedMapPage, PageAt, I4;
    if n > 0 {
      UpperStaysCached(p, c, top, v, paddr, n - 1, flags);
      var (q, d, ret) := CachedMapAll(p, c, top, v, paddr, n - 1, flags);
      PageCached(q, d, top, PageAt(v, n - 1, flags), PageAt(paddr, n - 1, flags), flags);
    }
  }

  lemma UpperAfterFresh(s: Vm, v: nat, n: nat, flags: nat)
    requires UpperCached(s.cache) && UpperPlaces(v, n, flags)
    ensures UpperCached(MapAllocPages(s, v, n, flags).0.cache)
  {
    hide CachedMapAll, AllocPages, UpperCached, UpperPlaces;
    var (p, frames) := AllocPages(s.phys, if WantsHuge(flags) then U64(n * PTABLE_LEN * PTABLE_LEN) else n);
    UpperStaysCached(p, s.cache, s.top, v, frames, n, flags);
  }

  /** `request_pages` maps in the upper half only. */
  lemma UpperAfterRequest(s: Vm, paddr: nat, n: nat, flags: nat)
    requires VmOk(s) && SmallFlags(flags) && RangeFits(s, n) && UpperCached(s.cache)
    ensures UpperCached(RequestPages(s, paddr, n, flags).0.cache)
  {
    hide MapAllocPages, CachedMapAll, RequestPages, VmOk, UpperCached, I4, PageAt;
    RequestCases(s, paddr, n, flags);
    ArenaBounds(s);
    if s.arena + n * PAGE_SIZE <= VM_END_REQUEST {
      ArenaPages(s.arena, n, flags);
      UpperAfterFresh(s, s.arena, n, flags);
      UpperStaysCached(s.phys, s.cache, s.top, s.arena, paddr, n, flags);
    }
  }

  /** Whether a switch can follow, as far as the kernel sees: a successful `request_pages` makes it
      safe, and a mapping in the lower half unsafe. */
  predicate WarmAfter(s: Vm, warm: bool, e: Event)
  {
    match e
    case Kernel(Pages(n, _)) => warm || (n > 0 && Do(s, e.call).1 != 0)
    case Kernel(_) => warm
    case MapAt(v, _, n, flags) => warm && UpperPlaces(v, n, flags)
    case MapFresh(v, n, flags) => warm && UpperPlaces(v, n, flags)
    case NewSpace => warm
  }

  /** The rules for callers in terms of their arguments, of earlier results and of the frames left. */
  ghost predicate Visible(s: Vm, given: seq<(Word, nat, nat)>, warm: bool, e: Event)
  {
    match e
    case Kernel(call) => SmallSize(call) && Disciplined(s, given, [call])
    case MapAt(v, paddr, n, flags) => Permitted(s, [], e)
    case MapFresh(v, n, flags) =>
      SmallFlags(flags) && PlainPlaces(v, n, flags) && AvoidsArena(v, n, flags) && n * PAGE_SIZE < TWO64 - TWO52
    case NewSpace => warm && !Exhausted(s.phys)
  }

  ghost predicate LifeVisible(s: Vm, given: seq<(Word, nat, nat)>, warm: bool, events: seq<Event>)
    decreases |events|
  {
    events == []
    || (Visible(s, given, warm, events[0])
        && LifeVisible(Step(s, events[0]), given + ResultOf(s, events[0]), WarmAfter(s, warm, events[0]), events[1..]))
  }

  lemma VisibleCall(s: Vm, given: seq<(Word, nat, nat)>, warm: bool, e: Event,
                    chunks: seq<Chunk>, blocks: seq<Block>, cur: nat)
    requires e.Kernel? && HeapOk(s, chunks, blocks, cur) && (s.size != 0 || s.offset == 0)
    requires Visible(s, given, warm, e) && (warm ==> UpperCached(s.cache))
    ensures CallAllowed(s, given, e.call)
    ensures var t := Step(s, e); (t.size != 0 || t.offset == 0) && (WarmAfter(s, warm, e) ==> UpperCached(t.cache))
  {
    hide HeapOk, VmOk, RequestPages, Translate, LastEntry, UpperCached, Store;
    SmallCallAllowed(s, given, [e.call], chunks, blocks, cur);
    HeapHasVm(s, chunks, blocks, cur);
    ArenaBounds(s);
    match e.call
    case Bytes(size) =>
      SmallSizesFit(s, size, chunks, blocks, cur);
      if warm && !Hit(s, size) {
        UpperAfterRequest(s, 0, size / PAGE_SIZE + 1, PG_WRITE);
      }
    case Pages(n, flags) =>
      if warm {
        UpperAfterRequest(s, 0, n, flags);
      } else if WarmAfter(s, warm, e) {
        RequestWarmsCache(s, n, flags);
        ArenaIsUpper(RequestPages(s, 0, n, flags).0.cache);
      }
    case Device(paddr, n, flags) =>
      if warm {
        UpperAfterRequest(s, paddr, n, flags);
      }
    case Poke(_, _) =>
  }

  lemma ArenaIsUpper(c: Cache)
    requires c.off4 == ARENA_SLOT
    ensures UpperCached(c)
  {
  }

  lemma VisibleMapping(s: Vm, given: seq<(Word, nat, nat)>, warm: bool, e: Event,
                       chunks: seq<Chunk>, blocks: seq<Block>, cur: nat)
    requires !e.Kernel? && SystemOk(s, chunks, blocks, cur) && (s.size != 0 || s.offset == 0)
    requires Visible(s, given, warm, e) && (warm ==> UpperCached(s.cache))
    ensures Permitted(s, [], e)
    ensures var t := Step(s, e); (t.size != 0 || t.offset == 0) && (WarmAfter(s, warm, e) ==> UpperCached(t.cache))
  {
    hide HeapOk, VmOk, LowerPlain, DirectMap, CachedMapAll, UpperPlaces, PlainPlaces, AvoidsArena;
    HeapHasVm(s, chunks, blocks, cur);
    HeadIsSmall(s);
    match e
    case MapAt(v, paddr, n, flags) =>
      if WarmAfter(s, warm, e) {
        UpperStaysCached(s.phys, s.cache, s.top, v, paddr, n, flags);
      }
    case MapFresh(v, n, flags) =>
      NoWrap(s.phys.head + n * PAGE_SIZE);
      if WarmAfter(s, warm, e) {
        UpperAfterFresh(s, v, n, flags);
      }
    case NewSpace =>
  }

  /** A life that keeps to these rules is permitted. */
  lemma {:induction false} VisibleIsPermitted(s: Vm, given: seq<(Word, nat, nat)>, warm: bool, events: seq<Event>,
                                              chunks: seq<Chunk>, blocks: seq<Block>, cur: nat)
    requires SystemOk(s, chunks, blocks, cur) && Describes(blocks, given) && (s.size != 0 || s.offset == 0)
    requires LifeVisible(s, given, warm, events) && (warm ==> UpperCached(s.cache))
    ensures LifePermitted(s, given, events)
    decreases |events|
  {
    hide Step, Permitted, Visible, WarmAfter, HeapOk, LowerPlain, DirectMap, HandedBy, ResultOf, Describes, CallAllowed,
         UpperCached, ChunksGrow;
    if events != [] {
      var e := events[0];
      if e.Kernel? {
        VisibleCall(s, given, warm, e, chunks, blocks, cur);
      } else {
        VisibleMapping(s, given, warm, e, chunks, blocks, cur);
      }
      assert EventPermitted(s, given, e);
      PermittedOfEvent(s, given, blocks, e);
      EventDescribes(s, e, chunks, cur);
      DescribesCat(blocks, given, HandedBy(s, e, chunks, cur), ResultOf(s, e));
      var chunks1, cur1 := StepKeeps(s, e, chunks, blocks, cur);
      VisibleIsPermitted(Step(s, e), given + ResultOf(s, e), WarmAfter(s, warm, e), events[1..], chunks1,
                         blocks + HandedBy(s, e, chunks, cur), cur1);
    }
  }

  /** After `setup_vm`, whose last mapping is the direct map, every life that keeps to the rules the
      kernel can see is permitted, and with it safe. */
  lemma VisibleLivesArePermitted(s: Vm, k: Image, events: seq<Event>)
    requires AtBoot(s) && s.offset == 0 && ImageOk(k) && SetupVm(s, k).1 && s.phys.end <= HHDM_SIZE
    requires LifeVisible(SetupVm(s, k).0, [], true, events)
    ensures LifePermitted(SetupVm(s, k).0, [], events)
  {
    hide *;
    SystemStarts(s, k);
    NothingGiven();
    SetupLeavesUpper(s, k);
    VisibleIsPermitted(SetupVm(s, k).0, [], true, events, [], [], 0);
  }

  lemma SetupLeavesUpper(s: Vm, k: Image)
    requires AtBoot(s) && s.offset == 0 && ImageOk(k) && SetupVm(s, k).1
    ensures var t := SetupVm(s, k).0; UpperCached(t.cache) && t.offset == 0
  {
    hide CachedMapAll, AllocPages, UpperPlaces;
    var s1 := s.(phys := AllocPages(s.phys, 1).0, top := AllocPages(s.phys, 1).1);
    var s2 := MapPagesC(s1, KERNEL_TEXT, k.phys, k.size / PAGE_SIZE, PG_WRITE).0;
    TextIsUpper(k);
    UpperStaysCached(s1.phys, s1.cache, s1.top, KERNEL_TEXT, k.phys, k.size / PAGE_SIZE, PG_WRITE);
    HhdmIsUpper();
    UpperStaysCached(s2.phys, s2.cache, s2.top, HHDM_BEGIN, 0, HHDM_SIZE / PDPTE_COVERAGE, HUGE_WRITE);
  }

  lemma TextIsUpper(k: Image)
    requires ImageOk(k)
    ensures UpperPlaces(KERNEL_TEXT, k.size / PAGE_SIZE, PG_WRITE)
  {
    forall i | 0 <= i < k.size / PAGE_SIZE ensures I4(PageAt(KERNEL_TEXT, i, PG_WRITE)) >= HALF
    {
      TextPage(k, i);
    }
  }

  lemma HhdmIsUpper()
    ensures UpperPlaces(HHDM_BEGIN, HHDM_SIZE / PDPTE_COVERAGE, HUGE_WRITE)
  {
    forall i | 0 <= i < HHDM_PAGES ensures I4(PageAt(HHDM_BEGIN, i, HUGE_WRITE)) >= HALF
    {
      HhdmPage(i);
      HhdmUpper(i * PDPTE_COVERAGE);
    }
  }

  // ---- the start of a program ----

  /** What `exec_elf` and `exec_process` ask the manager for: ranges for the segments' data, the segments,
      the user stack, the table of files and the kernel stack. */
  datatype Program = Program(data: seq<nat>, segments: seq<Segment>, stack: Segment, files: Word, kernelStack: nat)

  function DataEvents(data: seq<nat>): seq<Event>
  {
    seq(|data|, i requires 0 <= i < |data| => Kernel(Pages(data[i], PG_WRITE)))
  }

  function LoadEvent(g: Segment): Event
    requires g.begin <= g.end
  {
    MapFresh(g.begin, SegmentPages(g), Or(g.flags, PG_USER))
  }

  function LoadEvents(segments: seq<Segment>): seq<Event>
    requires forall g :: g in segments ==> g.begin <= g.end
  {
    seq(|segments|, i requires 0 <= i < |segments| => (assert segments[i] in segments; LoadEvent(segments[i])))
  }

  predicate ProgramOk(p: Program)
  {
    && (forall n :: n in p.data ==> n * PAGE_SIZE <= SMALL)
    && (forall g :: g in p.segments ==> SegmentOk(g)) && SegmentOk(p.stack)
    && p.files < SMALL && 0 < p.kernelStack && p.kernelStack * PAGE_SIZE <= SMALL
  }

  function RestEvents(p: Program): seq<Event>
    requires ProgramOk(p)
  {
    LoadEvents(p.segments) + [LoadEvent(p.stack), Kernel(Bytes(p.files)), Kernel(Pages(p.kernelStack, PG_WRITE))]
  }

  function ExecEvents(p: Program): seq<Event>
    requires ProgramOk(p)
  {
    DataEvents(p.data) + ([NewSpace] + RestEvents(p))
  }

  function WarmAll(s: Vm, warm: bool, events: seq<Event>): bool
    decreases |events|
  {
    if events == [] then warm else WarmAll(Step(s, events[0]), WarmAfter(s, warm, events[0]), events[1..])
  }

  /** An event whose rules are about its arguments alone. */
  ghost predicate Plainly(e: Event)
  {
    forall s: Vm, given: seq<(Word, nat, nat)>, warm: bool :: Visible(s, given, warm, e)
  }

  lemma {:induction false} PlainlyVisible(s: Vm, given: seq<(Word, nat, nat)>, warm: bool, events: seq<Event>)
    requires forall i :: 0 <= i < |events| ==> Plainly(events[i])
    ensures LifeVisible(s, given, warm, events)
    decreases |events|
  {
    hide Visible, Step, ResultOf, WarmAfter;
    if events != [] {
      PlainlyVisible(Step(s, events[0]), given + ResultOf(s, events[0]), WarmAfter(s, warm, events[0]), events[1..]);
    }
  }

  lemma {:induction false} VisibleCat(s: Vm, given: seq<(Word, nat, nat)>, warm: bool, a: seq<Event>, b: seq<Event>)
    requires LifeVisible(s, given, warm, a)
    requires LifeVisible(Life(s, a).0, given + Life(s, a).1, WarmAll(s, warm, a), b)
    ensures LifeVisible(s, given, warm, a + b) && Life(s, a + b).0 == Life(Life(s, a).0, b).0
    ensures WarmAll(s, warm, a + b) == WarmAll(Life(s, a).0, WarmAll(s, warm, a), b)
    decreases |a|
  {
    hide Visible, Step, ResultOf, WarmAfter;
    if a == [] {
      assert a + b == b && given + [] == given;
    } else {
      assert (a + b)[0] == a[0] && (a + b)[1..] == a[1..] + b;
      var t, g := Step(s, a[0]), given + ResultOf(s, a[0]);
      assert g + Life(t, a[1..]).1 == given + (ResultOf(s, a[0]) + Life(t, a[1..]).1);
      VisibleCat(t, g, WarmAfter(s, warm, a[0]), a[1..], b);
    }
  }

  lemma LoadIsPlain(g: Segment)
    requires SegmentOk(g)
    ensures Plainly(LoadEvent(g))
  {
    hide Dist, I4, PageAt, Or;
    var flags := Or(g.flags, PG_USER);
    SegmentPagesCover(g);
    if g.begin < g.end {
      SegmentSlots(g, flags);
    }
    forall w: nat | VM_BEGIN_REQUEST <= w < VM_END_REQUEST ensures Dist(g.begin, w, flags) >= SegmentPages(g)
    {
      SegmentBelowArena(g, w, flags);
    }
  }

  lemma CallIsPlain(call: Call)
    requires SmallSize(call) && (call.Bytes? || call.Pages?)
    ensures Plainly(Kernel(call))
  {
    hide Do;
    forall s: Vm, given: seq<(Word, nat, nat)> ensures Disciplined(s, given, [call])
    {
    }
  }

  lemma RestIsPlain(p: Program)
    requires ProgramOk(p)
    ensures forall i :: 0 <= i < |RestEvents(p)| ==> Plainly(RestEvents(p)[i])
  {
    hide Plainly, SegmentOk;
    forall i | 0 <= i < |RestEvents(p)| ensures Plainly(RestEvents(p)[i])
    {
      if i < |p.segments| {
        assert p.segments[i] in p.segments;
        LoadIsPlain(p.segments[i]);
      } else {
        LoadIsPlain(p.stack);
        CallIsPlain(Bytes(p.files));
        CallIsPlain(Pages(p.kernelStack, PG_WRITE));
      }
    }
  }

  lemma DataIsPlain(data: seq<nat>)
    requires forall n :: n in data ==> n * PAGE_SIZE <= SMALL
    ensures forall i :: 0 <= i < |DataEvents(data)| ==> Plainly(DataEvents(data)[i])
  {
    hide Plainly;
    forall i | 0 <= i < |data| ensures Plainly(DataEvents(data)[i])
    {
      assert data[i] in data;
      CallIsPlain(Pages(data[i], PG_WRITE));
    }
  }

  /** Starting a program keeps to the rules if a switch can follow the requests for its data, as after
      one that succeeded, and a frame is left then. If its last request succeeds, the next program
      can be started in the same way. */
  lemma ExecIsVisible(s: Vm, given: seq<(Word, nat, nat)>, warm: bool, p: Program)
    requires ProgramOk(p)
    requires var d := DataEvents(p.data); WarmAll(s, warm, d) && !Exhausted(Life(s, d).0.phys)
    ensures LifeVisible(s, given, warm, ExecEvents(p))
    ensures var before := ExecEvents(p)[..|ExecEvents(p)| - 1];
            Do(Life(s, before).0, Pages(p.kernelStack, PG_WRITE)).1 != 0 ==> WarmAll(s, warm, ExecEvents(p))
  {
    hide Visible, Step, ResultOf, RestEvents, DataEvents, Plainly;
    var d, r := DataEvents(p.data), RestEvents(p);
    DataIsPlain(p.data);
    PlainlyVisible(s, given, warm, d);
    RestIsPlain(p);
    var t, g := Life(s, d).0, given + Life(s, d).1;
    SwitchIsVisible(t, g, r);
    VisibleCat(s, given, warm, d, [NewSpace] + r);
    var all := ExecEvents(p);
    LastOfExec(p);
    var before := all[..|all| - 1];
    assert all == before + [Kernel(Pages(p.kernelStack, PG_WRITE))];
    WarmAtEnd(s, warm, before, p.kernelStack);
  }

  lemma SwitchIsVisible(t: Vm, g: seq<(Word, nat, nat)>, r: seq<Event>)
    requires !Exhausted(t.phys) && forall i :: 0 <= i < |r| ==> Plainly(r[i])
    ensures LifeVisible(t, g, true, [NewSpace] + r)
  {
    hide Step, Plainly, ResultOf;
    var all := [NewSpace] + r;
    assert all[0] == NewSpace && all[1..] == r;
    assert Visible(t, g, true, NewSpace);
    PlainlyVisible(Step(t, NewSpace), g + ResultOf(t, NewSpace), WarmAfter(t, true, NewSpace), r);
  }

  lemma LastOfExec(p: Program)
    requires ProgramOk(p)
    ensures var all := ExecEvents(p); all != [] && all[|all| - 1] == Kernel(Pages(p.kernelStack, PG_WRITE))
  {
    hide DataEvents, LoadEvents, LoadEvent;
  }

  lemma {:induction false} WarmAtEnd(s: Vm, warm: bool, before: seq<Event>, n: nat)
    requires n > 0
    ensures Do(Life(s, before).0, Pages(n, PG_WRITE)).1 != 0
            ==> WarmAll(s, warm, before + [Kernel(Pages(n, PG_WRITE))])
    decreases |before|
  {
    hide Step, Do, ResultOf;
    var last := Kernel(Pages(n, PG_WRITE));
    var all := before + [last];
    if before == [] {
      assert all == [last] && all[1..] == [];
    } else {
      assert all[0] == before[0] && all[1..] == before[1..] + [last];
      WarmAtEnd(Step(s, before[0]), WarmAfter(s, warm, before[0]), before[1..], n);
    }
  }
}
