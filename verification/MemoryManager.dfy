/** The virtual-memory manager with its globals, in the form of the C code. Each method does to the
    globals what the function of the same name in the other modules does to their values. */
module MemoryManager {
  import opened Bits
  import opened Paging
  import opened Wrappers
  import opened PageTree
  import M = MapPages
  import opened MapRange
  import W = WalkCache
  import A = Arena
  import S = AddressSpace

  class Manager {
    // Physical memory, reached through the direct map.
    const ram: array<Word>

    var arenaBegin: Word
    var arenaHead: Word
    var arenaEnd: Word

    var toplevel: Word
    var cr3: Word

    var cachedPml4eOffset: nat
    var cachedPdpteOffset: nat
    var cachedPdeOffset: nat
    var cachedPml4eTable: nat
    var cachedPdpteTable: nat
    var cachedPdeTable: nat

    var vmArenaHead: Word

    var currentBase: Word
    var currentOffset: Word
    var currentSize: Word

    ghost function Memory(): Phys
      reads this, ram
    {
      Phys(ram[..], arenaBegin, arenaHead, arenaEnd)
    }

    ghost function Cache(): W.Cache
      reads this
    {
      W.Cache(cachedPml4eOffset, cachedPml4eTable, cachedPdpteOffset, cachedPdpteTable,
              cachedPdeOffset, cachedPdeTable)
    }

    ghost function State(): A.Vm
      reads this, ram
    {
      A.Vm(Memory(), Cache(), toplevel, cr3, vmArenaHead, currentBase, currentOffset, currentSize)
    }

    /** The C initial values, with the arena `setup_pm` found. */
    constructor (ram: array<Word>, begin: Word, end: Word)
      ensures this.ram == ram
      ensures State() == A.Vm(Phys(ram[..], begin, begin, end), W.COLD, 0, 0, A.VM_BEGIN_REQUEST, 0, 0, 0)
    {
      this.ram := ram;
      arenaBegin, arenaHead, arenaEnd := begin, begin, end;
      toplevel, cr3 := 0, 0;
      cachedPml4eOffset, cachedPdpteOffset, cachedPdeOffset := 0, 0, 0;
      cachedPml4eTable, cachedPdpteTable, cachedPdeTable := 0, 0, 0;
      vmArenaHead := A.VM_BEGIN_REQUEST;
      currentBase, currentOffset, currentSize := 0, 0, 0;
    }

    method LoadWord(a: nat) returns (w: Word)
      ensures w == Load(ram[..], a)
    {
      if a / 8 < ram.Length {
        w := ram[a / 8];
      } else {
        w := 0;
      }
    }

    method StoreWord(a: nat, w: Word)
      modifies ram
      ensures ram[..] == Store(old(ram[..]), a, w)
    {
      if a / 8 < ram.Length {
        ram[a / 8] := w;
      }
    }

    method AllocPages(n: nat) returns (p: Word)
      modifies this`arenaHead
      ensures (Memory(), p) == M.AllocPages(old(Memory()), n)
    {
      var next := U64(arenaHead + U64(n * PAGE_SIZE));
      if next > arenaEnd {
        return 0;
      }
      p := arenaHead;
      arenaHead := next;
    }

    method WalkTable(table: nat, offset: nat, flags: nat) returns (entry: Word)
      modifies this`arenaHead, ram
      ensures (Memory(), entry) == M.WalkTable(old(Memory()), table, offset, flags)
    {
      if offset >= PTABLE_LEN {
        return 0;
      }
      entry := LoadWord(Slot(table, offset));
      if !ValidTable(entry) {
        var newEntry := AllocPages(1);
        if newEntry == 0 {
          return 0;
        }
        entry := EntryOf(newEntry, flags);
        StoreWord(Slot(table, offset), entry);
      }
    }

    /** `walk_table`, the test of what it returns and the masking, as `map_page` does them at each
        level of the walk. */
    method Descend(table: nat, offset: nat, flags: nat) returns (ok: bool, next: nat)
      modifies this`arenaHead, ram
      ensures (Memory(), if ok then Some(next) else None) == M.Descend(old(Memory()), table, offset, flags)
    {
      hide M.WalkTable, PageBase, SizeBit;
      var entry := WalkTable(table, offset, flags);
      if !Present(entry) || SizeBit(entry) {
        return false, 0;
      }
      ok, next := true, PageBase(entry);
    }

    /** The step at the label `alloc`. */
    method Place(table: nat, offset: nat, paddr: Word, flags: nat) returns (ret: nat)
      modifies ram
      ensures (Memory(), ret) == M.Place(old(Memory()), table, offset, paddr, flags)
    {
      hide EntryOf, Load, Store, Slot;
      var entry := LoadWord(Slot(table, offset));
      if Present(entry) {
        return 1;
      }
      StoreWord(Slot(table, offset), EntryOf(paddr, flags));
      ret := 0;
    }

    /** The walk through the cache, the huge-page branch and the final slot. */
    method MapPage(v: nat, paddr: Word, flags: nat) returns (ret: nat)
      modifies this`arenaHead, this`cachedPml4eOffset, this`cachedPml4eTable, this`cachedPdpteOffset,
               this`cachedPdpteTable, this`cachedPdeOffset, this`cachedPdeTable, ram
      ensures (Memory(), Cache(), ret) == W.CachedMapPage(old(Memory()), old(Cache()), toplevel, v, paddr, flags)
    {
      hide M.Descend, M.Place, Or, I1, I2, I3, I4, WantsHuge;
      var pml4e, pdpte, pde: nat := cachedPml4eTable, cachedPdpteTable, cachedPdeTable;
      var fill := false;
      var ok;

      var pml4eOffset := I4(v);
      if cachedPml4eOffset != pml4eOffset || cachedPml4eTable == 0 {
        fill := true;
        ok, pml4e := Descend(toplevel, pml4eOffset, flags);
        if !ok {
          return 1;
        }
        cachedPml4eTable := pml4e;
        cachedPml4eOffset := pml4eOffset;
      }

      if WantsHuge(flags) {
        ret := Place(pml4e, I3(v), paddr, Or(flags, PG_SIZE));
        return;
      }

      var pdpteOffset := I3(v);
      if cachedPdpteOffset != pdpteOffset || fill || cachedPdpteTable == 0 {
        fill := true;
        ok, pdpte := Descend(pml4e, pdpteOffset, flags);
        if !ok {
          return 1;
        }
        cachedPdpteTable := pdpte;
        cachedPdpteOffset := pdpteOffset;
      }

      var pdeOffset := I2(v);
      if cachedPdeOffset != pdeOffset || fill || cachedPdeTable == 0 {
        fill := true;
        ok, pde := Descend(pdpte, pdeOffset, flags);
        if !ok {
          return 1;
        }
        cachedPdeTable := pde;
        cachedPdeOffset := pdeOffset;
      }

      ret := Place(pde, I1(v), paddr, flags);
    }

    /** The loop of `map_pages`. From a coherent cache and a well-shaped tree it adds exactly the
        first k pages, all of them when it returns 0. */
    method MapPages(v: nat, paddr: nat, n: nat, flags: nat) returns (ret: nat)
      modifies this`arenaHead, this`cachedPml4eOffset, this`cachedPml4eTable, this`cachedPdpteOffset,
               this`cachedPdpteTable, this`cachedPdeOffset, this`cachedPdeTable, ram
      ensures (Memory(), Cache(), ret) == W.CachedMapAll(old(Memory()), old(Cache()), toplevel, v, paddr, n, flags)
      ensures old(Shape(Memory(), toplevel) && CanMapAll(ram[..], toplevel, v, paddr, n, flags)
                  && W.Coherent(Cache(), ram[..], toplevel))
              ==> var k := Progress(old(Memory()), toplevel, v, paddr, n, flags);
                  && (ret == 0 <==> k == n)
                  && forall w :: Translate(ram[..], toplevel, w)
                                 == Overlay(old(Memory()), toplevel, v, paddr, k, flags, w)
    {
      hide W.CachedMapPage;
      ghost var p, c := Memory(), Cache();
      ret := 0;
      var i := 0;
      while i < n
        invariant i <= n && ret == 0
        invariant (Memory(), Cache(), 0) == W.CachedMapAll(p, c, toplevel, v, paddr, i, flags)
      {
        ret := MapPage(PageAt(v, i, flags), PageAt(paddr, i, flags), flags);
        if ret != 0 {
          break;
        }
        i := i + 1;
      }
      if ret != 0 {
        StopsEarly(p, c, toplevel, v, paddr, i + 1, n, flags);
      }
      if Shape(p, toplevel) && CanMapAll(p.mem, toplevel, v, paddr, n, flags) && W.Coherent(c, p.mem, toplevel) {
        W.CachedMapAllRefines(p, c, toplevel, v, paddr, n, flags);
        MapAllTranslates(p, toplevel, v, paddr, n, flags);
        AllOverlaid(p, Memory(), toplevel, v, paddr, n, flags);
      }
    }

    method MapAllocPages(v: nat, n: nat, flags: nat) returns (ret: nat)
      modifies this`arenaHead, this`cachedPml4eOffset, this`cachedPml4eTable, this`cachedPdpteOffset,
               this`cachedPdpteTable, this`cachedPdeOffset, this`cachedPdeTable, ram
      ensures (State(), ret) == A.MapAllocPages(old(State()), v, n, flags)
    {
      hide W.CachedMapAll, M.AllocPages;
      var ppages;
      if WantsHuge(flags) {
        ppages := AllocPages(U64(n * PTABLE_LEN * PTABLE_LEN));
      } else {
        ppages := AllocPages(n);
      }
      if ppages == 0 {
        return 1;
      }
      ret := MapPages(v, ppages, n, flags);
    }

    method RequestPages(paddr: nat, n: nat, flags: nat) returns (addr: Word)
      modifies this, ram
      ensures (State(), addr) == A.RequestPages(old(State()), paddr, n, flags)
    {
      hide W.CachedMapAll, A.MapAllocPages;
      var newHead := U64(vmArenaHead + U64(M.Span(flags) * n));
      if newHead > A.VM_END_REQUEST {
        return 0;
      }
      var ret;
      if paddr == 0 {
        ret := MapAllocPages(vmArenaHead, n, flags);
      } else {
        ret := MapPages(vmArenaHead, paddr, n, flags);
      }
      addr := vmArenaHead;
      vmArenaHead := newHead;
      if ret != 0 {
        return 0;
      }
    }

    method Kmalloc(size: Word) returns (addr: Word)
      modifies this, ram
      ensures (State(), addr) == A.Kmalloc(old(State()), size)
    {
      hide A.RequestPages;
      var newOffset := U64(currentOffset + size);
      if newOffset < currentSize {
        addr := U64(currentBase + currentOffset);
        currentOffset := newOffset;
        return;
      }
      addr := RequestPages(0, size / PAGE_SIZE + 1, PG_WRITE);
      if addr == 0 {
        return;
      }
      currentOffset := size;
      currentSize := U64((size / PAGE_SIZE + 1) * PAGE_SIZE);
      currentBase := addr;
    }

    /** False where the code panics. */
    method SetupVm(k: S.Image) returns (ok: bool)
      modifies this, ram
      ensures (State(), ok) == S.SetupVm(old(State()), k)
    {
      hide W.CachedMapAll, M.AllocPages;
      toplevel := AllocPages(1);
      var ret := MapPages(S.KERNEL_TEXT, k.phys, k.size / PAGE_SIZE, PG_WRITE);
      if ret != 0 {
        return false;
      }
      ret := MapPages(HHDM_BEGIN, 0, HHDM_SIZE / PDPTE_COVERAGE, S.HUGE_WRITE);
      if ret != 0 {
        return false;
      }
      cr3 := toplevel;
      var _ := AllocPages(S.STACK_PAGES);
      ok := true;
    }

    /** The new top level of `exec_process`, filled word by word. */
    method SwitchSpace()
      modifies this, ram
      ensures State() == S.SwitchSpace(old(State()))
    {
      hide M.AllocPages, Load, Store;
      var frame := AllocPages(1);
      var dst: nat, src: nat := frame, cr3;
      ghost var m := ram[..];
      for i := 0 to S.HALF
        modifies ram
        invariant ram[..] == S.CopyWords(m, dst + 0x800, src + 0x800, i)
      {
        var w := LoadWord(src + 0x800 + 8 * i);
        StoreWord(dst + 0x800 + 8 * i, w);
      }
      toplevel := frame;
      cr3 := toplevel;
    }

    method LoadMapping(g: S.Segment) returns (ret: nat)
      requires g.begin <= g.end
      modifies this, ram
      ensures (State(), ret) == S.LoadMapping(old(State()), g)
    {
      hide A.MapAllocPages;
      var size := g.end - g.begin;
      var n;
      if size % 0x1000 != 0 {
        n := size / PAGE_SIZE + 1;
      } else {
        n := size / PAGE_SIZE;
      }
      ret := MapAllocPages(g.begin, n, Or(g.flags, PG_USER));
    }

    method LoadAll(segments: seq<S.Segment>)
      requires forall g :: g in segments ==> g.begin <= g.end
      modifies this, ram
      ensures State() == S.LoadAll(old(State()), segments)
    {
      hide S.LoadMapping;
      ghost var s := State();
      assert segments[0..] == segments;
      for i := 0 to |segments|
        invariant S.LoadAll(State(), segments[i..]) == S.LoadAll(s, segments)
      {
        var _ := LoadMapping(segments[i]);
        assert segments[i..][1..] == segments[i + 1..];
      }
      assert segments[|segments|..] == [];
    }
  }

  /** Once a page fails the rest of the loop is skipped. */
  lemma {:induction false} StopsEarly(p: Phys, c: W.Cache, top: nat, v: nat, paddr: nat, i: nat, n: nat, flags: nat)
    requires i <= n && W.CachedMapAll(p, c, top, v, paddr, i, flags).2 != 0
    ensures W.CachedMapAll(p, c, top, v, paddr, n, flags) == W.CachedMapAll(p, c, top, v, paddr, i, flags)
  {
    hide W.CachedMapPage;
    if i < n {
      StopsEarly(p, c, top, v, paddr, i, n - 1, flags);
    }
  }

  lemma AllOverlaid(p: Phys, q: Phys, top: nat, v: nat, paddr: nat, n: nat, flags: nat)
    requires MappedK(p, q, top, v, paddr, Progress(p, top, v, paddr, n, flags), flags)
    ensures forall w :: Translate(q.mem, top, w)
                        == Overlay(p, top, v, paddr, Progress(p, top, v, paddr, n, flags), flags, w)
  {
    hide Translate, Progress;
    var k := Progress(p, top, v, paddr, n, flags);
    forall w ensures Translate(q.mem, top, w) == Overlay(p, top, v, paddr, k, flags, w)
    {
      assert MappedAt(p, q, top, v, paddr, k, flags, w);
    }
  }
}
