/** Building the kernel's address space at boot, and switching to the address space of a new
    process. */
module AddressSpace {
  import opened Bits
  import opened Paging
  import opened Wrappers
  import opened PageTree
  import opened MapPages
  import opened MapRange
  import opened WalkCache
  import opened Arena

  // ---- a fresh top-level table ----

  lemma FreshReach(p: Phys, path: Path)
    requires ArenaOk(p) && p.head + PAGE_SIZE <= p.end && ValidPath(path)
    ensures Reach(p.mem, p.head, path) == if path == Root then p.head else 0
  {
    match path
    case Root =>
    case Sub(up, o) =>
      FreshReach(p, up);
      if up == Root {
        FreshFrameIsZero(p, o);
      }
  }

  lemma FreshTop(p: Phys)
    requires ArenaOk(p) && p.head + PAGE_SIZE <= p.end
    ensures Shape(Advance(p, 1), p.head)
    ensures forall w :: Translate(p.mem, p.head, w) == None && !HugeAt(p.mem, p.head, w)
  {
    forall path | ValidPath(path)
      ensures Reach(p.mem, p.head, path) == if path == Root then p.head else 0
    {
      FreshReach(p, path);
    }
    forall o | 0 <= o < PTABLE_LEN ensures Load(p.mem, Slot(p.head, o)) == 0
    {
      FreshFrameIsZero(p, o);
    }
    assert EntriesOf(p.mem, p.head, 0);
    forall w
      ensures Translate(p.mem, p.head, w) == None && !HugeAt(p.mem, p.head, w)
    {
      PathsAreValid(w);
    }
  }

  // ---- setup_vm ----

  const KERNEL_TEXT: Word := 0xFFFF_FFFF_8000_0000
  const STACK_PAGES: nat := 8
  const HHDM_PAGES: nat := 0x1_0000
  const HUGE_WRITE: nat := 0x1002

  /** The link script's symbols: where the kernel image is in physical memory, and its size. */
  datatype Image = Image(phys: nat, size: nat)

  predicate ImageOk(k: Image)
  {
    k.phys % PAGE_SIZE == 0 && k.size % PAGE_SIZE == 0 && k.phys + k.size <= TWO52 && k.size <= 0x8000_0000
  }

  /** False where the code panics. The first allocation is not checked. */
  function SetupVm(s: Vm, k: Image): (Vm, bool)
  {
    var (p, frame) := AllocPages(s.phys, 1);
    var s1 := s.(phys := p, top := frame);
    var (s2, ret2) := MapPagesC(s1, KERNEL_TEXT, k.phys, k.size / PAGE_SIZE, PG_WRITE);
    if ret2 != 0 then (s2, false) else
    var (s3, ret3) := MapPagesC(s2, HHDM_BEGIN, 0, HHDM_SIZE / PDPTE_COVERAGE, HUGE_WRITE);
    if ret3 != 0 then (s3, false) else
    (s3.(cr3 := s3.top, phys := AllocPages(s3.phys, STACK_PAGES).0), true)
  }

  /** Before `setup_vm`: nothing in the cache, the virtual arena or the byte allocator. */
  ghost predicate AtBoot(s: Vm)
  {
    && ArenaOk(s.phys) && s.phys.head + PAGE_SIZE <= s.phys.end
    && s.cache == COLD && s.arena == VM_BEGIN_REQUEST && s.size == 0
  }

  lemma TextNumbers(o: nat)
    requires o < 0x8000_0000
    ensures Trim(KERNEL_TEXT + o) == 0xFFFF_8000_0000 + o
    ensures I4(KERNEL_TEXT + o) == ARENA_SLOT
    ensures Dist(KERNEL_TEXT, KERNEL_TEXT + o, PG_WRITE) == o / PAGE_SIZE
    ensures Dist(HHDM_BEGIN, KERNEL_TEXT + o, HUGE_WRITE) >= HHDM_PAGES
  {
    DivMod(KERNEL_TEXT + o, TWO48, 0xFFFF, 0xFFFF_8000_0000 + o);
    DivMod(KERNEL_TEXT, TWO48, 0xFFFF, 0xFFFF_8000_0000);
    DivMod(HHDM_BEGIN, TWO48, 0xFFFF, 0x8000_0000_0000);
    var t := 0xFFFF_8000_0000 + o;
    DivMod(t, PML4E_COVERAGE, ARENA_SLOT, t - ARENA_SLOT * PML4E_COVERAGE);
    DivMod(t, PAGE_SIZE, 0xF_FFF8_0000 + o / PAGE_SIZE, o % PAGE_SIZE);
    DivMod(o / PAGE_SIZE, PAGE_COUNT, 0, o / PAGE_SIZE);
    var g := o / PDPTE_COVERAGE;
    DivMod(t, PDPTE_COVERAGE, 0x3_FFFE + g, o % PDPTE_COVERAGE);
    DivMod(0x1_FFFE + g, 0x4_0000, 0, 0x1_FFFE + g);
  }

  lemma HhdmNumbers(o: nat)
    requires o < HHDM_SIZE
    ensures Dist(HHDM_BEGIN, HHDM_BEGIN + o, HUGE_WRITE) == o / PDPTE_COVERAGE < HHDM_PAGES
    ensures o / PDPTE_COVERAGE * PDPTE_COVERAGE + (HHDM_BEGIN + o) % PDPTE_COVERAGE == o
  {
    var t := 0x8000_0000_0000 + o;
    DivMod(HHDM_BEGIN + o, TWO48, 0xFFFF, t);
    DivMod(HHDM_BEGIN, TWO48, 0xFFFF, 0x8000_0000_0000);
    var g := o / PDPTE_COVERAGE;
    DivMod(t, PDPTE_COVERAGE, 0x2_0000 + g, o % PDPTE_COVERAGE);
    DivMod(g, 0x4_0000, 0, g);
    DivMod(HHDM_BEGIN + o, PDPTE_COVERAGE, HHDM_BEGIN / PDPTE_COVERAGE + g, o % PDPTE_COVERAGE);
  }

  /** No huge page of the direct map is in the PML4 slot of the kernel text and the arena. */
  lemma SlotBeyondHhdm(w: nat)
    requires I4(w) == ARENA_SLOT
    ensures Dist(HHDM_BEGIN, w, HUGE_WRITE) >= HHDM_PAGES
  {
    DivMod(HHDM_BEGIN, TWO48, 0xFFFF, 0x8000_0000_0000);
    var t := Trim(w);
    var g := t / PDPTE_COVERAGE;
    assert ARENA_SLOT * PML4E_COVERAGE <= t < TWO48;
    assert 0x3_FE00 <= g < 0x4_0000;
    DivMod(g - 0x2_0000, 0x4_0000, 0, g - 0x2_0000);
  }

  lemma ArenaBelowText(w: nat)
    requires VM_BEGIN_REQUEST <= w < VM_END_REQUEST
    ensures Dist(KERNEL_TEXT, w, PG_WRITE) >= 0x8_0000
    ensures Dist(HHDM_BEGIN, w, HUGE_WRITE) >= HHDM_PAGES
  {
    ArenaNumber(w);
    DivMod(KERNEL_TEXT, TWO48, 0xFFFF, 0xFFFF_8000_0000);
    var i := Trim(w) / PAGE_SIZE;
    assert Trim(w) == PAGE_SIZE * i + Trim(w) % PAGE_SIZE;
    assert 0xF_FFF0_0000 <= i < 0xF_FFF8_0000;
    DivMod(i - 0xF_FFF8_0000, PAGE_COUNT, -1, i - 0xF_FFF8_0000 + PAGE_COUNT);
    SlotBeyondHhdm(w);
  }

  /** Both mappings of `setup_vm`, from the empty tree. */
  lemma BothMaps(s1: Vm, k: Image)
    requires Shape(s1.phys, s1.top) && s1.cache == COLD && ImageOk(k)
    requires forall w :: Translate(s1.phys.mem, s1.top, w) == None && !HugeAt(s1.phys.mem, s1.top, w)
    ensures var (s2, ret2) := MapPagesC(s1, KERNEL_TEXT, k.phys, k.size / PAGE_SIZE, PG_WRITE);
            var (s3, ret3) := MapPagesC(s2, HHDM_BEGIN, 0, HHDM_PAGES, HUGE_WRITE);
            ret2 == 0 && ret3 == 0 ==>
              && MappedK(s1.phys, s2.phys, s1.top, KERNEL_TEXT, k.phys, k.size / PAGE_SIZE, PG_WRITE)
              && MappedK(s2.phys, s3.phys, s1.top, HHDM_BEGIN, 0, HHDM_PAGES, HUGE_WRITE)
              && Coherent(s3.cache, s3.phys.mem, s1.top)
  {
    hide MapAll, CachedMapAll, Translate, LastEntry, Shape, HugeAt, MappedK, Coherent;
    var n := k.size / PAGE_SIZE;
    assert n * PAGE_SIZE == k.size;
    ColdIsCoherent(s1);
    var (s2, ret2) := MapPagesC(s1, KERNEL_TEXT, k.phys, n, PG_WRITE);
    CachedMapAllRefines(s1.phys, COLD, s1.top, KERNEL_TEXT, k.phys, n, PG_WRITE);
    MapAllTranslates(s1.phys, s1.top, KERNEL_TEXT, k.phys, n, PG_WRITE);
    if ret2 == 0 {
      MappedIsShaped(s1.phys, s2.phys, s1.top, KERNEL_TEXT, k.phys, n, PG_WRITE);
      CachedMapAllRefines(s2.phys, s2.cache, s1.top, HHDM_BEGIN, 0, HHDM_PAGES, HUGE_WRITE);
      MapAllTranslates(s2.phys, s1.top, HHDM_BEGIN, 0, HHDM_PAGES, HUGE_WRITE);
    }
  }

  lemma ColdIsCoherent(s: Vm)
    requires s.cache == COLD
    ensures Coherent(s.cache, s.phys.mem, s.top)
  {
  }

  /** Where w translates in the boot tree. */
  function BootTranslation(k: Image, w: nat): Option<nat>
  {
    var d, e := Dist(HHDM_BEGIN, w, HUGE_WRITE), Dist(KERNEL_TEXT, w, PG_WRITE);
    if d < HHDM_PAGES then Some(d * PDPTE_COVERAGE + w % PDPTE_COVERAGE)
    else if e < k.size / PAGE_SIZE then Some(k.phys + e * PAGE_SIZE + w % PAGE_SIZE)
    else None
  }

  /** The low twelve bits of the entry that maps w in the boot tree: present, writable, and for the direct
      map a 1 GiB page. */
  function BootLow(k: Image, w: nat): nat
  {
    if Dist(HHDM_BEGIN, w, HUGE_WRITE) < HHDM_PAGES then 0x83
    else if Dist(KERNEL_TEXT, w, PG_WRITE) < k.size / PAGE_SIZE then 0x3
    else 0
  }

  lemma BootTreeLow(p1: Phys, p2: Phys, p3: Phys, top: nat, k: Image, w: nat)
    requires Translate(p1.mem, top, w) == None
    requires EntryK(p1, p2, top, KERNEL_TEXT, k.size / PAGE_SIZE, PG_WRITE, w)
    requires EntryK(p2, p3, top, HHDM_BEGIN, HHDM_PAGES, HUGE_WRITE, w)
    ensures LastEntry(p3.mem, top, w) % 0x1000 == BootLow(k, w)
  {
    hide Translate, LastEntry, Dist;
    WalksAgree(p1.mem, top, w);
    assert LowOf(PG_WRITE) == 0x3 && LowOf(HUGE_WRITE) == 0x83;
  }

  lemma BootTree(p1: Phys, p2: Phys, p3: Phys, top: nat, k: Image, w: nat)
    requires Translate(p1.mem, top, w) == None && !HugeAt(p1.mem, top, w)
    requires MappedAt(p1, p2, top, KERNEL_TEXT, k.phys, k.size / PAGE_SIZE, PG_WRITE, w)
    requires MappedAt(p2, p3, top, HHDM_BEGIN, 0, HHDM_PAGES, HUGE_WRITE, w)
    ensures Translate(p3.mem, top, w) == BootTranslation(k, w)
    ensures LastEntry(p3.mem, top, w) % 0x1000 == BootLow(k, w)
    ensures HugeAt(p3.mem, top, w) ==> Dist(HHDM_BEGIN, w, HUGE_WRITE) < HHDM_PAGES
  {
    hide Translate, LastEntry, HugeAt, Dist, WalkEntries;
    BootTreeLow(p1, p2, p3, top, k, w);
    hide EntryK, BootLow;
  }

  /** The boot map: once `setup_vm` succeeds the tree translates exactly the direct map and the
      kernel image, and the allocators can start. */
  lemma SetupVmMaps(s: Vm, k: Image)
    requires AtBoot(s) && ImageOk(k)
    ensures var (t, ok) := SetupVm(s, k);
            ok ==> && VmOk(t) && t.cr3 == t.top && t.size == 0
                   && (forall w :: Translate(t.phys.mem, t.top, w) == BootTranslation(k, w))
                   && (forall w :: LastEntry(t.phys.mem, t.top, w) % 0x1000 == BootLow(k, w))
  {
    hide Translate, LastEntry, HugeAt, MapPagesC, MappedAt, Dist, OnlyTablesWritten, BootTranslation, TablesInArena,
         ReferencedOnce, GoodEntries, I4;
    AllocOne(s.phys);
    FreshTop(s.phys);
    var s1 := s.(phys := Advance(s.phys, 1), top := s.phys.head);
    BothMaps(s1, k);
    var (s2, ret2) := MapPagesC(s1, KERNEL_TEXT, k.phys, k.size / PAGE_SIZE, PG_WRITE);
    var (s3, ret3) := MapPagesC(s2, HHDM_BEGIN, 0, HHDM_PAGES, HUGE_WRITE);
    MapKeepsFields(s1, KERNEL_TEXT, k.phys, k.size / PAGE_SIZE, PG_WRITE);
    MapKeepsFields(s2, HHDM_BEGIN, 0, HHDM_PAGES, HUGE_WRITE);
    if ret2 == 0 && ret3 == 0 {
      forall w
        ensures Translate(s3.phys.mem, s3.top, w) == BootTranslation(k, w)
        ensures LastEntry(s3.phys.mem, s3.top, w) % 0x1000 == BootLow(k, w)
        ensures HugeAt(s3.phys.mem, s3.top, w) ==> Dist(HHDM_BEGIN, w, HUGE_WRITE) < HHDM_PAGES
      {
        BootTree(s1.phys, s2.phys, s3.phys, s1.top, k, w);
      }
      BootArena(s3, k);
      StackKeepsVm(s3);
    }
  }

  /** The state of `setup_vm` after its two mappings. */
  function BootMaps(s: Vm, k: Image): Vm
  {
    var (p, frame) := AllocPages(s.phys, 1);
    var s2 := MapPagesC(s.(phys := p, top := frame), KERNEL_TEXT, k.phys, k.size / PAGE_SIZE, PG_WRITE).0;
    MapPagesC(s2, HHDM_BEGIN, 0, HHDM_SIZE / PDPTE_COVERAGE, HUGE_WRITE).0
  }

  /** The kernel stack: 0x8000 bytes above all tables are set aside, exactly when the arena has room. */
  lemma StackExactly(s: Vm, k: Image)
    requires AtBoot(s) && ImageOk(k) && SetupVm(s, k).1
    ensures var t, f := SetupVm(s, k).0, BootMaps(s, k).phys.head;
            && s.phys.head < f && f % 0x1000 == 0 && NoTableIn(t.phys.mem, t.top, f, 8)
            && t.phys.head == if f + 0x8000 <= s.phys.end then f + 0x8000 else f
  {
    hide Translate, LastEntry, HugeAt, MapPagesC, TablesInArena, ReferencedOnce, GoodEntries, MappedK;
    AllocOne(s.phys);
    FreshTop(s.phys);
    var s1 := s.(phys := Advance(s.phys, 1), top := s.phys.head);
    BothMaps(s1, k);
    var s2 := MapPagesC(s1, KERNEL_TEXT, k.phys, k.size / PAGE_SIZE, PG_WRITE).0;
    var s3 := MapPagesC(s2, HHDM_BEGIN, 0, HHDM_PAGES, HUGE_WRITE).0;
    MapKeepsFields(s1, KERNEL_TEXT, k.phys, k.size / PAGE_SIZE, PG_WRITE);
    MapKeepsFields(s2, HHDM_BEGIN, 0, HHDM_PAGES, HUGE_WRITE);
    HeadAfter(s1.phys, s2.phys, s1.top, KERNEL_TEXT, k.phys, k.size / PAGE_SIZE, PG_WRITE);
    HeadAfter(s2.phys, s3.phys, s1.top, HHDM_BEGIN, 0, HHDM_PAGES, HUGE_WRITE);
    TablesBelowHead(s3.phys, s1.top, STACK_PAGES);
    AllocWraps(s3.phys, STACK_PAGES);
    NoWrap(s3.phys.head + STACK_PAGES * PAGE_SIZE);
  }

  lemma HeadAfter(p: Phys, q: Phys, top: nat, v: nat, paddr: nat, k: nat, flags: nat)
    requires MappedK(p, q, top, v, paddr, k, flags)
    ensures ArenaOk(q) && Shape(q, top) && p.head <= q.head && q.end == p.end
  {
  }

  /** The frames above the head hold no table. */
  lemma TablesBelowHead(p: Phys, top: nat, n: nat)
    requires Shape(p, top)
    ensures NoTableIn(p.mem, top, p.head, n)
  {
  }

  lemma MapKeepsFields(s: Vm, v: nat, paddr: nat, n: nat, flags: nat)
    ensures var t := MapPagesC(s, v, paddr, n, flags).0; t == s.(phys := t.phys, cache := t.cache)
  {
    hide CachedMapAll;
  }

  lemma BootArena(s: Vm, k: Image)
    requires Shape(s.phys, s.top) && Coherent(s.cache, s.phys.mem, s.top) && s.arena == VM_BEGIN_REQUEST && ImageOk(k)
    requires forall w :: Translate(s.phys.mem, s.top, w) == BootTranslation(k, w)
    requires forall w :: HugeAt(s.phys.mem, s.top, w) ==> Dist(HHDM_BEGIN, w, HUGE_WRITE) < HHDM_PAGES
    ensures VmOk(s)
  {
    hide Translate, LastEntry, HugeAt, Shape, Dist, Coherent, I4;
    forall w: nat | I4(w) == ARENA_SLOT ensures !HugeAt(s.phys.mem, s.top, w)
    {
      SlotBeyondHhdm(w);
    }
    forall w: nat | s.arena <= w < VM_END_REQUEST ensures Translate(s.phys.mem, s.top, w) == None
    {
      ArenaBelowText(w);
    }
    DivMod(VM_BEGIN_REQUEST, PAGE_SIZE, 0xF_FFFF_FFF0_0000, 0);
  }

  lemma StackKeepsVm(s: Vm)
    requires VmOk(s)
    ensures VmOk(s.(phys := AllocPages(s.phys, STACK_PAGES).0, cr3 := s.top))
  {
    hide Translate, LastEntry, PlainSlot, Coherent;
    AllocMany(s.phys, STACK_PAGES);
    if s.phys.head + STACK_PAGES * PAGE_SIZE <= s.phys.end {
      AdvanceKeepsShape(s.phys, s.top, STACK_PAGES);
    }
  }

  lemma HhdmPage(i: nat)
    requires i < HHDM_PAGES
    ensures PageAt(HHDM_BEGIN, i, HUGE_WRITE) == HHDM_BEGIN + i * PDPTE_COVERAGE
    ensures I4(HHDM_BEGIN + i * PDPTE_COVERAGE) != ARENA_SLOT
  {
    var t := 0x8000_0000_0000 + i * PDPTE_COVERAGE;
    DivMod(HHDM_BEGIN + i * PDPTE_COVERAGE, TWO48, 0xFFFF, t);
    DivMod(t, PML4E_COVERAGE, 256 + i / PTABLE_LEN, i % PTABLE_LEN * PDPTE_COVERAGE);
  }

  lemma TextPage(k: Image, i: nat)
    requires ImageOk(k) && i < k.size / PAGE_SIZE
    ensures PageAt(KERNEL_TEXT, i, PG_WRITE) == KERNEL_TEXT + i * PAGE_SIZE
    ensures I4(KERNEL_TEXT + i * PAGE_SIZE) == ARENA_SLOT
  {
    assert i * PAGE_SIZE < k.size by {
      assert k.size == k.size / PAGE_SIZE * PAGE_SIZE;
    }
    TextNumbers(i * PAGE_SIZE);
  }

  /** The mappings of `setup_vm` succeed in an empty tree. */
  lemma BothSucceed(s1: Vm, k: Image)
    requires Shape(s1.phys, s1.top) && s1.cache == COLD && ImageOk(k)
    requires forall w :: Translate(s1.phys.mem, s1.top, w) == None && !Present(E3(s1.phys.mem, s1.top, w))
    requires s1.phys.head + (3 * (k.size / PAGE_SIZE) + HHDM_PAGES) * PAGE_SIZE <= s1.phys.end
    ensures var (s2, ret2) := MapPagesC(s1, KERNEL_TEXT, k.phys, k.size / PAGE_SIZE, PG_WRITE);
            && ret2 == 0 && MapPagesC(s2, HHDM_BEGIN, 0, HHDM_PAGES, HUGE_WRITE).1 == 0
            && MapPagesC(s2, HHDM_BEGIN, 0, HHDM_PAGES, HUGE_WRITE).0.phys.head
               <= s1.phys.head + (3 * (k.size / PAGE_SIZE) + HHDM_PAGES) * PAGE_SIZE
  {
    hide MapAll, CachedMapAll, Translate, LastEntry, Shape, E3, Coherent, Present, PageAt, I4;
    var n := k.size / PAGE_SIZE;
    assert n * PAGE_SIZE == k.size;
    ColdIsCoherent(s1);
    MapAllSucceeds(s1.phys, s1.top, KERNEL_TEXT, k.phys, n, PG_WRITE);
    MapAllTranslates(s1.phys, s1.top, KERNEL_TEXT, k.phys, n, PG_WRITE);
    CachedMapAllRefines(s1.phys, COLD, s1.top, KERNEL_TEXT, k.phys, n, PG_WRITE);
    var (s2, ret2) := MapPagesC(s1, KERNEL_TEXT, k.phys, n, PG_WRITE);
    forall i | 0 <= i < HHDM_PAGES
      ensures !Present(E3(s2.phys.mem, s1.top, PageAt(HHDM_BEGIN, i, HUGE_WRITE)))
    {
      HhdmPage(i);
      forall j | 0 <= j < n ensures I4(PageAt(KERNEL_TEXT, j, PG_WRITE)) == ARENA_SLOT
      {
        TextPage(k, j);
      }
      SmallRunKeepsE3(s1.phys, s1.top, KERNEL_TEXT, k.phys, n, PG_WRITE, PageAt(HHDM_BEGIN, i, HUGE_WRITE));
    }
    HugeRunSucceeds(s2.phys, s1.top, HHDM_BEGIN, 0, HHDM_PAGES, HUGE_WRITE);
    CachedMapAllRefines(s2.phys, s2.cache, s1.top, HHDM_BEGIN, 0, HHDM_PAGES, HUGE_WRITE);
  }

  /** With frames for one table for each gigabyte of the direct map and three for each page of the
      image `setup_vm` does not panic. */
  lemma SetupVmSucceeds(s: Vm, k: Image)
    requires AtBoot(s) && ImageOk(k)
    requires s.phys.head + (1 + 3 * (k.size / PAGE_SIZE) + HHDM_PAGES) * PAGE_SIZE <= s.phys.end
    ensures SetupVm(s, k).1
    ensures BootMaps(s, k).phys.head <= s.phys.head + (1 + 3 * (k.size / PAGE_SIZE) + HHDM_PAGES) * PAGE_SIZE
  {
    hide Translate, LastEntry, MapPagesC, TablesInArena, ReferencedOnce, GoodEntries, I4;
    AllocOne(s.phys);
    FreshTop(s.phys);
    var s1 := s.(phys := Advance(s.phys, 1), top := s.phys.head);
    forall w ensures Translate(s1.phys.mem, s1.top, w) == None && !Present(E3(s1.phys.mem, s1.top, w))
    {
      FreshEntry(s.phys, w);
    }
    BothSucceed(s1, k);
  }

  lemma FreshEntry(p: Phys, w: nat)
    requires ArenaOk(p) && p.head + PAGE_SIZE <= p.end
    ensures !Present(E3(p.mem, p.head, w))
  {
    PathsAreValid(w);
    FreshReach(p, Path1(w));
  }

  /** `P2V` undoes translation, and kernel addresses translate to the loaded image. */
  lemma BootAddresses(s: Vm, k: Image, x: nat, o: nat)
    requires AtBoot(s) && ImageOk(k) && SetupVm(s, k).1
    requires x < HHDM_SIZE && o < k.size
    ensures var t := SetupVm(s, k).0;
            && Translate(t.phys.mem, t.top, HHDM_BEGIN + x) == Some(x)
            && Translate(t.phys.mem, t.top, KERNEL_TEXT + o) == Some(k.phys + o)
            && LastEntry(t.phys.mem, t.top, HHDM_BEGIN + x) % 0x1000 == 0x83
            && LastEntry(t.phys.mem, t.top, KERNEL_TEXT + o) % 0x1000 == 0x3
  {
    hide Translate, LastEntry, SetupVm, VmOk, Dist;
    SetupVmMaps(s, k);
    HhdmNumbers(x);
    TextNumbers(o);
    DivMod(KERNEL_TEXT + o, PAGE_SIZE, KERNEL_TEXT / PAGE_SIZE + o / PAGE_SIZE, o % PAGE_SIZE);
    assert o / PAGE_SIZE < k.size / PAGE_SIZE by {
      assert k.size == k.size / PAGE_SIZE * PAGE_SIZE;
      assert o == o / PAGE_SIZE * PAGE_SIZE + o % PAGE_SIZE;
    }
  }

  // ---- switching to a new top-level table ----

  /** `memcpy` of n words, in order. */
  function CopyWords(m: Memory, dst: nat, src: nat, n: nat): Memory
  {
    if n == 0 then m else
    var c := CopyWords(m, dst, src, n - 1);
    Store(c, dst + 8 * (n - 1), Load(c, src + 8 * (n - 1)))
  }

  const HALF: nat := 256

  /** The first steps of `exec_process`: a frame for the top level, the upper half of the current
      one copied into it, and the switch. The walk cache is not touched. */
  function SwitchSpace(s: Vm): Vm
  {
    var (p, frame) := AllocPages(s.phys, 1);
    var m := CopyWords(p.mem, frame + 0x800, s.cr3 + 0x800, HALF);
    s.(phys := p.(mem := m), top := frame, cr3 := frame)
  }

  lemma {:induction false} CopyLength(m: Memory, dst: nat, src: nat, n: nat)
    ensures |CopyWords(m, dst, src, n)| == |m|
  {
    if n > 0 {
      CopyLength(m, dst, src, n - 1);
    }
  }

  lemma {:induction false} CopiedWord(m: Memory, dst: nat, src: nat, n: nat, a: nat)
    requires dst % 8 == 0 && src % 8 == 0 && a % 8 == 0 && dst + 8 * n <= 8 * |m|
    requires src + 8 * n <= dst || dst + 8 * n <= src
    ensures Load(CopyWords(m, dst, src, n), a)
            == if dst <= a < dst + 8 * n then Load(m, a - dst + src) else Load(m, a)
  {
    hide Load, Store;
    if n > 0 {
      CopiedWord(m, dst, src, n - 1, a);
      var d, e := dst + 8 * (n - 1), src + 8 * (n - 1);
      DivMod(d, 8, dst / 8 + (n - 1), 0);
      DivMod(e, 8, src / 8 + (n - 1), 0);
      CopiedWord(m, dst, src, n - 1, e);
      CopyLength(m, dst, src, n - 1);
      var c := CopyWords(m, dst, src, n - 1);
      LoadStore(c, d, Load(c, e), a);
      if a > d {
        WordsApart(a, d);
      }
    }
  }

  lemma WordsApart(a: nat, d: nat)
    requires a % 8 == 0 && d % 8 == 0 && a > d
    ensures a >= d + 8
  {
  }

  ghost predicate CanSwitch(s: Vm)
  {
    Shape(s.phys, s.top) && s.cr3 == s.top && s.phys.head + PAGE_SIZE <= s.phys.end
  }

  lemma SwitchLayout(s: Vm)
    requires CanSwitch(s)
    ensures var t := SwitchSpace(s); var f := s.phys.head;
            && t == s.(top := f, cr3 := f, phys := t.phys)
            && t.phys == s.phys.(head := f + PAGE_SIZE, mem := CopyWords(s.phys.mem, f + 0x800, s.top + 0x800, HALF))
            && |t.phys.mem| == |s.phys.mem|
    ensures s.top % PAGE_SIZE == 0 && s.top + PAGE_SIZE <= s.phys.head && s.phys.head % PAGE_SIZE == 0
    ensures s.phys.head + PAGE_SIZE <= 8 * |s.phys.mem|
  {
    hide CopyWords;
    AllocOne(s.phys);
    TopInArena(s);
    CopyLength(s.phys.mem, s.phys.head + 0x800, s.top + 0x800, HALF);
  }

  /** Memory after the switch: the new frame holds the upper half of the old top level. */
  lemma SwitchedWord(s: Vm, u: nat, k: nat)
    requires CanSwitch(s) && u % PAGE_SIZE == 0 && k < PTABLE_LEN
    ensures Load(SwitchSpace(s).phys.mem, Slot(u, k))
            == if u != s.phys.head then Load(s.phys.mem, Slot(u, k))
               else if k < HALF then 0 else Load(s.phys.mem, Slot(s.top, k))
  {
    hide CopyWords, SwitchSpace, Load, Shape;
    var f := s.phys.head;
    SwitchLayout(s);
    SlotInUpperHalf(f, u, k);
    SlotInUpperHalf(s.top, u, k);
    hide Slot;
    CopiedWord(s.phys.mem, f + 0x800, s.top + 0x800, HALF, Slot(u, k));
    if u == f {
      ShapeHasArena(s.phys, s.top);
      FreshFrameIsZero(s.phys, k);
      SameSlotOf(f, s.top, k);
    }
  }

  lemma SlotInUpperHalf(f: nat, u: nat, k: nat)
    requires f % PAGE_SIZE == 0 && u % PAGE_SIZE == 0 && k < PTABLE_LEN
    ensures Slot(u, k) % 8 == 0 && (f + 0x800) % 8 == 0
    ensures f + 0x800 <= Slot(u, k) < f + 0x800 + 8 * HALF <==> u == f && k >= HALF
  {
    SlotsAreDistinct(u, k, u, k);
    DivMod(f + 0x800, 8, f / PAGE_SIZE * 512 + 0x100, 0);
    if u != f {
      FramesApart(u, f);
    }
  }

  lemma SameSlotOf(f: nat, t: nat, k: nat)
    ensures k >= HALF ==> Slot(f, k) - (f + 0x800) + (t + 0x800) == Slot(t, k)
  {
  }

  lemma FramesApart(u: nat, f: nat)
    requires u % PAGE_SIZE == 0 && f % PAGE_SIZE == 0 && u != f
    ensures u + PAGE_SIZE <= f || f + PAGE_SIZE <= u
  {
  }

  lemma TopInArena(s: Vm)
    requires Shape(s.phys, s.top)
    ensures s.top % PAGE_SIZE == 0 && s.phys.begin <= s.top && s.top + PAGE_SIZE <= s.phys.head
  {
    assert Reach(s.phys.mem, s.top, Root) == s.top;
  }

  /** The slot a path takes in the top-level table. */
  function FirstSlot(path: Path): nat
  {
    match path
    case Root => 0
    case Sub(up, o) => if up == Root then o else FirstSlot(up)
  }

  /** Only upper-half tables are reached from the new top level, and they are the old ones. */
  lemma {:induction false} SwitchedReach(s: Vm, path: Path)
    requires CanSwitch(s) && ValidPath(path)
    ensures var t := SwitchSpace(s);
            Reach(t.phys.mem, t.top, path) == if path == Root then s.phys.head
                                              else if FirstSlot(path) >= HALF then Reach(s.phys.mem, s.top, path)
                                              else 0
  {
    hide SwitchSpace;
    match path
    case Root => SwitchLayout(s);
    case Sub(up, o) =>
      SwitchedReach(s, up);
      SwitchLayout(s);
      if up == Root {
        SwitchedWord(s, s.phys.head, o);
      } else if Reach(s.phys.mem, s.top, up) != 0 {
        SwitchedWord(s, Reach(s.phys.mem, s.top, up), o);
      }
  }

  lemma FirstSlotOf(v: nat)
    ensures FirstSlot(Path1(v)) == I4(v) && FirstSlot(Path2(v)) == I4(v) && FirstSlot(Path3(v)) == I4(v)
  {
  }

  lemma SwitchedEntries(s: Vm, path: Path)
    requires CanSwitch(s) && ValidPath(path)
    ensures var t := SwitchSpace(s);
            Reach(t.phys.mem, t.top, path) != 0 ==> EntriesOf(t.phys.mem, Reach(t.phys.mem, t.top, path), Depth(path))
  {
    hide SwitchSpace;
    var t := SwitchSpace(s);
    SwitchLayout(s);
    SwitchedReach(s, path);
    assert Reach(s.phys.mem, s.top, Root) == s.top;
    var u := Reach(t.phys.mem, t.top, path);
    if u != 0 {
      assert EntriesOf(s.phys.mem, Reach(s.phys.mem, s.top, path), Depth(path));
      forall k | 0 <= k < PTABLE_LEN
        ensures GoodEntry(Load(t.phys.mem, Slot(u, k)), Depth(path))
      {
        SwitchedWord(s, u, k);
        assert GoodEntry(Load(s.phys.mem, Slot(Reach(s.phys.mem, s.top, path), k)), Depth(path));
      }
    }
  }

  lemma SwitchKeepsArena(s: Vm)
    requires CanSwitch(s)
    ensures ArenaOk(SwitchSpace(s).phys)
  {
    hide SwitchSpace, CopyWords, Load;
    SwitchLayout(s);
    var t := SwitchSpace(s);
    var f := s.phys.head;
    var q := f / PAGE_SIZE * PTABLE_LEN;
    DivMod(f, 8, q, 0);
    DivMod(f + PAGE_SIZE, 8, q + PTABLE_LEN, 0);
    SlotInUpperHalf(f, f, 0);
    SlotInUpperHalf(s.top, f, 0);
    forall i | t.phys.head / 8 <= i < t.phys.end / 8 ensures t.phys.mem[i] == 0
    {
      CopiedWord(s.phys.mem, f + 0x800, s.top + 0x800, HALF, 8 * i);
      LoadIs(t.phys.mem, i);
      LoadIs(s.phys.mem, i);
    }
  }

  lemma LoadIs(m: Memory, i: nat)
    requires i < |m|
    ensures Load(m, 8 * i) == m[i]
  {
  }

  lemma SwitchKeepsShape(s: Vm)
    requires CanSwitch(s)
    ensures var t := SwitchSpace(s); Shape(t.phys, t.top)
  {
    hide SwitchSpace, CopyWords;
    SwitchLayout(s);
    SwitchKeepsArena(s);
    var t := SwitchSpace(s);
    forall path | ValidPath(path)
      ensures Reach(t.phys.mem, t.top, path) == if path == Root then s.phys.head
                                                else if FirstSlot(path) >= HALF then Reach(s.phys.mem, s.top, path)
                                                else 0
      ensures Reach(t.phys.mem, t.top, path) != 0 ==> EntriesOf(t.phys.mem, Reach(t.phys.mem, t.top, path), Depth(path))
    {
      SwitchedReach(s, path);
      SwitchedEntries(s, path);
    }
  }

  lemma SwitchedAddress(s: Vm, w: nat)
    requires CanSwitch(s)
    ensures var t := SwitchSpace(s);
            && E3(t.phys.mem, t.top, w) == (if I4(w) >= HALF then E3(s.phys.mem, s.top, w) else 0)
            && E1(t.phys.mem, t.top, w) == (if I4(w) >= HALF then E1(s.phys.mem, s.top, w) else 0)
  {
    hide SwitchSpace, CopyWords, ArenaOk, GoodEntries;
    PathsAreValid(w);
    FirstSlotOf(w);
    SwitchLayout(s);
    SwitchedReach(s, Path1(w));
    SwitchedReach(s, Path3(w));
    var t1, t3 := Reach(s.phys.mem, s.top, Path1(w)), Reach(s.phys.mem, s.top, Path3(w));
    if t1 != 0 {
      SwitchedWord(s, t1, I3(w));
    }
    if t3 != 0 {
      SwitchedWord(s, t3, I1(w));
    }
  }

  lemma SwitchKeepsLast(s: Vm, w: nat)
    requires CanSwitch(s)
    ensures var t := SwitchSpace(s);
            I4(w) >= HALF ==> LastEntry(t.phys.mem, t.top, w) == LastEntry(s.phys.mem, s.top, w)
  {
    hide SwitchSpace, Translate, LastEntry, Shape, E3, E1;
    SwitchKeepsShape(s);
    SwitchedAddress(s, w);
    var t := SwitchSpace(s);
    LastViaTables(s.phys, s.top, w);
    LastViaTables(t.phys, t.top, w);
  }

  /** The address-space switch keeps every upper-half translation and forgets the lower half. */
  lemma SwitchTranslates(s: Vm, w: nat)
    requires CanSwitch(s)
    ensures var t := SwitchSpace(s);
            && Translate(t.phys.mem, t.top, w) == (if I4(w) >= HALF then Translate(s.phys.mem, s.top, w) else None)
            && (HugeAt(t.phys.mem, t.top, w) <==> I4(w) >= HALF && HugeAt(s.phys.mem, s.top, w))
            && (I4(w) >= HALF ==> LastEntry(t.phys.mem, t.top, w) == LastEntry(s.phys.mem, s.top, w))
  {
    hide SwitchSpace, Translate, LastEntry, Shape, Frame1G, Frame4K, E3, E1;
    SwitchKeepsLast(s, w);
    SwitchKeepsShape(s);
    SwitchedAddress(s, w);
    var t := SwitchSpace(s);
    TranslateViaTables(s.phys, s.top, w);
    TranslateViaTables(t.phys, t.top, w);
  }

  /** The cache is not flushed. It is coherent with the new tree exactly when it is cold or the last
      mapping was in the upper half. */
  lemma SwitchCoherenceExactly(s: Vm)
    requires CanSwitch(s) && Coherent(s.cache, s.phys.mem, s.top)
    ensures var t := SwitchSpace(s);
            Coherent(t.cache, t.phys.mem, t.top) <==> s.cache.tab4 == 0 || s.cache.off4 >= HALF
  {
    hide SwitchSpace, Translate, LastEntry, Shape, HugeAt;
    var c := s.cache;
    var t := SwitchSpace(s);
    SwitchLayout(s);
    PathBounds(c);
    SwitchedReach(s, CachedPath1(c));
    SwitchedReach(s, CachedPath2(c));
    SwitchedReach(s, CachedPath3(c));
    if c.off4 >= HALF && PlainSlot(t.phys.mem, t.top, c.off4) {
      forall v: nat | I4(v) == c.off4 ensures !HugeAt(s.phys.mem, s.top, v)
      {
        SwitchTranslates(s, v);
      }
    }
  }

  /** A successful mapping leaves the cache at its last page. */
  lemma MapAllocWarms(s: Vm, v: nat, n: nat, flags: nat)
    requires Shape(s.phys, s.top) && CacheUsable(s) && SmallFlags(flags) && PlainRange(s, v, n, flags)
    requires FramesFit(s.phys, n) && n > 0 && MapAllocPages(s, v, n, flags).1 == 0
    ensures var t := MapAllocPages(s, v, n, flags).0;
            t.cache.off4 == I4(PageAt(v, n - 1, flags)) && Coherent(t.cache, t.phys.mem, t.top)
  {
    hide CachedMapAll, MapAll, Translate, LastEntry, Shape, PageAt, Coherent, PlainSlot, I4, AllocPages, FramesFit;
    ShapeHasArena(s.phys, s.top);
    AllocMany(s.phys, n);
    AdvanceKeepsShape(s.phys, s.top, n);
    CachedMapAllRefines(Advance(s.phys, n), s.cache, s.top, v, s.phys.head, n, flags);
  }

  /** A successful `request_pages` of at least one page, as `exec_elf` makes for each loaded
      segment, leaves the cache in the arena's slot, so the switch that follows is safe. */
  lemma RequestWarmsCache(s: Vm, n: nat, flags: nat)
    requires VmOk(s) && SmallFlags(flags) && n > 0 && RangeFits(s, n)
    requires RequestPages(s, 0, n, flags).1 != 0
    ensures var t := RequestPages(s, 0, n, flags).0; t.cache.off4 == ARENA_SLOT && Coherent(t.cache, t.phys.mem, t.top)
  {
    hide MapAllocPages, RequestPages, Translate, LastEntry, Shape, PageAt, Coherent, PlainSlot, I4;
    RequestCases(s, 0, n, flags);
    HeadIsSmall(s);
    NoWrap(s.phys.head + n * PAGE_SIZE);
    ArenaPages(s.arena, n, flags);
    MapAllocWarms(s, s.arena, n, flags);
  }

  /** The allocators go on in the new address space. */
  lemma SwitchKeepsVm(s: Vm)
    requires VmOk(s) && CanSwitch(s) && Coherent(s.cache, s.phys.mem, s.top)
    requires s.cache.tab4 == 0 || s.cache.off4 >= HALF
    ensures VmOk(SwitchSpace(s))
  {
    hide SwitchSpace, Translate, LastEntry, Shape, HugeAt, Coherent;
    SwitchLayout(s);
    SwitchKeepsShape(s);
    SwitchCoherenceExactly(s);
    var t := SwitchSpace(s);
    forall v: nat | I4(v) == ARENA_SLOT ensures !HugeAt(t.phys.mem, t.top, v)
    {
      SwitchTranslates(s, v);
    }
    forall w: nat | t.arena <= w < VM_END_REQUEST ensures Translate(t.phys.mem, t.top, w) == None
    {
      SwitchTranslates(s, w);
    }
  }

  // ---- loading the segments of a program ----

  /** `struct process_mapping` without the data it is filled from. */
  datatype Segment = Segment(begin: nat, end: nat, flags: nat)

  predicate SegmentOk(g: Segment)
  {
    g.begin <= g.end < 0x8000_0000_0000 && SmallFlags(Or(g.flags, PG_USER))
  }

  function SegmentPages(g: Segment): nat
    requires g.begin <= g.end
  {
    var size := g.end - g.begin;
    if size % 0x1000 != 0 then size / PAGE_SIZE + 1 else size / PAGE_SIZE
  }

  function LoadMapping(s: Vm, g: Segment): (Vm, nat)
    requires g.begin <= g.end
  {
    MapAllocPages(s, g.begin, SegmentPages(g), Or(g.flags, PG_USER))
  }

  lemma LowerSlot(a: nat)
    requires a < 0x8000_0000_0000
    ensures I4(a) < HALF && Trim(a) == a
  {
    DivMod(a, TWO48, 0, a);
  }

  /** The distance in pages of a byte of a segment. */
  lemma SegmentDist(b: nat, o: nat, flags: nat)
    requires b + o < 0x8000_0000_0000 && !WantsHuge(flags)
    ensures Dist(b, b + o, flags) == (b % PAGE_SIZE + o) / PAGE_SIZE
  {
    LowerSlot(b);
    LowerSlot(b + o);
    var q, r := b / PAGE_SIZE, b % PAGE_SIZE;
    var d, e := (r + o) / PAGE_SIZE, (r + o) % PAGE_SIZE;
    DivMod(b + o, PAGE_SIZE, q + d, e);
    DivMod(d, PAGE_COUNT, 0, d);
  }

  lemma SegmentPagesCover(g: Segment)
    requires SegmentOk(g)
    ensures var size := g.end - g.begin; size <= SegmentPages(g) * PAGE_SIZE < size + PAGE_SIZE
  {
    var size := g.end - g.begin;
    assert size == size / PAGE_SIZE * PAGE_SIZE + size % PAGE_SIZE;
  }

  lemma SegmentSlots(g: Segment, flags: nat)
    requires SegmentOk(g) && !WantsHuge(flags) && g.end - g.begin > 0
    ensures forall i :: 0 <= i < SegmentPages(g) ==> I4(PageAt(g.begin, i, flags)) < HALF
  {
    SegmentPagesCover(g);
    forall i | 0 <= i < SegmentPages(g) ensures I4(PageAt(g.begin, i, flags)) < HALF
    {
      assert i * PAGE_SIZE <= g.end - g.begin - 1 by {
        assert (i + 1) * PAGE_SIZE <= SegmentPages(g) * PAGE_SIZE;
      }
      LowerSlot(g.begin + i * PAGE_SIZE);
    }
  }

  /** The lower half of a new address space: no huge page is there. */
  ghost predicate UserSpace(s: Vm)
  {
    && Shape(s.phys, s.top) && CacheUsable(s)
    && forall w: nat :: I4(w) < HALF ==> !HugeAt(s.phys.mem, s.top, w)
  }

  lemma FreshUserSpace(s: Vm)
    requires VmOk(s) && CanSwitch(s) && Coherent(s.cache, s.phys.mem, s.top)
    requires s.cache.tab4 == 0 || s.cache.off4 >= HALF
    ensures var t := SwitchSpace(s);
            UserSpace(t) && forall w: nat :: I4(w) < HALF ==> Translate(t.phys.mem, t.top, w) == None
  {
    hide SwitchSpace, Translate, LastEntry, Shape, HugeAt, Coherent;
    SwitchKeepsVm(s);
    var t := SwitchSpace(s);
    forall w: nat | I4(w) < HALF
      ensures !HugeAt(t.phys.mem, t.top, w) && Translate(t.phys.mem, t.top, w) == None
    {
      SwitchTranslates(s, w);
    }
  }

  ghost predicate Loaded(s: Vm, g: Segment)
  {
    forall a: nat :: g.begin <= a < g.end ==> Translate(s.phys.mem, s.top, a) != None
  }

  /** Loading a segment keeps every translation there was; if it reports success, the pages from
      its first byte on are mapped. */
  lemma LoadMappingMaps(s: Vm, g: Segment, a: nat)
    requires UserSpace(s) && SegmentOk(g)
    ensures var (t, ret) := LoadMapping(s, g);
            && t.top == s.top && UserSpace(t) && OnlyAdds(s.phys, t.phys, s.top)
            && (ret == 0 ==> s.phys.head + SegmentPages(g) * PAGE_SIZE <= t.phys.head)
            && (ret == 0 && g.begin <= a < g.end ==>
                  Translate(t.phys.mem, t.top, a)
                  == if (g.begin % PAGE_SIZE + (a - g.begin)) / PAGE_SIZE < SegmentPages(g)
                     then Some(s.phys.head + (g.begin % PAGE_SIZE + (a - g.begin)) / PAGE_SIZE * PAGE_SIZE
                               + a % PAGE_SIZE)
                     else Translate(s.phys.mem, s.top, a))
            && (ret == 0 && g.begin <= a < g.end
                && (g.begin % PAGE_SIZE + (a - g.begin)) / PAGE_SIZE < SegmentPages(g) ==>
                  LastEntry(t.phys.mem, t.top, a) % 0x1000 == LowOf(Or(g.flags, PG_USER)))
  {
    hide Translate, LastEntry, HugeAt, Shape, MapAllocPages, OnlyTablesWritten, Extends, NoTableIn, I4;
    var flags := Or(g.flags, PG_USER);
    var n := SegmentPages(g);
    SegmentPagesCover(g);
    SegmentPlain(s, g, flags);
    HeadInReach(s.phys, s.top);
    MapAllocMaps(s, g.begin, n, flags);
    var (t, ret) := LoadMapping(s, g);
    forall w: nat | I4(w) < HALF ensures !HugeAt(t.phys.mem, t.top, w)
    {
    }
    if ret == 0 && g.begin <= a < g.end {
      assert MappedAt(s.phys, t.phys, s.top, g.begin, s.phys.head, n, flags, a);
      SegmentDist(g.begin, a - g.begin, flags);
    }
  }

  lemma HeadInReach(p: Phys, top: nat)
    requires Shape(p, top)
    ensures p.head <= TWO52
  {
  }

  lemma SegmentPlain(s: Vm, g: Segment, flags: nat)
    requires UserSpace(s) && SegmentOk(g) && !WantsHuge(flags)
    ensures PlainRange(s, g.begin, SegmentPages(g), flags)
  {
    hide HugeAt, PageAt, I4;
    if g.end > g.begin {
      SegmentSlots(g, flags);
    }
  }

  /** Exactly when a successful `load_mapping` maps every byte of a segment that was unmapped: its
      bytes must fit the pages counted from the start of its first page. */
  lemma SegmentLoadedExactly(s: Vm, g: Segment)
    requires UserSpace(s) && SegmentOk(g) && g.begin < g.end && LoadMapping(s, g).1 == 0
    requires forall a: nat :: g.begin <= a < g.end ==> Translate(s.phys.mem, s.top, a) == None
    ensures Loaded(LoadMapping(s, g).0, g)
            <==> g.begin % PAGE_SIZE + (g.end - g.begin) <= SegmentPages(g) * PAGE_SIZE
  {
    hide Translate, LastEntry, LoadMapping, UserSpace, OnlyAdds;
    var (t, ret) := LoadMapping(s, g);
    var r := g.begin % PAGE_SIZE;
    if r + (g.end - g.begin) <= SegmentPages(g) * PAGE_SIZE {
      forall a: nat | g.begin <= a < g.end ensures Translate(t.phys.mem, t.top, a) != None
      {
        LoadMappingMaps(s, g, a);
        PageBelow(r + (a - g.begin), SegmentPages(g));
      }
    } else {
      var a := g.end - 1;
      LoadMappingMaps(s, g, a);
      PagesBelow(r + (a - g.begin), SegmentPages(g));
      assert Translate(t.phys.mem, t.top, a) == None;
    }
  }

  lemma PageBelow(x: nat, n: nat)
    requires x < n * PAGE_SIZE
    ensures x / PAGE_SIZE < n
  {
    assert x == x / PAGE_SIZE * PAGE_SIZE + x % PAGE_SIZE;
  }

  /** The loop of `exec_process`; what `load_mapping` returns is ignored. */
  function LoadAll(s: Vm, segments: seq<Segment>): Vm
    requires forall g :: g in segments ==> g.begin <= g.end
    decreases |segments|
  {
    if segments == [] then s else LoadAll(LoadMapping(s, segments[0]).0, segments[1..])
  }

  predicate SegmentsOk(segments: seq<Segment>)
  {
    forall g :: g in segments ==> SegmentOk(g) && g.begin % PAGE_SIZE == 0
  }

  /** Every load reported success. */
  predicate AllSucceed(s: Vm, segments: seq<Segment>)
    requires SegmentsOk(segments)
    decreases |segments|
  {
    segments == [] ||
    var (t, ret) := LoadMapping(s, segments[0]);
    ret == 0 && AllSucceed(t, segments[1..])
  }

  lemma {:induction false} LoadAllOnlyAdds(s: Vm, segments: seq<Segment>)
    requires UserSpace(s) && SegmentsOk(segments)
    ensures var t := LoadAll(s, segments); UserSpace(t) && t.top == s.top && OnlyAdds(s.phys, t.phys, s.top)
    decreases |segments|
  {
    hide LoadMapping, UserSpace, OnlyAdds;
    if segments == [] {
      OnlyAddsRefl(s.phys, s.top);
    } else {
      LoadMappingMaps(s, segments[0], 0);
      var t := LoadMapping(s, segments[0]).0;
      LoadAllOnlyAdds(t, segments[1..]);
      OnlyAddsTrans(s.phys, t.phys, LoadAll(t, segments[1..]).phys, s.top);
    }
  }

  lemma StillTranslates(p: Phys, q: Phys, top: nat, a: nat)
    requires OnlyAdds(p, q, top) && Translate(p.mem, top, a) != None
    ensures Translate(q.mem, top, a) == Translate(p.mem, top, a)
    ensures LastEntry(q.mem, top, a) == LastEntry(p.mem, top, a)
  {
    hide Translate, LastEntry;
  }

  /** Where byte a of segment i is, in the frames set aside for that segment. */
  lemma {:induction false} SegmentByte(s: Vm, segments: seq<Segment>, i: nat, a: nat) returns (x: nat)
    requires UserSpace(s) && SegmentsOk(segments) && AllSucceed(s, segments)
    requires i < |segments| && segments[i].begin <= a < segments[i].end
    ensures Translate(LoadAll(s, segments).phys.mem, s.top, a) == Some(x) && x >= s.phys.head
    ensures LastEntry(LoadAll(s, segments).phys.mem, s.top, a) % 0x1000 == LowOf(Or(segments[i].flags, PG_USER))
    ensures i == 0 ==> x < LoadMapping(s, segments[0]).0.phys.head
    decreases |segments|
  {
    hide LoadMapping, UserSpace, OnlyAdds, Translate, LastEntry;
    var g := segments[0];
    var t := LoadMapping(s, g).0;
    LoadMappingMaps(s, g, a);
    if i == 0 {
      SegmentPagesCover(g);
      PageBelow(a - g.begin, SegmentPages(g));
      PageOfByte(g.begin, a - g.begin, SegmentPages(g));
      x := s.phys.head + (a - g.begin);
      LoadAllOnlyAdds(t, segments[1..]);
      StillTranslates(t.phys, LoadAll(t, segments[1..]).phys, s.top, a);
    } else {
      x := SegmentByte(t, segments[1..], i - 1, a);
    }
  }

  lemma PageOfByte(b: nat, o: nat, n: nat)
    requires b % PAGE_SIZE == 0 && o < n * PAGE_SIZE
    ensures o / PAGE_SIZE * PAGE_SIZE + (b + o) % PAGE_SIZE == o
  {
    DivMod(b + o, PAGE_SIZE, b / PAGE_SIZE + o / PAGE_SIZE, o % PAGE_SIZE);
  }

  /** Loading a program: when every segment loads, each of their bytes translates, and bytes of
      different segments are different bytes of memory. */
  lemma {:induction false} ProgramLoaded(s: Vm, segments: seq<Segment>, i: nat, j: nat, a: nat, b: nat)
    requires UserSpace(s) && SegmentsOk(segments) && AllSucceed(s, segments)
    requires i < j < |segments|
    requires segments[i].begin <= a < segments[i].end && segments[j].begin <= b < segments[j].end
    ensures var m := LoadAll(s, segments).phys.mem;
            && Translate(m, s.top, a) != None && Translate(m, s.top, b) != None
            && Translate(m, s.top, a) != Translate(m, s.top, b)
    decreases |segments|
  {
    hide LoadMapping, UserSpace, OnlyAdds, Translate, LastEntry;
    var x := SegmentByte(s, segments, i, a);
    var t := LoadMapping(s, segments[0]).0;
    LoadMappingMaps(s, segments[0], a);
    if i == 0 {
      var y := SegmentByte(t, segments[1..], j - 1, b);
    } else {
      ProgramLoaded(t, segments[1..], i - 1, j - 1, a, b);
    }
  }

  // ---- segments that share no page ----

  function PageEnd(g: Segment): nat
    requires g.begin <= g.end
  {
    g.begin + SegmentPages(g) * PAGE_SIZE
  }

  predicate PagesApart(g: Segment, h: Segment)
    requires g.begin <= g.end && h.begin <= h.end
  {
    PageEnd(g) <= h.begin || PageEnd(h) <= g.begin
  }

  predicate PageDisjoint(segments: seq<Segment>)
    requires SegmentsOk(segments)
  {
    forall i, j :: 0 <= i < j < |segments| ==> PagesApart(segments[i], segments[j])
  }

  ghost predicate Unmapped(s: Vm, g: Segment)
    requires g.begin <= g.end
  {
    forall a: nat :: g.begin <= a < PageEnd(g) ==> Translate(s.phys.mem, s.top, a) == None
  }

  /** No frames were left for the segment's pages, or for the tables that map them. */
  predicate OutOfFrames(s: Vm, g: Segment)
    requires g.begin <= g.end
  {
    s.phys.head + SegmentPages(g) * PAGE_SIZE > s.phys.end || Exhausted(LoadMapping(s, g).0.phys)
  }

  predicate RanOut(s: Vm, segments: seq<Segment>)
    requires forall g :: g in segments ==> g.begin <= g.end
    decreases |segments|
  {
    segments != [] && (OutOfFrames(s, segments[0]) || RanOut(LoadMapping(s, segments[0]).0, segments[1..]))
  }

  lemma SegmentInHalf(g: Segment)
    requires SegmentOk(g) && g.begin % PAGE_SIZE == 0
    ensures PageEnd(g) <= 0x8000_0000_0000
  {
    var n := SegmentPages(g);
    var b := g.begin / PAGE_SIZE;
    SegmentPagesCover(g);
    assert PageEnd(g) == (b + n) * PAGE_SIZE;
  }

  lemma SegmentPageAt(g: Segment, i: nat, flags: nat)
    requires SegmentOk(g) && g.begin % PAGE_SIZE == 0 && i < SegmentPages(g) && !WantsHuge(flags)
    ensures PageAt(g.begin, i, flags) == g.begin + i * PAGE_SIZE < PageEnd(g)
    ensures SegmentPages(g) <= Count(flags)
  {
    SegmentInHalf(g);
  }

  /** A segment over unmapped pages can only fail to load for want of frames. */
  lemma LoadFailsForFrames(s: Vm, g: Segment)
    requires UserSpace(s) && SegmentOk(g) && g.begin % PAGE_SIZE == 0 && Unmapped(s, g)
    requires LoadMapping(s, g).1 != 0
    ensures OutOfFrames(s, g)
  {
    hide Translate, LastEntry, HugeAt, Shape, MapAll, CachedMapAll, I4, PageAt, Coherent, Or;
    var flags := Or(g.flags, PG_USER);
    var n := SegmentPages(g);
    var p := s.phys;
    ShapeHasArena(p, s.top);
    AllocMany(p, n);
    if p.head + n * PAGE_SIZE <= p.end && !Exhausted(p) {
      AdvanceKeepsShape(p, s.top, n);
      SegmentPlain(s, g, flags);
      var p1 := Advance(p, n);
      CachedMapAllRefines(p1, s.cache, s.top, g.begin, p.head, n, flags);
      forall i | 0 <= i < n ensures Translate(p1.mem, s.top, PageAt(g.begin, i, flags)) == None && n <= Count(flags)
      {
        SegmentPageAt(g, i, flags);
      }
      FailsForFrames(p1, s.top, g.begin, p.head, n, flags);
    } else if Exhausted(p) {
      LoadMappingMaps(s, g, 0);
    }
  }

  /** Bytes outside a segment's pages are far from it. */
  lemma OutsideDist(g: Segment, a: nat, flags: nat)
    requires SegmentOk(g) && g.begin % PAGE_SIZE == 0 && !WantsHuge(flags)
    requires a < g.begin || PageEnd(g) <= a < 0x8000_0000_0000
    ensures Dist(g.begin, a, flags) >= SegmentPages(g)
  {
    SegmentInHalf(g);
    if a < g.begin {
      LowerSlot(g.begin);
      LowerSlot(a);
      var d := a / PAGE_SIZE - g.begin / PAGE_SIZE;
      DivMod(d, PAGE_COUNT, -1, d + PAGE_COUNT);
    } else {
      SegmentDist(g.begin, a - g.begin, flags);
      PagesBelow(a - g.begin, SegmentPages(g));
    }
  }

  lemma OthersStayUnmapped(s: Vm, g: Segment, h: Segment)
    requires UserSpace(s) && SegmentOk(g) && SegmentOk(h) && g.begin % PAGE_SIZE == 0 && h.begin % PAGE_SIZE == 0
    requires PagesApart(g, h) && Unmapped(s, h)
    ensures Unmapped(LoadMapping(s, g).0, h)
  {
    hide Translate, LastEntry, HugeAt, Shape, MapAllocPages, Coherent, OnlyAdds, FreshlyMapped, Dist, I4, Or;
    var flags := Or(g.flags, PG_USER);
    HeadInReach(s.phys, s.top);
    SegmentPagesCover(g);
    SegmentPlain(s, g, flags);
    MapAllocMaps(s, g.begin, SegmentPages(g), flags);
    SegmentInHalf(h);
    forall a: nat | h.begin <= a < PageEnd(h)
      ensures Translate(LoadMapping(s, g).0.phys.mem, s.top, a) == None
    {
      OutsideDist(g, a, flags);
    }
  }

  /** Page-disjoint segments over unmapped pages all load, unless frames run out. */
  lemma {:induction false} DisjointSegmentsLoad(s: Vm, segments: seq<Segment>)
    requires UserSpace(s) && SegmentsOk(segments) && PageDisjoint(segments)
    requires forall g :: g in segments ==> Unmapped(s, g)
    ensures AllSucceed(s, segments) || RanOut(s, segments)
    decreases |segments|
  {
    hide LoadMapping, UserSpace, Unmapped, OutOfFrames, OnlyAdds, Translate, LastEntry;
    if segments != [] {
      var g, rest := segments[0], segments[1..];
      var (t, ret) := LoadMapping(s, g);
      if ret != 0 {
        LoadFailsForFrames(s, g);
      } else {
        LoadMappingMaps(s, g, 0);
        forall h | h in rest ensures Unmapped(t, h)
        {
          OthersStayUnmapped(s, g, h);
        }
        DisjointSegmentsLoad(t, rest);
      }
    }
  }

  lemma SegmentsOrdered(segments: seq<Segment>)
    requires SegmentsOk(segments)
    ensures forall g :: g in segments ==> g.begin <= g.end
  {
  }

  lemma FreshSegments(s: Vm, segments: seq<Segment>)
    requires VmOk(s) && CanSwitch(s) && Coherent(s.cache, s.phys.mem, s.top)
    requires s.cache.tab4 == 0 || s.cache.off4 >= HALF
    requires SegmentsOk(segments)
    ensures UserSpace(SwitchSpace(s)) && forall g :: g in segments ==> Unmapped(SwitchSpace(s), g)
  {
    hide SwitchSpace, Translate, LastEntry, UserSpace, VmOk, CanSwitch, Coherent, I4;
    FreshUserSpace(s);
    var t := SwitchSpace(s);
    forall g | g in segments ensures Unmapped(t, g)
    {
      SegmentInHalf(g);
      forall a: nat | g.begin <= a < PageEnd(g) ensures Translate(t.phys.mem, t.top, a) == None
      {
        LowerSlot(a);
      }
    }
  }

  /** Starting a process: after the switch, page-aligned and page-disjoint segments are all mapped
      unless frames run out, and what the kernel had mapped in the upper half is where it was. */
  lemma NewProcess(s: Vm, segments: seq<Segment>, i: nat, a: nat, w: nat)
    requires VmOk(s) && CanSwitch(s) && Coherent(s.cache, s.phys.mem, s.top)
    requires s.cache.tab4 == 0 || s.cache.off4 >= HALF
    requires SegmentsOk(segments) && PageDisjoint(segments) && !RanOut(SwitchSpace(s), segments)
    requires i < |segments| && segments[i].begin <= a < segments[i].end
    requires I4(w) >= HALF && Translate(s.phys.mem, s.top, w) != None
    ensures var t := SwitchSpace(s);
            var m := LoadAll(t, segments).phys.mem;
            && Translate(m, t.top, a) != None
            && Translate(m, t.top, w) == Translate(s.phys.mem, s.top, w)
  {
    hide *;
    assert forall g :: g in segments ==> g.begin <= g.end by { SegmentsOrdered(segments); }
    FreshSegments(s, segments);
    var t := SwitchSpace(s);
    DisjointSegmentsLoad(t, segments);
    var x := SegmentByte(t, segments, i, a);
    SwitchTranslates(s, w);
    LoadAllOnlyAdds(t, segments);
    StillTranslates(t.phys, LoadAll(t, segments).phys, t.top, w);
  }

  // ---- when there are frames enough ----

  function TotalPages(segments: seq<Segment>): nat
    requires forall g :: g in segments ==> g.begin <= g.end
  {
    if segments == [] then 0 else SegmentPages(segments[0]) + TotalPages(segments[1..])
  }

  lemma LoadSucceeds(s: Vm, g: Segment)
    requires UserSpace(s) && SegmentOk(g) && g.begin % PAGE_SIZE == 0 && Unmapped(s, g)
    requires s.phys.head + 4 * SegmentPages(g) * PAGE_SIZE <= s.phys.end
    ensures var (t, ret) := LoadMapping(s, g);
            ret == 0 && t.phys.head <= s.phys.head + 4 * SegmentPages(g) * PAGE_SIZE && t.phys.end == s.phys.end
  {
    hide Translate, LastEntry, HugeAt, Shape, MapAllocPages, I4, PageAt, Coherent, Or, OnlyTablesWritten;
    var flags := Or(g.flags, PG_USER);
    var n := SegmentPages(g);
    SegmentPlain(s, g, flags);
    LoadMappingMaps(s, g, 0);
    if n > 0 {
      SegmentPageAt(g, 0, flags);
    }
    forall i | 0 <= i < n ensures Translate(s.phys.mem, s.top, PageAt(g.begin, i, flags)) == None
    {
      SegmentPageAt(g, i, flags);
    }
    MapAllocSucceeds(s, g.begin, n, flags);
  }

  /** With room for four frames a page, page-disjoint segments over unmapped pages all load. */
  lemma {:induction false} EnoughFramesLoad(s: Vm, segments: seq<Segment>)
    requires UserSpace(s) && SegmentsOk(segments) && PageDisjoint(segments)
    requires forall g :: g in segments ==> Unmapped(s, g)
    requires s.phys.head + 4 * TotalPages(segments) * PAGE_SIZE <= s.phys.end
    ensures AllSucceed(s, segments)
    decreases |segments|
  {
    hide LoadMapping, UserSpace, Unmapped, OnlyAdds, Translate, LastEntry, SegmentPages;
    if segments != [] {
      var g, rest := segments[0], segments[1..];
      LoadSucceeds(s, g);
      var t := LoadMapping(s, g).0;
      LoadMappingMaps(s, g, 0);
      forall h | h in rest ensures Unmapped(t, h)
      {
        OthersStayUnmapped(s, g, h);
      }
      EnoughFramesLoad(t, rest);
    }
  }
}
