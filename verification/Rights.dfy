/** What accesses the page tables permit. Intel SDM Vol. 3A, section 4.6: bit 1 of an entry permits writing,
    bit 2 user accesses, and an access needs its bit in every entry of the walk. */
module Rights {
  import opened Bits
  import opened Paging
  import opened Wrappers
  import opened PageTree
  import opened MapPages
  import opened MapRange
  import opened WalkCache
  import opened Arena
  import opened AddressSpace
  import opened Heap

  /** Bit 1 is 2, bit 2 is 4. */
  predicate Has(e: nat, b: nat) requires b > 0 { e / b % 2 == 1 }

  /** The walk for v ends in a page, and each of its entries has the bit. */
  predicate Permits(m: Memory, top: nat, v: nat, b: nat)
    requires b > 0
  {
    WalkEntries(m, top, v) != [] && forall e :: e in WalkEntries(m, top, v) ==> Has(e, b)
  }

  lemma LowHas(x: nat, b: nat)
    requires b == 2 || b == 4
    ensures Has(x, b) == Has(x % 0x1000, b)
  {
    var q, r := x / 0x1000, x % 0x1000;
    DivMod(x, b, q * (0x1000 / b) + r / b, r % b);
    DivMod(q * (0x1000 / b) + r / b, 2, q * (0x800 / b) + r / b / 2, r / b % 2);
  }

  lemma OddHas(low: nat, b: nat)
    requires (b == 2 || b == 4) && low % 2 == 0
    ensures Has(low + 1, b) == Has(low, b)
  {
    DivMod(low + 1, b, low / b, low % b + 1);
  }

  lemma LowOfHas(flags: nat, b: nat)
    requires b == 2 || b == 4
    ensures Has(LowOf(flags), b) == Has(flags, b)
  {
    hide Has;
    var low := flags % 0x1000;
    LowHas(flags, b);
    var odd := low + (if low % 2 == 0 then 1 else 0);
    if low % 2 == 0 {
      OddHas(low, b);
    }
    if flags / 0x1000 % 2 == 1 {
      SizeHas(odd, b);
    }
  }

  lemma SizeHas(x: nat, b: nat)
    requires b == 2 || b == 4
    ensures Has(x + 0x80, b) == Has(x, b)
  {
    DivMod(x + 0x80, b, x / b + 0x80 / b, x % b);
    DivMod(x / b + 0x80 / b, 2, x / b / 2 + 0x40 / b, x / b % 2);
  }

  lemma EntryHas(paddr: Word, flags: nat, b: nat)
    requires (b == 2 || b == 4) && paddr % PAGE_SIZE == 0
    ensures Has(EntryOf(paddr, flags), b) == Has(flags, b)
  {
    hide Has, EntryOf;
    var low := flags % 0x1000;
    var odd := low + (if low % 2 == 0 then 1 else 0);
    EntryExactly(paddr, flags);
    DivMod(paddr + odd, 0x1000, paddr / 0x1000, odd);
    LowHas(EntryOf(paddr, flags), b);
    LowHas(flags, b);
    if low % 2 == 0 {
      OddHas(low, b);
    }
  }

  lemma HugeHas(paddr: Word, flags: nat, b: nat)
    requires (b == 2 || b == 4) && paddr % PAGE_SIZE == 0 && HugeFlags(flags)
    ensures Has(EntryOf(paddr, Or(flags, PG_SIZE)), b) == Has(flags, b)
  {
    hide Has, EntryOf, Or;
    OrBit7(flags);
    LowSize(flags);
    assert Or(flags, PG_SIZE) == flags + 0x80;
    EntryHas(paddr, flags + 0x80, b);
    SizeHas(flags, b);
  }

  // ---- trees all of whose entries have a bit ----

  /** Entry o of the table at `path`, if it is present; with `low` only in the lower half. */
  predicate BitEntry(m: Memory, top: nat, b: nat, low: bool, path: Path, o: nat)
    requires b > 0
  {
    ValidPath(path) && o < PTABLE_LEN && Reach(m, top, path) != 0 && (low ==> FirstSlot(Sub(path, o)) < HALF)
    && Present(Load(m, Slot(Reach(m, top, path), o)))
    ==> Has(Load(m, Slot(Reach(m, top, path), o)), b)
  }

  ghost predicate BitTree(m: Memory, top: nat, b: nat, low: bool)
    requires b > 0
  {
    forall path, o: nat :: BitEntry(m, top, b, low, path, o)
  }

  lemma LinkKeepsBits(p: Phys, top: nat, path: Path, o: nat, flags: nat, b: nat, low: bool)
    requires Shape(p, top) && ValidPath(Sub(path, o)) && (b == 2 || b == 4) && Has(flags, b)
    requires Reach(p.mem, top, path) != 0 && Child(p.mem, Reach(p.mem, top, path), o) == 0
    requires p.head + PAGE_SIZE <= p.end && !SizeBit(LowFlags(flags)) && BitTree(p.mem, top, b, low)
    ensures BitTree(WithTable(p, Reach(p.mem, top, path), o, flags).mem, top, b, low)
  {
    hide Has, EntryOf, Present, FirstSlot, GoodEntries;
    var t := Reach(p.mem, top, path);
    var q := WithTable(p, t, o, flags);
    EntryHas(p.head, flags, b);
    forall other, k: nat ensures BitEntry(q.mem, top, b, low, other, k)
    {
      if ValidPath(other) && k < PTABLE_LEN && Reach(q.mem, top, other) != 0 {
        ReachAfterLink(p, top, path, o, flags, other);
        var u := Reach(q.mem, top, other);
        LoadAfterStore(p.mem, t, o, EntryOf(p.head, flags), u, k);
        if other == Sub(path, o) {
          FreshFrameIsZero(p, k);
          NothingPresent();
        } else {
          assert BitEntry(p.mem, top, b, low, other, k);
        }
      }
    }
  }

  lemma NothingPresent()
    ensures !Present(0)
  {
  }

  lemma EntryKeepsBits(p: Phys, top: nat, path: Path, o: nat, e: Word, b: nat, low: bool)
    requires Shape(p, top) && ValidPath(path) && o < PTABLE_LEN && b > 0 && Has(e, b)
    requires Reach(p.mem, top, path) != 0 && Child(p.mem, Reach(p.mem, top, path), o) == 0
    requires (Depth(path) == 3 || !ValidTable(e)) && BitTree(p.mem, top, b, low)
    ensures BitTree(WithEntry(p, Reach(p.mem, top, path), o, e).mem, top, b, low)
  {
    hide Has, Present, FirstSlot, GoodEntries;
    var t := Reach(p.mem, top, path);
    var q := WithEntry(p, t, o, e);
    forall other, k: nat ensures BitEntry(q.mem, top, b, low, other, k)
    {
      if ValidPath(other) && k < PTABLE_LEN && Reach(q.mem, top, other) != 0 {
        ReachAfterEntry(p, top, path, o, e, other);
        LoadAfterStore(p.mem, t, o, e, Reach(q.mem, top, other), k);
        assert BitEntry(p.mem, top, b, low, other, k);
      }
    }
  }

  lemma DescendKeepsBits(p: Phys, top: nat, path: Path, o: nat, flags: nat, b: nat, low: bool)
    requires Shape(p, top) && ValidPath(Sub(path, o)) && Reach(p.mem, top, path) != 0
    requires !SizeBit(LowFlags(flags)) && (b == 2 || b == 4) && Has(flags, b) && BitTree(p.mem, top, b, low)
    ensures BitTree(Descend(p, Reach(p.mem, top, path), o, flags).0.mem, top, b, low)
  {
    hide Descend, BitTree, Has, EntryOf;
    DescendResult(p, top, path, o, flags);
    if Reach(p.mem, top, Sub(path, o)) == 0 && p.head + PAGE_SIZE <= p.end {
      LinkKeepsBits(p, top, path, o, flags, b, low);
    }
  }

  lemma LeafKeepsBits(p: Phys, top: nat, v: nat, paddr: Word, flags: nat, b: nat, low: bool)
    requires Shape(p, top) && Reach(p.mem, top, Path3(v)) != 0 && paddr % PAGE_SIZE == 0
    requires (b == 2 || b == 4) && Has(flags, b) && BitTree(p.mem, top, b, low)
    ensures BitTree(Place(p, Reach(p.mem, top, Path3(v)), I1(v), paddr, flags).0.mem, top, b, low)
  {
    hide BitTree, Has, EntryOf;
    PathsAreValid(v);
    EntryHas(paddr, flags, b);
    if !Present(E1(p.mem, top, v)) {
      EntryKeepsBits(p, top, Path3(v), I1(v), EntryOf(paddr, flags), b, low);
    }
  }

  lemma MapPageKeepsBits(p: Phys, top: nat, v: nat, paddr: Word, flags: nat, b: nat, low: bool)
    requires Shape(p, top) && SmallFlags(flags) && paddr % PAGE_SIZE == 0
    requires (b == 2 || b == 4) && Has(flags, b) && BitTree(p.mem, top, b, low)
    ensures BitTree(MapPage(p, top, v, paddr, flags).0.mem, top, b, low)
  {
    hide Descend, BitTree, Has, EntryOf, TablesInArena, ReferencedOnce, GoodEntries, ArenaOk, Place, I1, I2, I3, I4;
    PathsAreValid(v);
    DescendKeepsBits(p, top, Root, I4(v), flags, b, low);
    DescendSteps(p, top, Root, I4(v), flags);
    var (p1, t1) := Descend(p, top, I4(v), flags);
    if t1.Some? {
      DescendKeepsBits(p1, top, Path1(v), I3(v), flags, b, low);
      var p2, t2 := WalkDownSteps(p1, top, v, flags);
      if t2.Some? {
        DescendKeepsBits(p2, top, Path2(v), I2(v), flags, b, low);
        var (p3, t3) := WalkDown(p1, t1.value, v, flags);
        if t3.Some? {
          LeafKeepsBits(p3, top, v, paddr, flags, b, low);
        }
      }
    }
  }

  lemma MapHugeKeepsBits(p: Phys, top: nat, v: nat, paddr: Word, flags: nat, b: nat, low: bool)
    requires Shape(p, top) && HugeFlags(flags)
    requires paddr % PDPTE_COVERAGE == 0 && paddr + PDPTE_COVERAGE <= TWO52
    requires (b == 2 || b == 4) && Has(flags, b) && BitTree(p.mem, top, b, low)
    ensures BitTree(MapPage(p, top, v, paddr, flags).0.mem, top, b, low)
  {
    hide Descend, BitTree, Has, EntryOf, TablesInArena, ReferencedOnce, GoodEntries, ArenaOk, Or, I1, I2, I3, I4;
    PathsAreValid(v);
    DescendKeepsBits(p, top, Root, I4(v), flags, b, low);
    DescendSteps(p, top, Root, I4(v), flags);
    var (p1, t1) := Descend(p, top, I4(v), flags);
    AlignedHuge(paddr);
    HugeEntry(paddr, flags);
    HugeHas(paddr, flags, b);
    if t1.Some? && !Present(E3(p1.mem, top, v)) {
      EntryKeepsBits(p1, top, Path1(v), I3(v), EntryOf(paddr, Or(flags, PG_SIZE)), b, low);
    }
  }

  /** Mapping with the bit keeps it in every entry: also in those of the tables linked on the way. */
  lemma {:induction false} MapAllKeepsBits(p: Phys, top: nat, v: nat, paddr: nat, n: nat, flags: nat, b: nat, low: bool)
    requires Shape(p, top) && CanMapAll(p.mem, top, v, paddr, n, flags)
    requires (b == 2 || b == 4) && Has(flags, b) && BitTree(p.mem, top, b, low)
    ensures BitTree(MapAll(p, top, v, paddr, n, flags).0.mem, top, b, low)
  {
    hide MapPage, BitTree, Has, Shape, PageAt, Translate, LastEntry;
    if n > 0 {
      CanMapFewer(p.mem, top, v, paddr, n, flags);
      MapAllKeepsBits(p, top, v, paddr, n - 1, flags, b, low);
      MapAllTranslates(p, top, v, paddr, n - 1, flags);
      var (q, ret) := MapAll(p, top, v, paddr, n - 1, flags);
      if ret == 0 {
        PhysicalPage(paddr, n, n - 1, flags);
        CanMapNext(p, q, top, v, paddr, n, flags);
        var vi, pi := PageAt(v, n - 1, flags), PageAt(paddr, n - 1, flags);
        if WantsHuge(flags) {
          MapHugeKeepsBits(q, top, vi, pi, flags, b, low);
        } else {
          MapPageKeepsBits(q, top, vi, pi, flags, b, low);
        }
      }
    }
  }

  /** Every entry of a walk in such a tree has the bit. */
  lemma WalkHasBits(p: Phys, top: nat, v: nat, b: nat, low: bool)
    requires Shape(p, top) && b > 0 && BitTree(p.mem, top, b, low) && (low ==> I4(v) < HALF)
    requires Translate(p.mem, top, v) != None
    ensures Permits(p.mem, top, v, b) && (!HugeAt(p.mem, top, v) ==> |WalkEntries(p.mem, top, v)| == 4)
  {
    hide Has, Frame4K, PageBase, SizeBit, I1, I2, I3, I4, GoodEntries, ReferencedOnce, TablesInArena;
    PathsAreValid(v);
    FirstSlotOf(v);
    WalksAgree(p.mem, top, v);
    assert Reach(p.mem, top, Root) == top;
    TableBelow(p, top, Root, I4(v));
    assert BitEntry(p.mem, top, b, low, Root, I4(v));
    if Reach(p.mem, top, Path1(v)) != 0 {
      TableBelow(p, top, Path1(v), I3(v));
      assert BitEntry(p.mem, top, b, low, Path1(v), I3(v));
      if Reach(p.mem, top, Path2(v)) != 0 {
        TableBelow(p, top, Path2(v), I2(v));
        assert BitEntry(p.mem, top, b, low, Path2(v), I2(v));
        if Reach(p.mem, top, Path3(v)) != 0 {
          LeafSlot(v);
          assert BitEntry(p.mem, top, b, low, Path3(v), I1(v));
        }
      }
    }
  }

  lemma LeafSlot(v: nat)
    ensures FirstSlot(Sub(Path3(v), I1(v))) == I4(v)
  {
  }

  // ---- user programs ----

  /** After the switch no table of the lower half is left. */
  lemma SwitchStartsUser(s: Vm, b: nat)
    requires CanSwitch(s) && b > 0
    ensures var t := SwitchSpace(s); BitTree(t.phys.mem, t.top, b, true)
  {
    hide SwitchSpace, Has, Shape;
    SwitchLayout(s);
    var t := SwitchSpace(s);
    forall path, o: nat ensures BitEntry(t.phys.mem, t.top, b, true, path, o)
    {
      if ValidPath(path) && o < PTABLE_LEN {
        SwitchedReach(s, path);
        if path == Root {
          SwitchedWord(s, s.phys.head, o);
        }
      }
    }
  }

  lemma UserFlag(flags: nat)
    ensures Has(Or(flags, PG_USER), 4) && Has(Or(flags, PG_USER), 2) == Has(flags, 2)
  {
    assert Pow2(2) == 4;
    OrOfBit(flags, 2);
    BitTwo(flags);
    hide Or;
    if !Has(flags, 4) {
      DivMod(flags + 4, 4, flags / 4 + 1, flags % 4);
      DivMod(flags / 4 + 1, 2, flags / 4 / 2, 1);
      DivMod(flags + 4, 2, flags / 2 + 2, flags % 2);
      DivMod(flags / 2 + 2, 2, flags / 2 / 2 + 1, flags / 2 % 2);
    }
  }

  lemma BitTwo(x: nat)
    ensures Bit(x, 2) == (x / 4 % 2 == 1)
  {
    assert Bit(x, 2) == Bit(x / 2, 1) == Bit(x / 2 / 2, 0);
    assert x / 2 / 2 == x / 4;
  }

  lemma MapAllocKeepsBits(s: Vm, v: nat, n: nat, flags: nat, b: nat, low: bool)
    requires Shape(s.phys, s.top) && CacheUsable(s) && SmallFlags(flags) && PlainRange(s, v, n, flags)
    requires FramesFit(s.phys, n) && (b == 2 || b == 4) && Has(flags, b) && BitTree(s.phys.mem, s.top, b, low)
    ensures BitTree(MapAllocPages(s, v, n, flags).0.phys.mem, s.top, b, low)
  {
    hide MapAll, CachedMapAll, BitTree, Has, Shape, Coherent, PlainSlot, PageAt, AllocPages, FramesFit;
    var p := s.phys;
    ShapeHasArena(p, s.top);
    AllocMany(p, n);
    if p.head + n * PAGE_SIZE <= p.end {
      AdvanceKeepsShape(p, s.top, n);
      MapAllKeepsBits(Advance(p, n), s.top, v, p.head, n, flags, b, low);
      if n > 0 {
        CachedMapAllRefines(Advance(p, n), s.cache, s.top, v, p.head, n, flags);
      } else {
        NoPages(Advance(p, n), s.cache, s.top, v, p.head, flags);
      }
    }
  }

  /** Loading keeps the user bit in all entries of the lower half. */
  lemma {:induction false} LoadAllIsUser(s: Vm, segments: seq<Segment>)
    requires UserSpace(s) && SegmentsOk(segments) && BitTree(s.phys.mem, s.top, 4, true)
    ensures BitTree(LoadAll(s, segments).phys.mem, s.top, 4, true)
    decreases |segments|
  {
    hide UserSpace, BitTree, OnlyAdds, MapAllocPages;
    if segments != [] {
      var g := segments[0];
      LoadMappingMaps(s, g, 0);
      LoadIsUser(s, g);
      LoadAllIsUser(LoadMapping(s, g).0, segments[1..]);
    }
  }

  lemma LoadIsUser(s: Vm, g: Segment)
    requires UserSpace(s) && SegmentOk(g) && BitTree(s.phys.mem, s.top, 4, true)
    ensures BitTree(LoadMapping(s, g).0.phys.mem, s.top, 4, true)
  {
    hide BitTree, Has, Or, MapAllocPages, Shape, CacheUsable, HugeAt, I4;
    var flags := Or(g.flags, PG_USER);
    UserFlag(g.flags);
    SegmentPlain(s, g, flags);
    SegmentPagesCover(g);
    HeadInReach(s.phys, s.top);
    NoWrap(s.phys.head + SegmentPages(g) * PAGE_SIZE);
    MapAllocKeepsBits(s, g.begin, SegmentPages(g), flags, 4, true);
  }

  /** The rights of a new process: every byte of every loaded segment permits user accesses at all four
      levels, and its page is writable in its last entry just when the segment is. */
  lemma ProcessRights(s: Vm, segments: seq<Segment>, i: nat, a: nat)
    requires VmOk(s) && CanSwitch(s) && Coherent(s.cache, s.phys.mem, s.top)
    requires s.cache.tab4 == 0 || s.cache.off4 >= HALF
    requires SegmentsOk(segments) && PageDisjoint(segments) && !RanOut(SwitchSpace(s), segments)
    requires i < |segments| && segments[i].begin <= a < segments[i].end
    ensures var t := SwitchSpace(s);
            var m := LoadAll(t, segments).phys.mem;
            && Permits(m, t.top, a, 4) && |WalkEntries(m, t.top, a)| == 4
            && (Has(LastEntry(m, t.top, a), 2) <==> Has(segments[i].flags, 2))
  {
    hide SwitchSpace, VmOk, CanSwitch, Coherent, UserSpace, Unmapped, RanOut, BitTree, Permits, Has, LoadMapping, Or,
         Translate, LastEntry, LowOf, OnlyAdds, SegmentOk;
    assert forall g :: g in segments ==> g.begin <= g.end by { SegmentsOrdered(segments); }
    FreshSegments(s, segments);
    var t := SwitchSpace(s);
    DisjointSegmentsLoad(t, segments);
    var x := SegmentByte(t, segments, i, a);
    SwitchStartsUser(s, 4);
    LoadAllIsUser(t, segments);
    LoadAllOnlyAdds(t, segments);
    var u := LoadAll(t, segments);
    SegmentIsLow(segments, i, a);
    UserIsSmall(u, a);
    WalkHasBits(u.phys, t.top, a, 4, true);
    UserFlag(segments[i].flags);
    LowHas(LastEntry(u.phys.mem, t.top, a), 2);
    LowOfHas(Or(segments[i].flags, PG_USER), 2);
  }

  lemma SegmentIsLow(segments: seq<Segment>, i: nat, a: nat)
    requires SegmentsOk(segments) && i < |segments| && segments[i].begin <= a < segments[i].end
    ensures I4(a) < HALF
  {
    assert segments[i] in segments;
    LowerSlot(a);
  }

  lemma UserIsSmall(s: Vm, a: nat)
    requires UserSpace(s) && I4(a) < HALF
    ensures Shape(s.phys, s.top) && !HugeAt(s.phys.mem, s.top, a)
  {
  }

  // ---- the kernel ----

  /** Every entry of the boot tree permits writing. */
  lemma BootIsWritable(s: Vm, k: Image)
    requires AtBoot(s) && ImageOk(k) && SetupVm(s, k).1
    ensures var t := SetupVm(s, k).0; BitTree(t.phys.mem, t.top, 2, false)
  {
    hide MapPagesC, BitTree, Has, TablesInArena, ReferencedOnce, GoodEntries, Translate, LastEntry, HugeAt;
    AllocOne(s.phys);
    FreshTop(s.phys);
    FreshBits(s.phys, 2);
    var s1 := s.(phys := Advance(s.phys, 1), top := s.phys.head);
    WriteFlags();
    BothKeepBits(s1, k);
    var (s2, ret2) := MapPagesC(s1, KERNEL_TEXT, k.phys, k.size / PAGE_SIZE, PG_WRITE);
    MapKeepsFields(s1, KERNEL_TEXT, k.phys, k.size / PAGE_SIZE, PG_WRITE);
    MapKeepsFields(s2, HHDM_BEGIN, 0, HHDM_PAGES, HUGE_WRITE);
  }

  lemma WriteFlags()
    ensures Has(PG_WRITE, 2) && Has(HUGE_WRITE, 2)
  {
  }

  lemma FreshBits(p: Phys, b: nat)
    requires ArenaOk(p) && p.head + PAGE_SIZE <= p.end && b > 0
    ensures BitTree(p.mem, p.head, b, false)
  {
    hide Has;
    forall path, o: nat ensures BitEntry(p.mem, p.head, b, false, path, o)
    {
      if ValidPath(path) && o < PTABLE_LEN {
        FreshReach(p, path);
        FreshFrameIsZero(p, o);
      }
    }
  }

  lemma BothKeepBits(s1: Vm, k: Image)
    requires Shape(s1.phys, s1.top) && s1.cache == COLD && ImageOk(k) && BitTree(s1.phys.mem, s1.top, 2, false)
    requires forall w :: Translate(s1.phys.mem, s1.top, w) == None && !HugeAt(s1.phys.mem, s1.top, w)
    ensures var (s2, ret2) := MapPagesC(s1, KERNEL_TEXT, k.phys, k.size / PAGE_SIZE, PG_WRITE);
            var (s3, ret3) := MapPagesC(s2, HHDM_BEGIN, 0, HHDM_PAGES, HUGE_WRITE);
            ret2 == 0 ==> BitTree(s3.phys.mem, s1.top, 2, false)
  {
    hide MapAll, CachedMapAll, Translate, LastEntry, Shape, HugeAt, MappedK, Coherent, BitTree, Has;
    var n := k.size / PAGE_SIZE;
    assert n * PAGE_SIZE == k.size;
    WriteFlags();
    ColdIsCoherent(s1);
    var (s2, ret2) := MapPagesC(s1, KERNEL_TEXT, k.phys, n, PG_WRITE);
    CachedMapAllRefines(s1.phys, COLD, s1.top, KERNEL_TEXT, k.phys, n, PG_WRITE);
    MapAllTranslates(s1.phys, s1.top, KERNEL_TEXT, k.phys, n, PG_WRITE);
    MapAllKeepsBits(s1.phys, s1.top, KERNEL_TEXT, k.phys, n, PG_WRITE, 2, false);
    if ret2 == 0 {
      MappedIsShaped(s1.phys, s2.phys, s1.top, KERNEL_TEXT, k.phys, n, PG_WRITE);
      CachedMapAllRefines(s2.phys, s2.cache, s1.top, HHDM_BEGIN, 0, HHDM_PAGES, HUGE_WRITE);
      MapAllKeepsBits(s2.phys, s1.top, HHDM_BEGIN, 0, HHDM_PAGES, HUGE_WRITE, 2, false);
    }
  }

  predicate AsksWrite(call: Call)
  {
    match call
    case Bytes(_) => true
    case Pages(_, flags) => Has(flags, 2)
    case Device(_, _, flags) => Has(flags, 2)
    case Poke(_, _) => true
  }

  lemma RequestKeepsBits(s: Vm, paddr: nat, n: nat, flags: nat)
    requires VmOk(s) && SmallFlags(flags) && RangeFits(s, n) && Has(flags, 2) && BitTree(s.phys.mem, s.top, 2, false)
    requires paddr != 0 ==> !Exhausted(s.phys) && paddr % PAGE_SIZE == 0 && paddr + n * PAGE_SIZE <= TWO52
    ensures BitTree(RequestPages(s, paddr, n, flags).0.phys.mem, s.top, 2, false)
  {
    hide BitTree, Has, RequestPages, MapAllocPages, CachedMapAll, MapAll, Shape, Coherent, PlainSlot, PageAt, I4,
         Translate;
    RequestCases(s, paddr, n, flags);
    if s.arena + n * PAGE_SIZE <= VM_END_REQUEST {
      ArenaPages(s.arena, n, flags);
      HeadIsSmall(s);
      if paddr == 0 {
        NoWrap(s.phys.head + n * PAGE_SIZE);
        MapAllocKeepsBits(s, s.arena, n, flags, 2, false);
      } else {
        CacheIsCoherent(s);
        MapAllKeepsBits(s.phys, s.top, s.arena, paddr, n, flags, 2, false);
        CachedMapAllRefines(s.phys, s.cache, s.top, s.arena, paddr, n, flags);
      }
    }
  }

  lemma CallKeepsBits(s: Vm, call: Call, chunks: seq<Chunk>, blocks: seq<Block>, cur: nat)
    requires HeapOk(s, chunks, blocks, cur) && Allowed(s, blocks, call) && AsksWrite(call)
    requires BitTree(s.phys.mem, s.top, 2, false)
    ensures var t := Do(s, call).0; t.top == s.top && BitTree(t.phys.mem, t.top, 2, false)
  {
    hide BitTree, Has, RequestPages, HeapOk, VmOk, Translate, Store, OnlyAdds;
    HeapHasVm(s, chunks, blocks, cur);
    WriteFlags();
    match call
    case Bytes(size) =>
      if !Hit(s, size) {
        RequestKeepsBits(s, 0, size / PAGE_SIZE + 1, PG_WRITE);
        RequestOk(s, size / PAGE_SIZE + 1, PG_WRITE);
      }
    case Pages(n, flags) =>
      RequestKeepsBits(s, 0, n, flags);
      RequestOk(s, n, flags);
    case Device(paddr, n, flags) =>
      RequestKeepsBits(s, paddr, n, flags);
      CacheIsCoherent(s);
      RequestDeviceOk(s, paddr, n, flags);
    case Poke(addr, word) =>
      var i :| 0 <= i < |blocks| && WordInBlock(blocks[i], addr);
      var x := BlockWord(s, chunks, blocks, cur, i, addr);
      DataKeepsBits(s.phys, s.top, x, word);
  }

  lemma DataKeepsBits(p: Phys, top: nat, a: nat, w: Word)
    requires Shape(p, top) && a % 8 == 0 && a < p.head && !InTable(p.mem, top, a) && BitTree(p.mem, top, 2, false)
    ensures BitTree(Store(p.mem, a, w), top, 2, false)
  {
    hide Has, Load, Store, Present;
    DataStoreKeepsShape(p, top, a, w);
    forall path, o: nat ensures BitEntry(Store(p.mem, a, w), top, 2, false, path, o)
    {
      assert BitEntry(p.mem, top, 2, false, path, o);
      if ValidPath(path) && o < PTABLE_LEN && Reach(p.mem, top, path) != 0 {
        TableWordKept(p, top, a, w, path, o);
      }
    }
  }

  /** While all requests ask for it, every entry permits writing. */
  lemma {:induction false} RunKeepsBits(s: Vm, given: seq<(Word, nat, nat)>, calls: seq<Call>,
                                        chunks: seq<Chunk>, blocks: seq<Block>, cur: nat)
    requires HeapOk(s, chunks, blocks, cur) && Describes(blocks, given) && RunAllowed(s, given, calls)
    requires BitTree(s.phys.mem, s.top, 2, false) && forall c :: c in calls ==> AsksWrite(c)
    ensures var t := AfterCalls(s, calls).0; BitTree(t.phys.mem, t.top, 2, false)
    decreases |calls|
  {
    hide HeapOk, Do, Allowed, BitTree;
    if calls != [] {
      AllowedOfCall(s, given, blocks, calls[0]);
      HandedDescribes(s, calls[0], chunks, cur);
      CallKeepsBits(s, calls[0], chunks, blocks, cur);
      var chunks1, cur1 := CallStep(s, calls[0], chunks, blocks, cur);
      var (t, addr) := Do(s, calls[0]);
      RunKeepsBits(t, given + Result(calls[0], addr), calls[1..], chunks1,
                   blocks + Handed(s, calls[0], chunks, cur), cur1);
    }
  }

  /** From boot on, over every run whose requests ask for it, each byte of each range handed out permits
      writing at all levels; a block of `kmalloc` is mapped present and writable, and with nothing else. */
  lemma HeapIsWritable(s: Vm, k: Image, calls: seq<Call>, i: nat, a: nat)
    requires AtBoot(s) && ImageOk(k) && SetupVm(s, k).1
    requires var t := SetupVm(s, k).0; RunAllowed(t, [], calls) && InRange(AfterCalls(t, calls).1, i, a)
    requires forall c :: c in calls ==> AsksWrite(c)
    ensures var (t, given) := AfterCalls(SetupVm(s, k).0, calls);
            Permits(t.phys.mem, t.top, a, 2) && LastEntry(t.phys.mem, t.top, a) % 0x1000 == given[i].2
  {
    hide *;
    SetupVmMaps(s, k);
    BootIsWritable(s, k);
    var boot := SetupVm(s, k).0;
    HeapStarts(boot);
    NothingGiven();
    RunKeepsBits(boot, [], calls, [], [], 0);
    AllocatorsAreSafe(boot, calls, i, i, a, a);
    var (t, given) := AfterCalls(boot, calls);
    SafeByte(t, given, i, i, a, a);
    WalkHasBits(t.phys, t.top, a, 2, false);
  }

  lemma SafeByte(t: Vm, given: seq<(Word, nat, nat)>, i: nat, j: nat, a: nat, b: nat)
    requires VmOk(t) && SafeBytes(t, given, i, j, a, b)
    ensures Shape(t.phys, t.top) && Translate(t.phys.mem, t.top, a) != None
    ensures i < |given| && LastEntry(t.phys.mem, t.top, a) % 0x1000 == given[i].2
  {
    hide Translate, LastEntry;
  }
}
