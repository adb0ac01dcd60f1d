/** `mapalloc_pages`, the virtual arena of `request_pages` and the byte allocator `kmalloc`. */
module Arena {
  import opened Bits
  import opened Paging
  import opened Wrappers
  import opened PageTree
  import opened MapPages
  import opened MapRange
  import opened WalkCache

  const VM_BEGIN_REQUEST: Word := 0xFFFF_FFFF_0000_0000
  const VM_END_REQUEST: Word := 0xFFFF_FFFF_6000_0000
  const ARENA_SLOT: nat := 511

  /** The globals of the virtual-memory manager. */
  datatype Vm = Vm(phys: Phys, cache: Cache, top: Word, cr3: Word, arena: Word,
                   base: Word, offset: Word, size: Word)

  function MapPagesC(s: Vm, v: nat, paddr: nat, n: nat, flags: nat): (Vm, nat)
  {
    var (q, d, ret) := CachedMapAll(s.phys, s.cache, s.top, v, paddr, n, flags);
    (s.(phys := q, cache := d), ret)
  }

  function MapAllocPages(s: Vm, v: nat, n: nat, flags: nat): (Vm, nat)
  {
    var (p, frames) := AllocPages(s.phys, if WantsHuge(flags) then U64(n * PTABLE_LEN * PTABLE_LEN) else n);
    if frames == 0 then (s.(phys := p), 1) else MapPagesC(s.(phys := p), v, frames, n, flags)
  }

  function RequestPages(s: Vm, paddr: nat, n: nat, flags: nat): (Vm, Word)
  {
    var newHead := U64(s.arena + U64(Span(flags) * n));
    if newHead > VM_END_REQUEST then (s, 0) else
    var (t, ret) := if paddr == 0 then MapAllocPages(s, s.arena, n, flags)
                    else MapPagesC(s, s.arena, paddr, n, flags);
    (t.(arena := newHead), if ret != 0 then 0 else s.arena)
  }

  function Kmalloc(s: Vm, size: Word): (Vm, Word)
  {
    if U64(s.offset + size) < s.size then (s.(offset := U64(s.offset + size)), U64(s.base + s.offset)) else
    var (t, addr) := RequestPages(s, 0, size / PAGE_SIZE + 1, PG_WRITE);
    if addr == 0 then (t, 0)
    else (t.(base := addr, offset := size, size := U64((size / PAGE_SIZE + 1) * PAGE_SIZE)), addr)
  }

  // ---- mapalloc_pages ----

  ghost predicate CacheUsable(s: Vm) { Coherent(s.cache, s.phys.mem, s.top) || Exhausted(s.phys) }

  /** Frames [f, f + 4096 n) hold no page table. */
  ghost predicate NoTableIn(m: Memory, top: nat, f: nat, n: nat)
  {
    forall path :: ValidPath(path) && Reach(m, top, path) != 0 ==>
      Reach(m, top, path) + PAGE_SIZE <= f || f + n * PAGE_SIZE <= Reach(m, top, path)
  }

  ghost predicate PlainRange(s: Vm, v: nat, n: nat, flags: nat)
  {
    forall i :: 0 <= i < n ==> PlainSlot(s.phys.mem, s.top, I4(PageAt(v, i, flags)))
  }

  /** p after n frames were set aside. */
  function Advance(p: Phys, n: nat): Phys
    requires p.head + n * PAGE_SIZE < TWO64
  {
    p.(head := p.head + n * PAGE_SIZE)
  }

  lemma AdvanceKeepsShape(p: Phys, top: nat, n: nat)
    requires Shape(p, top) && p.head + n * PAGE_SIZE <= p.end
    ensures Shape(Advance(p, n), top)
  {
    DivMod(p.head + n * PAGE_SIZE, PAGE_SIZE, p.head / PAGE_SIZE + n, 0);
  }

  /** The guard of `alloc_pages` is right about n frames: they fit, or the end it computes, modulo
      2^64, is beyond the arena. */
  predicate FramesFit(p: Phys, n: nat)
  {
    p.head + n * PAGE_SIZE <= p.end || (p.head + n * PAGE_SIZE) % TWO64 > p.end
  }

  /** What `alloc_pages` does for any count: the frames it sets aside are counted modulo 2^64. */
  lemma AllocWraps(p: Phys, n: nat)
    requires ArenaOk(p)
    ensures var end := (p.head + n * PAGE_SIZE) % TWO64;
            AllocPages(p, n) == if end > p.end then (p, 0) else (p.(head := end), p.head)
  {
    SumWraps(p.head, n * PAGE_SIZE);
  }

  lemma SumWraps(a: nat, b: nat)
    ensures U64(a + U64(b)) == (a + b) % TWO64
  {
    var q := b / TWO64;
    DivMod(a + b, TWO64, q + (a + U64(b)) / TWO64, (a + U64(b)) % TWO64);
  }

  /** Exactly when `alloc_pages` refuses just the requests that do not fit. */
  lemma AllocGuardExactly(p: Phys, n: nat)
    requires ArenaOk(p)
    ensures (AllocPages(p, n).1 == 0 <==> p.head + n * PAGE_SIZE > p.end) <==> FramesFit(p, n)
  {
    hide AllocPages;
    AllocWraps(p, n);
    NoWrap(p.head + n * PAGE_SIZE);
  }

  lemma NoWrap(x: nat)
    ensures x < TWO64 ==> x % TWO64 == x
  {
  }

  lemma AllocMany(p: Phys, n: nat)
    requires ArenaOk(p) && FramesFit(p, n)
    ensures AllocPages(p, n) == if p.head + n * PAGE_SIZE > p.end then (p, 0) else (Advance(p, n), p.head)
  {
    hide AllocPages;
    AllocWraps(p, n);
    NoWrap(p.head + n * PAGE_SIZE);
  }

  /** Frames set aside before mapping are not used for tables. */
  lemma DataFramesStayData(p: Phys, q: Phys, top: nat, n: nat)
    requires Shape(p, top) && p.head + n * PAGE_SIZE <= p.end && Extends(Advance(p, n), q, top)
    ensures NoTableIn(q.mem, top, p.head, n)
  {
    forall path | ValidPath(path) && Reach(q.mem, top, path) != 0
      ensures Reach(q.mem, top, path) + PAGE_SIZE <= p.head || p.head + n * PAGE_SIZE <= Reach(q.mem, top, path)
    {
      assert Reach(p.mem, top, path) == 0 || Reach(q.mem, top, path) == Reach(p.mem, top, path);
    }
  }

  ghost predicate FreshlyMapped(s: Vm, t: Vm, v: nat, n: nat, flags: nat)
  {
    && s.phys.head + n * PAGE_SIZE <= t.phys.head
    && NoTableIn(t.phys.mem, t.top, s.phys.head, n)
    && (forall w :: MappedAt(s.phys, t.phys, s.top, v, s.phys.head, n, flags, w))
  }

  lemma MappedOnlyAdds(p: Phys, p1: Phys, q: Phys, top: nat, v: nat, paddr: nat, k: nat, flags: nat)
    requires p1 == p.(head := p1.head) && p.head <= p1.head && !WantsHuge(flags)
    requires MappedK(p1, q, top, v, paddr, k, flags)
    ensures OnlyAdds(p, q, top)
    ensures forall w :: MappedAt(p, q, top, v, paddr, k, flags, w)
  {
    hide Translate, LastEntry, HugeAt;
    forall w ensures MappedAt(p, q, top, v, paddr, k, flags, w)
    {
      assert MappedAt(p1, q, top, v, paddr, k, flags, w);
    }
    forall path | ValidPath(path) && Reach(p.mem, top, path) == 0
      ensures Reach(q.mem, top, path) == 0 || Reach(q.mem, top, path) >= p.head
    {
      assert Reach(q.mem, top, path) == 0 || Reach(q.mem, top, path) >= p1.head;
    }
    forall w
      ensures Translate(p.mem, top, w) != None ==> Translate(q.mem, top, w) == Translate(p.mem, top, w)
      ensures HugeAt(q.mem, top, w) ==> HugeAt(p.mem, top, w)
      ensures Translate(p.mem, top, w) != None ==> LastEntry(q.mem, top, w) == LastEntry(p.mem, top, w)
    {
      assert MappedAt(p, q, top, v, paddr, k, flags, w);
    }
  }

  /** `mapalloc_pages` for 4 KiB pages, whether it succeeds or fails, from any state in which the
      cache is coherent or no frame is left. */
  lemma MapAllocMaps(s: Vm, v: nat, n: nat, flags: nat)
    requires Shape(s.phys, s.top) && CacheUsable(s) && SmallFlags(flags) && PlainRange(s, v, n, flags)
    requires FramesFit(s.phys, n)
    ensures var (t, ret) := MapAllocPages(s, v, n, flags);
            && t == s.(phys := t.phys, cache := t.cache)
            && Shape(t.phys, t.top) && CacheUsable(t) && OnlyAdds(s.phys, t.phys, s.top)
            && (forall w :: Dist(v, w, flags) >= n ==>
                  Translate(t.phys.mem, t.top, w) == Translate(s.phys.mem, s.top, w))
            && (ret == 0 ==> FreshlyMapped(s, t, v, n, flags) && s.phys.head + n * PAGE_SIZE <= s.phys.end)
  {
    hide MapAll, Translate, LastEntry, HugeAt, OnlyAdds, Shape, PlainSlot;
    var p := s.phys;
    ShapeHasArena(p, s.top);
    AllocMany(p, n);
    OnlyAddsRefl(p, s.top);
    if p.head + n * PAGE_SIZE <= p.end {
      AdvanceKeepsShape(p, s.top, n);
      var p1 := Advance(p, n);
      var k := Progress(p1, s.top, v, p.head, n, flags);
      MapAllTranslates(p1, s.top, v, p.head, n, flags);
      var q := MapAll(p1, s.top, v, p.head, n, flags).0;
      MappedOnlyAdds(p, p1, q, s.top, v, p.head, k, flags);
      DataFramesStayData(p, q, s.top, n);
      if n > 0 {
        CachedMapAllRefines(p1, s.cache, s.top, v, p.head, n, flags);
      } else {
        NoPages(p1, s.cache, s.top, v, p.head, flags);
      }
      forall w | Dist(v, w, flags) >= n
        ensures Translate(q.mem, s.top, w) == Translate(p.mem, s.top, w)
      {
        assert MappedAt(p, q, s.top, v, p.head, k, flags, w);
      }
    }
  }

  lemma ShapeHasArena(p: Phys, top: nat)
    requires Shape(p, top)
    ensures ArenaOk(p)
  {
  }

  lemma NoPages(p: Phys, c: Cache, top: nat, v: nat, paddr: nat, flags: nat)
    ensures CachedMapAll(p, c, top, v, paddr, 0, flags) == (p, c, 0) && MapAll(p, top, v, paddr, 0, flags) == (p, 0)
  {
  }

  // ---- the virtual arena ----

  lemma ArenaNumber(a: nat)
    requires VM_BEGIN_REQUEST <= a <= VM_END_REQUEST
    ensures Trim(a) == a - 0xFFFF_0000_0000_0000 && I4(a) == ARENA_SLOT
  {
    DivMod(a, TWO48, 0xFFFF, a - 0xFFFF_0000_0000_0000);
    DivMod(Trim(a), PML4E_COVERAGE, ARENA_SLOT, Trim(a) - ARENA_SLOT * PML4E_COVERAGE);
  }

  lemma ArenaDist(v: nat, w: nat, flags: nat)
    requires VM_BEGIN_REQUEST <= v <= VM_END_REQUEST && VM_BEGIN_REQUEST <= w <= VM_END_REQUEST
    requires v % PAGE_SIZE == 0 && !WantsHuge(flags)
    ensures v <= w ==> Dist(v, w, flags) == (w - v) / PAGE_SIZE
    ensures w < v ==> Dist(v, w, flags) >= 0x60000
  {
    ArenaNumber(v);
    ArenaNumber(w);
    var b := 0xFFFF_0000_0000_0000;
    var i, j := Trim(v) / PAGE_SIZE, Trim(w) / PAGE_SIZE;
    assert v == PAGE_SIZE * (v / PAGE_SIZE);
    DivMod(Trim(v), PAGE_SIZE, v / PAGE_SIZE - b / PAGE_SIZE, 0);
    assert Trim(v) == PAGE_SIZE * i;
    var r := w % PAGE_SIZE;
    DivMod(Trim(w), PAGE_SIZE, w / PAGE_SIZE - b / PAGE_SIZE, r);
    assert Trim(w) == PAGE_SIZE * j + r;
    if v <= w {
      DivMod(w - v, PAGE_SIZE, j - i, r);
      DivMod(j - i, PAGE_COUNT, 0, j - i);
    } else {
      DivMod(j - i, PAGE_COUNT, -1, j - i + PAGE_COUNT);
    }
  }

  lemma ArenaPages(v: nat, n: nat, flags: nat)
    requires VM_BEGIN_REQUEST <= v && v + n * PAGE_SIZE <= VM_END_REQUEST && !WantsHuge(flags)
    ensures forall i :: 0 <= i < n ==> I4(PageAt(v, i, flags)) == ARENA_SLOT
  {
    forall i | 0 <= i < n ensures I4(PageAt(v, i, flags)) == ARENA_SLOT
    {
      ArenaNumber(v + i * PAGE_SIZE);
    }
  }

  ghost predicate ArenaFree(s: Vm)
  {
    forall w: nat :: s.arena <= w < VM_END_REQUEST ==> Translate(s.phys.mem, s.top, w) == None
  }

  /** What every call of the allocators keeps. */
  ghost predicate VmOk(s: Vm)
  {
    && Shape(s.phys, s.top) && CacheUsable(s) && PlainSlot(s.phys.mem, s.top, ARENA_SLOT)
    && s.arena % PAGE_SIZE == 0 && VM_BEGIN_REQUEST <= s.arena <= VM_END_REQUEST && ArenaFree(s)
  }

  /** The guard of `request_pages` is right about n pages: the range fits the arena, or the end it
      computes, modulo 2^64, is beyond the arena. */
  predicate RangeFits(s: Vm, n: nat)
  {
    s.arena + n * PAGE_SIZE <= VM_END_REQUEST || (s.arena + n * PAGE_SIZE) % TWO64 > VM_END_REQUEST
  }

  /** `request_pages` turns the request down before it maps anything. */
  predicate Refuses(s: Vm, n: nat, flags: nat)
  {
    U64(s.arena + U64(Span(flags) * n)) > VM_END_REQUEST
  }

  lemma RequestGuard(s: Vm, paddr: nat, n: nat, flags: nat)
    ensures var end := (s.arena + n * Span(flags)) % TWO64;
            && (Refuses(s, n, flags) <==> end > VM_END_REQUEST)
            && (if Refuses(s, n, flags) then RequestPages(s, paddr, n, flags) == (s, 0)
                else RequestPages(s, paddr, n, flags).0.arena == end)
  {
    hide MapAllocPages, MapPagesC, Span;
    SumWraps(s.arena, n * Span(flags));
    assert Span(flags) * n == n * Span(flags);
  }

  /** Exactly when `request_pages` refuses just the ranges that leave the arena, for every count and
      page size: the range fits, or its end modulo 2^64 is beyond the arena. Otherwise a range that
      does not fit is let through, and the head moves to that end. */
  lemma GuardExactly(s: Vm, paddr: nat, n: nat, flags: nat)
    ensures var end := s.arena + n * Span(flags);
            && ((Refuses(s, n, flags) <==> end > VM_END_REQUEST)
                <==> end <= VM_END_REQUEST || end % TWO64 > VM_END_REQUEST)
            && (!Refuses(s, n, flags) ==> RequestPages(s, paddr, n, flags).0.arena == end % TWO64)
  {
    hide RequestPages, Refuses, Span;
    RequestGuard(s, paddr, n, flags);
    NoWrap(s.arena + n * Span(flags));
  }

  /** With an exact guard, `request_pages` either refuses or maps at the head. */
  lemma RequestCases(s: Vm, paddr: nat, n: nat, flags: nat)
    requires RangeFits(s, n) && !WantsHuge(flags)
    ensures var end := s.arena + n * PAGE_SIZE;
            RequestPages(s, paddr, n, flags)
            == if end > VM_END_REQUEST then (s, 0) else
               var (t, ret) := if paddr == 0 then MapAllocPages(s, s.arena, n, flags)
                               else MapPagesC(s, s.arena, paddr, n, flags);
               (t.(arena := end), if ret != 0 then 0 else s.arena)
  {
    hide MapAllocPages, MapPagesC;
    RequestGuard(s, paddr, n, flags);
    NoWrap(s.arena + n * PAGE_SIZE);
  }

  lemma StillPlain(p: Phys, q: Phys, top: nat, i4: nat)
    requires OnlyAdds(p, q, top) && PlainSlot(p.mem, top, i4)
    ensures PlainSlot(q.mem, top, i4)
  {
    hide HugeAt;
  }

  /** `request_pages(0, n, flags)`: the range it returns starts at the old head and is backed by
      fresh frames; everything at or above the new head is still free. */
  lemma RequestOk(s: Vm, n: nat, flags: nat)
    requires VmOk(s) && SmallFlags(flags) && RangeFits(s, n)
    ensures var (t, addr) := RequestPages(s, 0, n, flags);
            if s.arena + n * PAGE_SIZE > VM_END_REQUEST then t == s && addr == 0
            else && VmOk(t) && t == s.(phys := t.phys, cache := t.cache, arena := s.arena + n * PAGE_SIZE)
                 && OnlyAdds(s.phys, t.phys, s.top)
                 && (addr != 0 ==> addr == s.arena && FreshlyMapped(s, t, s.arena, n, flags))
  {
    hide Translate, LastEntry, HugeAt, Shape, OnlyAdds, MapAllocPages, RequestPages, NoTableIn, MappedAt, Dist,
         PageAt, I4,
         Coherent, PlainSlot;
    RequestCases(s, 0, n, flags);
    DivMod(s.arena + n * PAGE_SIZE, PAGE_SIZE, s.arena / PAGE_SIZE + n, 0);
    if s.arena + n * PAGE_SIZE <= VM_END_REQUEST {
      ArenaPages(s.arena, n, flags);
      HeadIsSmall(s);
      MapAllocMaps(s, s.arena, n, flags);
      var (t, ret) := MapAllocPages(s, s.arena, n, flags);
      StillPlain(s.phys, t.phys, s.top, ARENA_SLOT);
      forall w: nat | s.arena + n * PAGE_SIZE <= w < VM_END_REQUEST
        ensures Translate(t.phys.mem, t.top, w) == None
      {
        ArenaDist(s.arena, w, flags);
        assert (w - s.arena) / PAGE_SIZE >= n by { PagesBelow(w - s.arena, n); }
      }
    }
  }

  lemma PagesBelow(x: nat, n: nat)
    requires x >= n * PAGE_SIZE
    ensures x / PAGE_SIZE >= n
  {
    var q, r := x / PAGE_SIZE, x % PAGE_SIZE;
    assert x == PAGE_SIZE * q + r;
  }

  lemma HeadIsSmall(s: Vm)
    requires VmOk(s)
    ensures s.phys.head <= TWO52
  {
  }

  /** `request_pages` of a device's frames. */
  lemma RequestDeviceOk(s: Vm, paddr: nat, n: nat, flags: nat)
    requires VmOk(s) && Coherent(s.cache, s.phys.mem, s.top) && SmallFlags(flags) && RangeFits(s, n)
    requires 0 != paddr && paddr % PAGE_SIZE == 0 && paddr + n * PAGE_SIZE <= TWO52
    ensures var (t, addr) := RequestPages(s, paddr, n, flags);
            if s.arena + n * PAGE_SIZE > VM_END_REQUEST then t == s && addr == 0
            else && VmOk(t) && t == s.(phys := t.phys, cache := t.cache, arena := s.arena + n * PAGE_SIZE)
                 && OnlyAdds(s.phys, t.phys, s.top)
                 && (addr != 0 ==> addr == s.arena
                                   && forall w :: MappedAt(s.phys, t.phys, s.top, s.arena, paddr, n, flags, w))
  {
    hide Translate, LastEntry, HugeAt, Shape, OnlyAdds, MappedAt, Dist, PageAt, CachedMapAll, MapAll, RequestPages;
    RequestCases(s, paddr, n, flags);
    DivMod(s.arena + n * PAGE_SIZE, PAGE_SIZE, s.arena / PAGE_SIZE + n, 0);
    if s.arena + n * PAGE_SIZE <= VM_END_REQUEST {
      ArenaPages(s.arena, n, flags);
      MapAllTranslates(s.phys, s.top, s.arena, paddr, n, flags);
      CachedMapAllRefines(s.phys, s.cache, s.top, s.arena, paddr, n, flags);
      var q := MapAll(s.phys, s.top, s.arena, paddr, n, flags).0;
      var k := Progress(s.phys, s.top, s.arena, paddr, n, flags);
      MappedOnlyAdds(s.phys, s.phys, q, s.top, s.arena, paddr, k, flags);
      StillPlain(s.phys, q, s.top, ARENA_SLOT);
      forall w: nat | s.arena + n * PAGE_SIZE <= w < VM_END_REQUEST
        ensures Translate(q.mem, s.top, w) == None
      {
        ArenaDist(s.arena, w, flags);
        PagesBelow(w - s.arena, n);
        assert MappedAt(s.phys, q, s.top, s.arena, paddr, k, flags, w);
        BeyondKeeps(s.phys, q, s.top, s.arena, paddr, k, flags, w);
      }
    }
  }

  lemma BeyondKeeps(p: Phys, q: Phys, top: nat, v: nat, paddr: nat, k: nat, flags: nat, w: nat)
    requires MappedAt(p, q, top, v, paddr, k, flags, w) && Dist(v, w, flags) >= k
    ensures Translate(q.mem, top, w) == Translate(p.mem, top, w)
  {
  }

  // ---- when there are frames enough ----

  /** `mapalloc_pages` succeeds with room for four frames a page: the page and at most three tables. */
  lemma MapAllocSucceeds(s: Vm, v: nat, n: nat, flags: nat)
    requires Shape(s.phys, s.top) && CacheUsable(s) && SmallFlags(flags) && PlainRange(s, v, n, flags)
    requires n <= Count(flags) && s.phys.head + 4 * n * PAGE_SIZE <= s.phys.end
    requires forall i :: 0 <= i < n ==> Translate(s.phys.mem, s.top, PageAt(v, i, flags)) == None
    ensures var (t, ret) := MapAllocPages(s, v, n, flags); ret == 0 && t.phys.head <= s.phys.head + 4 * n * PAGE_SIZE
  {
    hide MapAll, CachedMapAll, Translate, LastEntry, Shape, PlainSlot, Coherent, PageAt;
    var p := s.phys;
    ShapeHasArena(p, s.top);
    AllocMany(p, n);
    AdvanceKeepsShape(p, s.top, n);
    var p1 := Advance(p, n);
    if n > 0 {
      MapAllSucceeds(p1, s.top, v, p.head, n, flags);
      CachedMapAllRefines(p1, s.cache, s.top, v, p.head, n, flags);
    } else {
      NoPages(p1, s.cache, s.top, v, p.head, flags);
    }
  }

  /** So `request_pages` hands out the range at the head when the arena and the frames last. */
  lemma RequestSucceeds(s: Vm, n: nat, flags: nat)
    requires VmOk(s) && SmallFlags(flags)
    requires s.arena + n * PAGE_SIZE <= VM_END_REQUEST && s.phys.head + 4 * n * PAGE_SIZE <= s.phys.end
    ensures RequestPages(s, 0, n, flags).1 == s.arena != 0
  {
    hide MapAllocPages, Translate, LastEntry, Shape, PlainSlot, Coherent, I4;
    ArenaPages(s.arena, n, flags);
    forall i | 0 <= i < n ensures Translate(s.phys.mem, s.top, PageAt(s.arena, i, flags)) == None
    {
      assert PageAt(s.arena, i, flags) == s.arena + i * PAGE_SIZE;
    }
    MapAllocSucceeds(s, s.arena, n, flags);
  }

  // ---- 1 GiB pages ----

  lemma DescendHead(p: Phys, table: nat, o: nat, flags: nat)
    requires p.head <= p.end <= TWO52
    ensures var q := Descend(p, table, o, flags).0; p.head <= q.head <= q.end == p.end
  {
    hide EntryOf, Load, Store, Slot;
    NoWrap(p.head + PAGE_SIZE);
  }

  lemma PageHead(p: Phys, c: Cache, top: nat, v: nat, paddr: Word, flags: nat)
    requires p.head <= p.end <= TWO52
    ensures var q := CachedMapPage(p, c, top, v, paddr, flags).0; p.head <= q.head <= q.end == p.end
  {
    hide Descend, EntryOf, Load, Store, I1, I2, I3, I4, Or, Slot, WantsHuge, Present;
    forall q: Phys, table: nat, o: nat | q.head <= q.end <= TWO52
      ensures var r := Descend(q, table, o, flags).0; q.head <= r.head <= r.end == q.end
    {
      DescendHead(q, table, o, flags);
    }
  }

  lemma {:induction false} RunHead(p: Phys, c: Cache, top: nat, v: nat, paddr: nat, n: nat, flags: nat)
    requires p.head <= p.end <= TWO52
    ensures var q := CachedMapAll(p, c, top, v, paddr, n, flags).0; p.head <= q.head <= q.end == p.end
  {
    hide CachedMapPage, PageAt;
    if n > 0 {
      RunHead(p, c, top, v, paddr, n - 1, flags);
      var (q, d, ret) := CachedMapAll(p, c, top, v, paddr, n - 1, flags);
      PageHead(q, d, top, PageAt(v, n - 1, flags), PageAt(paddr, n - 1, flags), flags);
    }
  }

  /** `mapalloc_pages` of 1 GiB pages sets aside a GiB of frames for each, if they fit, and refuses else. */
  lemma HugeSetsAside(s: Vm, v: nat, n: nat, flags: nat)
    requires ArenaOk(s.phys) && WantsHuge(flags) && n * 0x4000_0000 < TWO64 - TWO52
    ensures var (t, ret) := MapAllocPages(s, v, n, flags);
            if s.phys.head + n * 0x4000_0000 <= s.phys.end then t.phys.head >= s.phys.head + n * 0x4000_0000
            else ret != 0 && t == s
  {
    hide CachedMapAll, AllocPages, ArenaOk;
    var m := n * 0x4_0000;
    assert n * PTABLE_LEN * PTABLE_LEN == m;
    NoWrap(m);
    ArenaBelowTop52(s.phys);
    AllocWraps(s.phys, m);
    NoWrap(s.phys.head + m * PAGE_SIZE);
    if s.phys.head + n * 0x4000_0000 <= s.phys.end {
      var p := s.phys.(head := s.phys.head + m * PAGE_SIZE);
      RunHead(p, s.cache, s.top, v, s.phys.head, n, flags);
    }
  }

  lemma ArenaBelowTop52(p: Phys)
    requires ArenaOk(p)
    ensures 0 < p.head <= p.end <= TWO52
  {
  }
}
