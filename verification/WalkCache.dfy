/** `map_page` as it is written, with the walk cache it keeps in globals, and its refinement of
    the uncached walk. */
module WalkCache {
  import opened Bits
  import opened Paging
  import opened Wrappers
  import opened PageTree
  import opened MapPages
  import opened MapRange

  /** The `cached_*` globals: the table behind the last PML4, PDPT and page-directory entry used. */
  datatype Cache = Cache(off4: nat, tab4: nat, off3: nat, tab3: nat, off2: nat, tab2: nat)

  const COLD := Cache(0, 0, 0, 0, 0, 0)

  /** The lower two cached levels; `fill` is the C variable `fill_caches`. */
  function CachedWalkDown(p: Phys, c: Cache, pdpt: nat, v: nat, flags: nat, fill: bool): (Phys, Cache, Option<nat>)
  {
    var miss3 := c.off3 != I3(v) || fill || c.tab3 == 0;
    var (p2, t2) := if miss3 then Descend(p, pdpt, I3(v), flags) else (p, Some(c.tab3));
    if t2.None? then (p2, c, None) else
    var c2 := if miss3 then c.(tab3 := t2.value, off3 := I3(v)) else c;
    var miss2 := c.off2 != I2(v) || miss3 || c.tab2 == 0;
    var (p3, t3) := if miss2 then Descend(p2, t2.value, I2(v), flags) else (p2, Some(c.tab2));
    if t3.None? then (p3, c2, None) else
    (p3, if miss2 then c2.(tab2 := t3.value, off2 := I2(v)) else c2, t3)
  }

  function CachedMapPage(p: Phys, c: Cache, top: nat, v: nat, paddr: Word, flags: nat): (Phys, Cache, nat)
  {
    var miss4 := c.off4 != I4(v) || c.tab4 == 0;
    var (p1, t1) := if miss4 then Descend(p, top, I4(v), flags) else (p, Some(c.tab4));
    if t1.None? then (p1, c, 1) else
    var c1 := if miss4 then c.(tab4 := t1.value, off4 := I4(v)) else c;
    if WantsHuge(flags) then
      var (q, ret) := Place(p1, t1.value, I3(v), paddr, Or(flags, PG_SIZE));
      (q, c1, ret)
    else
      var (p3, c3, t3) := CachedWalkDown(p1, c1, t1.value, v, flags, miss4);
      if t3.None? then (p3, c3, 1) else
      var (q, ret) := Place(p3, t3.value, I1(v), paddr, flags);
      (q, c3, ret)
  }

  function CachedMapAll(p: Phys, c: Cache, top: nat, v: nat, paddr: nat, n: nat, flags: nat): (Phys, Cache, nat)
  {
    if n == 0 then (p, c, 0) else
    var (q, d, ret) := CachedMapAll(p, c, top, v, paddr, n - 1, flags);
    if ret != 0 then (q, d, ret)
    else CachedMapPage(q, d, top, PageAt(v, n - 1, flags), PageAt(paddr, n - 1, flags), flags)
  }

  // ---- coherence ----

  function CachedPath1(c: Cache): Path { Sub(Root, c.off4) }
  function CachedPath2(c: Cache): Path { Sub(CachedPath1(c), c.off3) }
  function CachedPath3(c: Cache): Path { Sub(CachedPath2(c), c.off2) }

  /** The lower levels are those of the cached PDPT. */
  predicate LowerCoherent(c: Cache, m: Memory, top: nat)
  {
    && (c.tab3 != 0 ==> Reach(m, top, CachedPath2(c)) == c.tab3)
    && (c.tab3 != 0 && c.tab2 != 0 ==> Reach(m, top, CachedPath3(c)) == c.tab2)
  }

  /** Every cached table that a call may use is the one the tree has in that place. A huge
      mapping leaves the lower levels behind, so nothing is said of them for its PML4 slot. */
  ghost predicate Coherent(c: Cache, m: Memory, top: nat)
  {
    && c.off4 < PTABLE_LEN && c.off3 < PTABLE_LEN && c.off2 < PTABLE_LEN
    && (c.tab4 != 0 ==> Reach(m, top, CachedPath1(c)) == c.tab4)
    && (c.tab4 != 0 && PlainSlot(m, top, c.off4) ==> LowerCoherent(c, m, top))
  }

  /** There is room for every table the walk to v has to allocate. */
  predicate WalkCompletes(p: Phys, top: nat, v: nat)
  {
    p.head + PAGE_SIZE * MissingTables(p.mem, top, v) <= p.end
  }

  lemma LookUp(p: Phys, top: nat, path: Path, o: nat, flags: nat)
    requires Shape(p, top) && ValidPath(Sub(path, o)) && Reach(p.mem, top, path) != 0
    requires !SizeBit(LowFlags(flags)) && Reach(p.mem, top, Sub(path, o)) != 0
    ensures Descend(p, Reach(p.mem, top, path), o, flags) == (p, Some(Reach(p.mem, top, Sub(path, o))))
  {
    TableBelow(p, top, path, o);
  }

  /** The cached lower walk is the uncached one. */
  lemma WalkDownRefines(p: Phys, c: Cache, top: nat, v: nat, flags: nat, fill: bool)
    requires Shape(p, top) && !SizeBit(LowFlags(flags))
    requires c.off4 == I4(v) && Reach(p.mem, top, Path1(v)) == c.tab4 != 0
    requires !fill ==> LowerCoherent(c, p.mem, top)
    ensures var (q, d, t) := CachedWalkDown(p, c, c.tab4, v, flags, fill);
            && (q, t) == WalkDown(p, c.tab4, v, flags)
            && (t.Some? ==> d.off4 == c.off4 && d.tab4 == c.tab4 && LowerCoherent(d, q.mem, top)
                            && d.tab3 != 0 && d.tab2 != 0 && d.off3 == I3(v) < PTABLE_LEN
                            && d.off2 == I2(v) < PTABLE_LEN)
            && (t.None? ==> Exhausted(q))
  {
    PathsAreValid(v);
    var t1 := c.tab4;
    var p2, t2 := WalkDownSteps(p, top, v, flags);
    var miss3 := c.off3 != I3(v) || fill || c.tab3 == 0;
    if !miss3 {
      LookUp(p, top, Path1(v), I3(v), flags);
    }
    if t2.Some? {
      var miss2 := c.off2 != I2(v) || miss3 || c.tab2 == 0;
      if !miss2 {
        LookUp(p2, top, Path2(v), I2(v), flags);
      }
    }
  }

  /** All four levels together: either the page table of v is reached, or no frame is left. */
  lemma FullWalk(p: Phys, top: nat, v: nat, flags: nat) returns (p1: Phys, t1: Option<nat>)
    requires Shape(p, top) && !SizeBit(LowFlags(flags))
    ensures Descend(p, top, I4(v), flags) == (p1, t1)
    ensures Stepped(p, p1, t1, top, Path1(v))
    ensures t1.Some? ==> var (p3, t3) := WalkDown(p1, t1.value, v, flags);
                         && Shape(p3, top) && Extends(p1, p3, top)
                         && (t3.Some? <==> WalkCompletes(p, top, v))
                         && (t3.Some? ==> t3.value == Reach(p3.mem, top, Path3(v)) != 0)
    ensures t1.None? ==> !WalkCompletes(p, top, v)
  {
    PathsAreValid(v);
    DescendSteps(p, top, Root, I4(v), flags);
    p1, t1 := Descend(p, top, I4(v), flags).0, Descend(p, top, I4(v), flags).1;
    if t1.Some? {
      var p2, t2 := WalkDownSteps(p1, top, v, flags);
      if t2.Some? {
        ExtendsTrans(p1, p2, WalkDown(p1, t1.value, v, flags).0, top);
      }
    }
  }

  lemma CoherentAfterPlace(c: Cache, p: Phys, q: Phys, top: nat)
    requires Extends(p, q, top) && c.off4 < PTABLE_LEN && c.off3 < PTABLE_LEN && c.off2 < PTABLE_LEN
    requires Reach(p.mem, top, CachedPath1(c)) == c.tab4 && LowerCoherent(c, p.mem, top)
    ensures Coherent(c, q.mem, top)
  {
    hide OnlyTablesWritten, PlainSlot, Child;
    assert ValidPath(CachedPath1(c)) && ValidPath(CachedPath2(c)) && ValidPath(CachedPath3(c));
  }

  /** The refinement: with a coherent cache the cached `map_page` does exactly what the uncached
      one does, and the cache stays coherent unless the walk runs out of frames. */
  lemma CachedPageRefines(p: Phys, c: Cache, top: nat, v: nat, paddr: Word, flags: nat)
    requires Shape(p, top) && SmallFlags(flags) && PlainSlot(p.mem, top, I4(v))
    requires Coherent(c, p.mem, top)
    ensures var (q, d, ret) := CachedMapPage(p, c, top, v, paddr, flags);
            && (q, ret) == MapPage(p, top, v, paddr, flags)
            && (WalkCompletes(p, top, v) ==> Coherent(d, q.mem, top) && d.off4 == I4(v) && d.tab4 != 0)
            && (!WalkCompletes(p, top, v) ==> ret != 0 && Exhausted(q))
  {
    PathsAreValid(v);
    var p1, t1 := FullWalk(p, top, v, flags);
    var miss4 := c.off4 != I4(v) || c.tab4 == 0;
    if !miss4 {
      LookUp(p, top, Root, I4(v), flags);
    }
    if t1.Some? {
      var c1 := if miss4 then c.(tab4 := t1.value, off4 := I4(v)) else c;
      WalkDownRefines(p1, c1, top, v, flags, miss4);
      var (p3, c3, t3) := CachedWalkDown(p1, c1, t1.value, v, flags, miss4);
      if t3.Some? {
        PlaceLeaf(p3, top, v, paddr, flags);
        CoherentAfterPlace(c3, p3, Place(p3, t3.value, I1(v), paddr, flags).0, top);
      }
    }
  }

  /** A successful huge mapping keeps the cache coherent too: its slot is no longer plain. */
  lemma CachedHugeRefines(p: Phys, c: Cache, top: nat, v: nat, paddr: Word, flags: nat)
    requires Shape(p, top) && HugeFlags(flags) && Coherent(c, p.mem, top)
    requires paddr % PDPTE_COVERAGE == 0 && paddr + PDPTE_COVERAGE <= TWO52
    ensures var (q, d, ret) := CachedMapPage(p, c, top, v, paddr, flags);
            && (q, ret) == MapPage(p, top, v, paddr, flags)
            && (ret == 0 ==> Coherent(d, q.mem, top) && d.off4 == I4(v) && d.tab4 != 0)
  {
    hide Descend, Place, Translate, LastEntry, TablesInArena, ReferencedOnce, GoodEntries, OnlyTablesWritten, I1, I2,
         I3, I4;
    PathsAreValid(v);
    DescendSteps(p, top, Root, I4(v), flags);
    if c.off4 == I4(v) && c.tab4 != 0 {
      LookUp(p, top, Root, I4(v), flags);
    }
    var (q, ret) := MapPage(p, top, v, paddr, flags);
    if ret == 0 {
      MapHugeTranslates(p, top, v, paddr, flags, v);
      MapHugeShape(p, top, v, paddr, flags);
      var (p1, t1) := Descend(p, top, I4(v), flags);
      PlaceHuge(p1, top, v, paddr, flags);
      assert HugeAt(q.mem, top, v);
    }
  }

  /** The refinement over `map_pages`. */
  lemma {:induction false} CachedMapAllRefines(p: Phys, c: Cache, top: nat, v: nat, paddr: nat, n: nat, flags: nat)
    requires Shape(p, top) && CanMapAll(p.mem, top, v, paddr, n, flags) && Coherent(c, p.mem, top)
    ensures var (q, d, ret) := CachedMapAll(p, c, top, v, paddr, n, flags);
            && (q, ret) == MapAll(p, top, v, paddr, n, flags)
            && (ret == 0 ==> Coherent(d, q.mem, top))
            && (ret == 0 && n > 0 ==> d.off4 == I4(PageAt(v, n - 1, flags)) && d.tab4 != 0)
            && (ret != 0 && !WantsHuge(flags) ==> Coherent(d, q.mem, top) || Exhausted(q))
  {
    hide CachedMapPage, MapPage, Translate, LastEntry, Shape, I4;
    if n > 0 {
      CachedMapAllRefines(p, c, top, v, paddr, n - 1, flags);
      MapAllTranslates(p, top, v, paddr, n - 1, flags);
      var (q, d, ret) := CachedMapAll(p, c, top, v, paddr, n - 1, flags);
      if ret == 0 {
        PhysicalPage(paddr, n, n - 1, flags);
        CanMapNext(p, q, top, v, paddr, n, flags);
        var vi, pi := PageAt(v, n - 1, flags), PageAt(paddr, n - 1, flags);
        if WantsHuge(flags) {
          CachedHugeRefines(q, d, top, vi, pi, flags);
        } else {
          CachedPageRefines(q, d, top, vi, pi, flags);
        }
      }
    }
  }

  // ---- why a call can fail ----

  /** A 4 KiB page that did not translate can only be refused for want of frames. */
  lemma RefusedForFrames(p: Phys, top: nat, v: nat, paddr: Word, flags: nat)
    requires Shape(p, top) && SmallFlags(flags) && PlainSlot(p.mem, top, I4(v))
    requires Translate(p.mem, top, v) == None && MapPage(p, top, v, paddr, flags).1 != 0
    ensures Exhausted(MapPage(p, top, v, paddr, flags).0)
  {
    hide MapPage, CachedMapPage, Translate, LastEntry, Shape;
    MapPageShape(p, top, v, paddr, flags);
    TranslateViaTables(p, top, v);
    CachedPageRefines(p, COLD, top, v, paddr, flags);
  }

  /** `map_pages` of 4 KiB pages that did not translate fails only when no frame is left. */
  lemma {:induction false} FailsForFrames(p: Phys, top: nat, v: nat, paddr: nat, n: nat, flags: nat)
    requires Shape(p, top) && CanMapAll(p.mem, top, v, paddr, n, flags) && !WantsHuge(flags) && n <= Count(flags)
    requires forall i :: 0 <= i < n ==> Translate(p.mem, top, PageAt(v, i, flags)) == None
    requires MapAll(p, top, v, paddr, n, flags).1 != 0
    ensures Exhausted(MapAll(p, top, v, paddr, n, flags).0)
  {
    hide MapPage, Translate, LastEntry, Shape, I4, PageAt, PlainSlot;
    var (q, ret) := MapAll(p, top, v, paddr, n - 1, flags);
    CanMapFewer(p.mem, top, v, paddr, n, flags);
    if ret != 0 {
      FailsForFrames(p, top, v, paddr, n - 1, flags);
    } else {
      MapAllTranslates(p, top, v, paddr, n - 1, flags);
      PhysicalPage(paddr, n, n - 1, flags);
      CanMapNext(p, q, top, v, paddr, n, flags);
      var w := PageAt(v, n - 1, flags);
      PageAtDist(v, n - 1, w, flags);
      assert MappedAt(p, q, top, v, paddr, n - 1, flags, w);
      RefusedForFrames(q, top, w, PageAt(paddr, n - 1, flags), flags);
    }
  }

  // ---- whole runs ----

  /** One call of `map_pages`. */
  datatype Request = Request(v: nat, paddr: nat, n: nat, flags: nat)

  function Run(p: Phys, top: nat, calls: seq<Request>): Phys
    decreases |calls|
  {
    if calls == [] then p else
    var r := calls[0];
    Run(MapAll(p, top, r.v, r.paddr, r.n, r.flags).0, top, calls[1..])
  }

  function CachedRun(p: Phys, c: Cache, top: nat, calls: seq<Request>): (Phys, Cache)
    decreases |calls|
  {
    if calls == [] then (p, c) else
    var r := calls[0];
    var (q, d, _) := CachedMapAll(p, c, top, r.v, r.paddr, r.n, r.flags);
    CachedRun(q, d, top, calls[1..])
  }

  /** Each call keeps to the rules for its arguments, and either succeeds or is a 4 KiB one that
      stopped at a page in use, not for want of frames. */
  ghost predicate OrderlyRun(p: Phys, top: nat, calls: seq<Request>)
    decreases |calls|
  {
    calls == [] ||
    var r := calls[0];
    var (q, ret) := MapAll(p, top, r.v, r.paddr, r.n, r.flags);
    && CanMapAll(p.mem, top, r.v, r.paddr, r.n, r.flags)
    && (ret == 0 || (!WantsHuge(r.flags) && !Exhausted(q)))
    && OrderlyRun(q, top, calls[1..])
  }

  /** Walk-cache refinement: over every orderly run the cached code and the uncached walk build
      the same memory, and the cache stays coherent between the calls. */
  lemma {:induction false} CachedRunRefines(p: Phys, c: Cache, top: nat, calls: seq<Request>)
    requires Shape(p, top) && Coherent(c, p.mem, top) && OrderlyRun(p, top, calls)
    ensures var (q, d) := CachedRun(p, c, top, calls);
            q == Run(p, top, calls) && Shape(q, top) && Coherent(d, q.mem, top)
    decreases |calls|
  {
    hide CachedMapAll;
    hide MapAll;
    if calls != [] {
      var r := calls[0];
      CachedMapAllRefines(p, c, top, r.v, r.paddr, r.n, r.flags);
      MapAllTranslates(p, top, r.v, r.paddr, r.n, r.flags);
      var (q, d, ret) := CachedMapAll(p, c, top, r.v, r.paddr, r.n, r.flags);
      CachedRunRefines(q, d, top, calls[1..]);
    }
  }

  // ---- with a stale cache ----

  predicate IsTable(m: Memory, top: nat, table: nat, path: Path, depth: nat)
  {
    ValidPath(path) && Depth(path) == depth && Reach(m, top, path) == table
  }

  /** What holds even after a walk that failed half way: each cached table is some table of its level. */
  ghost predicate WeaklyCoherent(c: Cache, m: Memory, top: nat)
  {
    && (c.tab4 != 0 ==> c.off4 < PTABLE_LEN && Reach(m, top, CachedPath1(c)) == c.tab4)
    && (c.tab3 != 0 ==> exists path :: IsTable(m, top, c.tab3, path, 2))
    && (c.tab2 != 0 ==> exists path :: IsTable(m, top, c.tab2, path, 3))
  }

  ghost predicate OnlyAdds(p: Phys, q: Phys, top: nat)
  {
    && Extends(p, q, top)
    && (forall w :: Translate(p.mem, top, w) != None ==> Translate(q.mem, top, w) == Translate(p.mem, top, w))
    && (forall w :: HugeAt(q.mem, top, w) ==> HugeAt(p.mem, top, w))
    && (forall w :: Translate(p.mem, top, w) != None ==> LastEntry(q.mem, top, w) == LastEntry(p.mem, top, w))
  }

  lemma OnlyAddsTrans(p: Phys, q: Phys, r: Phys, top: nat)
    requires OnlyAdds(p, q, top) && OnlyAdds(q, r, top)
    ensures OnlyAdds(p, r, top)
  {
    hide Translate, LastEntry;
    hide HugeAt;
    ExtendsTrans(p, q, r, top);
  }

  /** Looking up or linking one level below any table only adds, outside huge pages. */
  lemma DescendOnlyAdds(p: Phys, top: nat, path: Path, o: nat, flags: nat) returns (q: Phys, t: Option<nat>)
    requires Shape(p, top) && ValidPath(Sub(path, o)) && Reach(p.mem, top, path) != 0
    requires !SizeBit(LowFlags(flags))
    requires forall w: nat :: Depth(path) == 1 && Path2(w) == Sub(path, o) ==> !HugeAt(p.mem, top, w)
    ensures Descend(p, Reach(p.mem, top, path), o, flags) == (q, t)
    ensures Shape(q, top) && OnlyAdds(p, q, top) && Extends(p, q, top)
    ensures t.Some? ==> t.value != 0 && Reach(q.mem, top, Sub(path, o)) == t.value
  {
    DescendSteps(p, top, path, o, flags);
    q, t := Descend(p, Reach(p.mem, top, path), o, flags).0, Descend(p, Reach(p.mem, top, path), o, flags).1;
    forall w
      ensures Translate(p.mem, top, w) != None ==> Translate(q.mem, top, w) == Translate(p.mem, top, w)
      ensures HugeAt(q.mem, top, w) ==> HugeAt(p.mem, top, w)
      ensures LastEntry(q.mem, top, w) == LastEntry(p.mem, top, w)
    {
      hide LastEntry;
      DescendTranslates(p, top, path, o, flags, w);
      DescendKeepsLast(p, top, path, o, flags, w);
      if Path2(w) == Sub(path, o) && Reach(p.mem, top, Sub(path, o)) == 0 {
        UnlinkedRegion(p, top, w, w);
      }
    }
  }

  lemma PlaceKeepsOthers(p: Phys, top: nat, path: Path, o: nat, e: Word, w: nat)
    requires Shape(p, top) && ValidPath(path) && Depth(path) == 3 && o < PTABLE_LEN
    requires Reach(p.mem, top, path) != 0 && !Present(Load(p.mem, Slot(Reach(p.mem, top, path), o)))
    ensures var q := WithEntry(p, Reach(p.mem, top, path), o, e);
            && (Translate(p.mem, top, w) != None ==> Translate(q.mem, top, w) == Translate(p.mem, top, w))
            && (HugeAt(q.mem, top, w) ==> HugeAt(p.mem, top, w))
            && (Translate(p.mem, top, w) != None ==> LastEntry(q.mem, top, w) == LastEntry(p.mem, top, w))
  {
    hide Translate, LastEntry, TablesInArena, ReferencedOnce, GoodEntries, ArenaOk, Frame4K, Frame1G, SizeBit;
    var q := WithEntry(p, Reach(p.mem, top, path), o, e);
    EntryKeepsShape(p, top, path, o, e);
    EntriesAfterEntry(p, top, path, o, e, w);
    TranslateViaTables(p, top, w);
    TranslateViaTables(q, top, w);
    LastViaTables(p, top, w);
    LastViaTables(q, top, w);
    PathsAreValid(w);
  }

  lemma PlaceOnlyAdds(p: Phys, top: nat, path: Path, o: nat, paddr: Word, flags: nat)
    requires Shape(p, top) && ValidPath(path) && Depth(path) == 3 && o < PTABLE_LEN
    requires Reach(p.mem, top, path) != 0
    ensures var (q, ret) := Place(p, Reach(p.mem, top, path), o, paddr, flags); Shape(q, top) && OnlyAdds(p, q, top)
  {
    hide Translate, LastEntry, HugeAt, EntryOf;
    var t := Reach(p.mem, top, path);
    var e := EntryOf(paddr, flags);
    if !Present(Load(p.mem, Slot(t, o))) {
      var q := WithEntry(p, t, o, e);
      EntryKeepsShape(p, top, path, o, e);
      forall other | ValidPath(other) ensures Reach(q.mem, top, other) == Reach(p.mem, top, other)
      {
        ReachAfterEntry(p, top, path, o, e, other);
      }
      StoreIsInTable(p, q, top, path, o, e);
      forall w
        ensures Translate(p.mem, top, w) != None ==> Translate(q.mem, top, w) == Translate(p.mem, top, w)
        ensures HugeAt(q.mem, top, w) ==> HugeAt(p.mem, top, w)
        ensures Translate(p.mem, top, w) != None ==> LastEntry(q.mem, top, w) == LastEntry(p.mem, top, w)
      {
        PlaceKeepsOthers(p, top, path, o, e, w);
      }
    }
  }

  lemma StillWeaklyCoherent(c: Cache, p: Phys, q: Phys, top: nat)
    requires WeaklyCoherent(c, p.mem, top) && Extends(p, q, top)
    ensures WeaklyCoherent(c, q.mem, top)
  {
    if c.tab4 != 0 {
      assert ValidPath(CachedPath1(c));
    }
    if c.tab3 != 0 {
      var path :| IsTable(p.mem, top, c.tab3, path, 2);
      assert IsTable(q.mem, top, c.tab3, path, 2);
    }
    if c.tab2 != 0 {
      var path :| IsTable(p.mem, top, c.tab2, path, 3);
      assert IsTable(q.mem, top, c.tab2, path, 3);
    }
  }

  lemma OnlyAddsRefl(p: Phys, top: nat)
    ensures OnlyAdds(p, p, top) && Extends(p, p, top)
  {
  }

  lemma CachedPd(c: Cache, m: Memory, top: nat)
    requires WeaklyCoherent(c, m, top)
    ensures c.tab4 != 0 ==> c.off4 < PTABLE_LEN && Reach(m, top, CachedPath1(c)) == c.tab4
    ensures c.tab3 != 0 ==> exists path :: IsTable(m, top, c.tab3, path, 2)
    ensures c.tab2 != 0 ==> exists path :: IsTable(m, top, c.tab2, path, 3)
  {
  }

  lemma CachePd(c: Cache, m: Memory, top: nat, pd: nat, path: Path, o: nat)
    requires WeaklyCoherent(c, m, top) && IsTable(m, top, pd, path, 2)
    ensures WeaklyCoherent(c.(tab3 := pd, off3 := o), m, top)
  {
  }

  lemma CachePt(c: Cache, m: Memory, top: nat, pt: nat, path: Path, o: nat)
    requires WeaklyCoherent(c, m, top) && IsTable(m, top, pt, path, 3)
    ensures WeaklyCoherent(c.(tab2 := pt, off2 := o), m, top)
  {
  }

  lemma PlainBelow(m: Memory, top: nat, v: nat)
    requires PlainSlot(m, top, I4(v))
    ensures forall w: nat :: Depth(Path1(v)) == 1 && Path2(w) == Sub(Path1(v), I3(v)) ==> !HugeAt(m, top, w)
  {
    forall w: nat | Path2(w) == Path2(v) ensures !HugeAt(m, top, w)
    {
      assert I4(w) == I4(v);
    }
  }

  /** The page directory the cached walk uses, after its first step. */
  lemma FirstStepOnlyAdds(p: Phys, c: Cache, top: nat, v: nat, flags: nat, miss3: bool)
    returns (p2: Phys, t2: Option<nat>, path2: Path)
    requires Shape(p, top) && !SizeBit(LowFlags(flags)) && PlainSlot(p.mem, top, I4(v))
    requires WeaklyCoherent(c, p.mem, top) && c.off4 == I4(v) && c.tab4 != 0 && (!miss3 ==> c.tab3 != 0)
    ensures (p2, t2) == if miss3 then Descend(p, c.tab4, I3(v), flags) else (p, Some(c.tab3))
    ensures Shape(p2, top) && OnlyAdds(p, p2, top) && WeaklyCoherent(c, p2.mem, top)
    ensures t2.Some? ==> t2.value != 0 && IsTable(p2.mem, top, t2.value, path2, 2)
  {
    hide Translate, LastEntry, Descend, OnlyAdds, Shape, HugeAt, PlainSlot, OnlyTablesWritten, I2, I3, I4;
    PathsAreValid(v);
    PlainBelow(p.mem, top, v);
    path2, p2, t2 := Path2(v), p, Some(c.tab3);
    if miss3 {
      p2, t2 := DescendOnlyAdds(p, top, Path1(v), I3(v), flags);
    } else {
      path2 :| IsTable(p.mem, top, c.tab3, path2, 2);
      OnlyAddsRefl(p, top);
    }
    StillWeaklyCoherent(c, p, p2, top);
  }

  lemma LastStepOnlyAdds(p: Phys, p2: Phys, c: Cache, top: nat, path2: Path, pd: nat, v: nat, flags: nat)
    requires OnlyAdds(p, p2, top) && Shape(p2, top) && !SizeBit(LowFlags(flags))
    requires WeaklyCoherent(c, p2.mem, top) && pd != 0 && IsTable(p2.mem, top, pd, path2, 2)
    ensures var (q, t) := Descend(p2, pd, I2(v), flags);
            && Shape(q, top) && OnlyAdds(p, q, top) && WeaklyCoherent(c, q.mem, top)
            && (t.Some? ==> t.value != 0 && IsTable(q.mem, top, t.value, Sub(path2, I2(v)), 3))
  {
    hide Translate, LastEntry, Descend, OnlyAdds, Shape, HugeAt;
    PathsAreValid(v);
    var p3, t3 := DescendOnlyAdds(p2, top, path2, I2(v), flags);
    OnlyAddsTrans(p, p2, p3, top);
    StillWeaklyCoherent(c, p2, p3, top);
  }

  lemma WalkDownOnlyAdds(p: Phys, c: Cache, top: nat, v: nat, flags: nat, fill: bool)
    requires Shape(p, top) && !SizeBit(LowFlags(flags)) && PlainSlot(p.mem, top, I4(v))
    requires WeaklyCoherent(c, p.mem, top) && c.off4 == I4(v) && c.tab4 != 0
    ensures var (q, d, t) := CachedWalkDown(p, c, c.tab4, v, flags, fill);
            && Shape(q, top) && OnlyAdds(p, q, top) && WeaklyCoherent(d, q.mem, top)
            && (t.Some? ==> t.value != 0 && exists path :: IsTable(q.mem, top, t.value, path, 3))
  {
    hide Translate, LastEntry, Descend, OnlyAdds, Shape, PlainSlot, IsTable, WeaklyCoherent, I2, I3, I4;
    var miss3 := c.off3 != I3(v) || fill || c.tab3 == 0;
    var p2, t2, path2 := FirstStepOnlyAdds(p, c, top, v, flags, miss3);
    if t2.Some? {
      CachePd(c, p2.mem, top, t2.value, path2, I3(v));
      var c2 := if miss3 then c.(tab3 := t2.value, off3 := I3(v)) else c;
      if c.off2 != I2(v) || miss3 || c.tab2 == 0 {
        LastStepOnlyAdds(p, p2, c2, top, path2, t2.value, v, flags);
        var (p3, t3) := Descend(p2, t2.value, I2(v), flags);
        if t3.Some? {
          CachePt(c2, p3.mem, top, t3.value, Sub(path2, I2(v)), I2(v));
        }
      } else {
        CachedPd(c, p2.mem, top);
      }
    }
  }

  /** Whatever a failed walk left in the cache, a 4 KiB `map_page` only adds translations. */
  lemma CachedPageOnlyAdds(p: Phys, c: Cache, top: nat, v: nat, paddr: Word, flags: nat)
    requires Shape(p, top) && SmallFlags(flags) && PlainSlot(p.mem, top, I4(v)) && WeaklyCoherent(c, p.mem, top)
    ensures var (q, d, ret) := CachedMapPage(p, c, top, v, paddr, flags);
            Shape(q, top) && OnlyAdds(p, q, top) && WeaklyCoherent(d, q.mem, top)
  {
    hide Translate, LastEntry;
    hide Descend;
    hide CachedWalkDown;
    PathsAreValid(v);
    var miss4 := c.off4 != I4(v) || c.tab4 == 0;
    var p1, t1 := p, Some(c.tab4);
    if miss4 {
      p1, t1 := DescendOnlyAdds(p, top, Root, I4(v), flags);
    }
    StillWeaklyCoherent(c, p, p1, top);
    if t1.Some? {
      var c1 := if miss4 then c.(tab4 := t1.value, off4 := I4(v)) else c;
      assert WeaklyCoherent(c1, p1.mem, top);
      WalkDownOnlyAdds(p1, c1, top, v, flags, miss4);
      var (p3, c3, t3) := CachedWalkDown(p1, c1, t1.value, v, flags, miss4);
      OnlyAddsTrans(p, p1, p3, top);
      if t3.Some? {
        var path :| IsTable(p3.mem, top, t3.value, path, 3);
        PlaceOnlyAdds(p3, top, path, I1(v), paddr, flags);
        var (q, ret) := Place(p3, t3.value, I1(v), paddr, flags);
        OnlyAddsTrans(p, p3, q, top);
        StillWeaklyCoherent(c3, p3, q, top);
      }
    }
  }

  lemma {:induction false} CachedMapAllOnlyAdds(p: Phys, c: Cache, top: nat, v: nat, paddr: nat, n: nat, flags: nat)
    requires Shape(p, top) && SmallFlags(flags) && WeaklyCoherent(c, p.mem, top)
    requires forall i :: 0 <= i < n ==> PlainSlot(p.mem, top, I4(PageAt(v, i, flags)))
    ensures var (q, d, ret) := CachedMapAll(p, c, top, v, paddr, n, flags);
            Shape(q, top) && OnlyAdds(p, q, top) && WeaklyCoherent(d, q.mem, top)
  {
    hide CachedMapPage;
    if n > 0 {
      CachedMapAllOnlyAdds(p, c, top, v, paddr, n - 1, flags);
      var (q, d, ret) := CachedMapAll(p, c, top, v, paddr, n - 1, flags);
      if ret == 0 {
        var vi, pi := PageAt(v, n - 1, flags), PageAt(paddr, n - 1, flags);
        CachedPageOnlyAdds(q, d, top, vi, pi, flags);
        OnlyAddsTrans(p, q, CachedMapPage(q, d, top, vi, pi, flags).0, top);
      }
    } else {
      OnlyAddsRefl(p, top);
    }
  }

  /** 4 KiB calls with pages only in PML4 slots that hold no huge page. */
  ghost predicate SmallCalls(m: Memory, top: nat, calls: seq<Request>)
  {
    forall r | r in calls :: SmallFlags(r.flags)
      && forall i :: 0 <= i < r.n ==> PlainSlot(m, top, I4(PageAt(r.v, i, r.flags)))
  }

  /** Mappings are only ever added: across any run of such calls, whether they succeed, find a page
      in use or run out of frames, and whatever the cache has become, an address that translated
      keeps its translation. */
  lemma {:induction false} CachedRunOnlyAdds(p: Phys, c: Cache, top: nat, calls: seq<Request>)
    requires Shape(p, top) && WeaklyCoherent(c, p.mem, top) && SmallCalls(p.mem, top, calls)
    ensures var (q, d) := CachedRun(p, c, top, calls); Shape(q, top) && OnlyAdds(p, q, top)
    decreases |calls|
  {
    hide CachedMapAll;
    if calls == [] {
      OnlyAddsRefl(p, top);
    } else {
      var r := calls[0];
      CachedMapAllOnlyAdds(p, c, top, r.v, r.paddr, r.n, r.flags);
      var (q, d, _) := CachedMapAll(p, c, top, r.v, r.paddr, r.n, r.flags);
      CachedRunOnlyAdds(q, d, top, calls[1..]);
      OnlyAddsTrans(p, q, CachedRun(q, d, top, calls[1..]).0, top);
    }
  }

  /** The first table the cached walk to v looks up in memory. */
  function FirstMiss(c: Cache, v: nat): Path
  {
    if c.off4 != I4(v) then Path1(v) else if c.off3 != I3(v) then Path2(v) else Path3(v)
  }

  ghost predicate Warm(c: Cache, p: Phys, top: nat)
  {
    && c.tab4 != 0 && c.tab3 != 0 && c.tab2 != 0
    && PlainSlot(p.mem, top, c.off4) && Coherent(c, p.mem, top)
  }

  lemma FailedLowerWalk(p: Phys, c: Cache, top: nat, v: nat, flags: nat, fill: bool)
    requires Shape(p, top) && !SizeBit(LowFlags(flags))
    requires c.off4 == I4(v) && Reach(p.mem, top, Path1(v)) == c.tab4 != 0 && c.tab3 != 0 && c.tab2 != 0
    requires c.off3 < PTABLE_LEN && (!fill ==> LowerCoherent(c, p.mem, top))
    requires WalkDown(p, c.tab4, v, flags).1.None?
    ensures var (q, d, t) := CachedWalkDown(p, c, c.tab4, v, flags, fill);
            && t.None? && d.off4 == c.off4 && d.tab4 == c.tab4 && d.tab3 != 0 && d.off3 < PTABLE_LEN
            && d.off2 == c.off2 && d.tab2 == c.tab2
            && (!fill ==> if Reach(p.mem, top, FirstMiss(c, v)) == 0 && Exhausted(p) then d == c && q == p
                          else d.off3 != c.off3)
  {
    PathsAreValid(v);
    var p2, t2 := WalkDownSteps(p, top, v, flags);
    if !fill && c.off3 == I3(v) {
      LookUp(p, top, Path1(v), I3(v), flags);
    }
  }

  /** A walk that fails either changed nothing or moved an upper level away from the page table. */
  lemma FailedWalkCache(p: Phys, c: Cache, top: nat, v: nat, paddr: Word, flags: nat)
    requires Shape(p, top) && SmallFlags(flags) && PlainSlot(p.mem, top, I4(v)) && Warm(c, p, top)
    requires !WalkCompletes(p, top, v)
    ensures var (q, d, ret) := CachedMapPage(p, c, top, v, paddr, flags);
            if Reach(p.mem, top, FirstMiss(c, v)) == 0 && Exhausted(p) then d == c && q == p
            else && (d.off4 != c.off4 || d.off3 != c.off3) && d.off4 == I4(v) && d.tab4 != 0 && d.tab3 != 0
                 && d.off2 == c.off2 && d.tab2 == c.tab2 && d.off3 < PTABLE_LEN
  {
    hide CachedWalkDown, WalkDown, Descend;
    PathsAreValid(v);
    var p1, t1 := FullWalk(p, top, v, flags);
    if c.off4 == I4(v) {
      LookUp(p, top, Root, I4(v), flags);
      FailedLowerWalk(p, c, top, v, flags, false);
    } else if t1.Some? {
      FailedLowerWalk(p1, c.(tab4 := t1.value, off4 := I4(v)), top, v, flags, true);
    }
  }

  lemma WarmIsWeak(c: Cache, p: Phys, top: nat)
    requires Warm(c, p, top)
    ensures WeaklyCoherent(c, p.mem, top)
    ensures ValidPath(CachedPath2(c)) && ValidPath(CachedPath3(c))
  {
    PathBounds(c);
    assert IsTable(p.mem, top, c.tab3, CachedPath2(c), 2);
    assert IsTable(p.mem, top, c.tab2, CachedPath3(c), 3);
  }

  lemma PathBounds(c: Cache)
    requires c.off4 < PTABLE_LEN && c.off3 < PTABLE_LEN && c.off2 < PTABLE_LEN
    ensures ValidPath(CachedPath2(c)) && Depth(CachedPath2(c)) == 2
    ensures ValidPath(CachedPath3(c)) && Depth(CachedPath3(c)) == 3
  {
    assert SlotsInTable(CachedPath1(c)) && Depth(CachedPath1(c)) == 1;
    assert SlotsInTable(CachedPath2(c)) && Depth(CachedPath2(c)) == 2;
  }

  lemma StaleIsIncoherent(p: Phys, q: Phys, c: Cache, d: Cache, top: nat)
    requires Shape(q, top) && Extends(p, q, top) && Warm(c, p, top)
    requires d.off4 < PTABLE_LEN && d.off3 < PTABLE_LEN && PlainSlot(q.mem, top, d.off4)
    requires d.tab4 != 0 && d.tab3 != 0 && d.tab2 == c.tab2 && d.off2 == c.off2
    requires d.off4 != c.off4 || d.off3 != c.off3
    ensures !Coherent(d, q.mem, top)
  {
    PathBounds(c);
    PathBounds(d);
    assert Reach(q.mem, top, CachedPath3(c)) == c.tab2;
  }

  /** Exactly when a 4 KiB `map_page` leaves a warm cache coherent: its walk must complete, or fail
      before it has replaced anything. Otherwise levels below the replaced one are stale. */
  lemma CoherenceExactly(p: Phys, c: Cache, top: nat, v: nat, paddr: Word, flags: nat)
    requires Shape(p, top) && SmallFlags(flags) && PlainSlot(p.mem, top, I4(v)) && Warm(c, p, top)
    ensures var (q, d, ret) := CachedMapPage(p, c, top, v, paddr, flags);
            Coherent(d, q.mem, top)
            <==> WalkCompletes(p, top, v) || (Reach(p.mem, top, FirstMiss(c, v)) == 0 && Exhausted(p))
  {
    hide CachedMapPage, MapPage, Translate, LastEntry;
    CachedPageRefines(p, c, top, v, paddr, flags);
    WarmIsWeak(c, p, top);
    CachedPageOnlyAdds(p, c, top, v, paddr, flags);
    var (q, d, ret) := CachedMapPage(p, c, top, v, paddr, flags);
    if !WalkCompletes(p, top, v) {
      FailedWalkCache(p, c, top, v, paddr, flags);
      IndicesReassemble(v);
      if !(Reach(p.mem, top, FirstMiss(c, v)) == 0 && Exhausted(p)) {
        StaleIsIncoherent(p, q, c, d, top);
      }
    }
  }

  /** Why coherence matters: when the cached levels match v's indices but the cached page table is
      another one, `map_page` reports success and v is not mapped. */
  lemma StaleCacheMisplaces(p: Phys, c: Cache, top: nat, v: nat, paddr: Word, flags: nat, other: Path)
    requires Shape(p, top) && SmallFlags(flags)
    requires c.off4 == I4(v) && c.off3 == I3(v) && c.off2 == I2(v) && c.tab4 != 0 && c.tab3 != 0 && c.tab2 != 0
    requires IsTable(p.mem, top, c.tab2, other, 3) && other != Path3(v)
    requires !Present(Load(p.mem, Slot(c.tab2, I1(v))))
    ensures var (q, d, ret) := CachedMapPage(p, c, top, v, paddr, flags);
            ret == 0 && d == c && Translate(q.mem, top, v) == Translate(p.mem, top, v)
  {
    PathsAreValid(v);
    var e := EntryOf(paddr, flags);
    EntriesAfterEntry(p, top, other, I1(v), e, v);
    EntryKeepsShape(p, top, other, I1(v), e);
    TranslateViaTables(p, top, v);
    TranslateViaTables(WithEntry(p, c.tab2, I1(v), e), top, v);
  }

  /** A run that gets there: from a warm, coherent cache a 4 KiB call whose walk stops half way for
      want of a frame, and then any call whose indices match the cache it left. The second call
      reports success, and its address translates as before. */
  lemma StaleRunMisplaces(p: Phys, c: Cache, top: nat, v: nat, paddr: Word, flags: nat,
                          v2: nat, paddr2: Word, flags2: nat)
    requires Shape(p, top) && SmallFlags(flags) && PlainSlot(p.mem, top, I4(v)) && Warm(c, p, top)
    requires !WalkCompletes(p, top, v) && !(Reach(p.mem, top, FirstMiss(c, v)) == 0 && Exhausted(p))
    requires var (q, d, _) := CachedMapPage(p, c, top, v, paddr, flags);
             && I4(v2) == d.off4 && I3(v2) == d.off3 && I2(v2) == c.off2
             && !Present(Load(q.mem, Slot(c.tab2, I1(v2))))
    requires SmallFlags(flags2)
    ensures var (q, d, ret) := CachedMapPage(p, c, top, v, paddr, flags);
            var (r, _, ret2) := CachedMapPage(q, d, top, v2, paddr2, flags2);
            ret != 0 && ret2 == 0 && Translate(r.mem, top, v2) == Translate(q.mem, top, v2)
  {
    hide CachedMapPage, Translate, LastEntry, Shape, PlainSlot, WalkCompletes;
    WarmIsWeak(c, p, top);
    CachedPageRefines(p, c, top, v, paddr, flags);
    CachedPageOnlyAdds(p, c, top, v, paddr, flags);
    FailedWalkCache(p, c, top, v, paddr, flags);
    var (q, d, _) := CachedMapPage(p, c, top, v, paddr, flags);
    assert IsTable(q.mem, top, c.tab2, CachedPath3(c), 3);
    StaleCacheMisplaces(q, d, top, v2, paddr2, flags2, CachedPath3(c));
  }

  /** Exactly when a 1 GiB `map_page` leaves a warm cache coherent: its PDPT entry must be free, or it
      must stay in the cached PML4 slot, or in one that holds huge pages. A call that finds its entry
      in use has already moved the top level away from the lower ones. */
  lemma HugeCoherenceExactly(p: Phys, c: Cache, top: nat, v: nat, paddr: Word, flags: nat)
    requires Shape(p, top) && HugeFlags(flags) && Warm(c, p, top)
    requires paddr % PDPTE_COVERAGE == 0 && paddr + PDPTE_COVERAGE <= TWO52
    ensures var (q, d, ret) := CachedMapPage(p, c, top, v, paddr, flags);
            Coherent(d, q.mem, top)
            <==> !Present(E3(p.mem, top, v)) || c.off4 == I4(v) || !PlainSlot(p.mem, top, I4(v))
  {
    hide CachedMapPage, MapPage, Translate, LastEntry, Shape, PlainSlot;
    CachedHugeRefines(p, c, top, v, paddr, flags);
    MapHugeShape(p, top, v, paddr, flags);
    HugeFailure(p, c, top, v, paddr, flags);
    var (q, d, ret) := CachedMapPage(p, c, top, v, paddr, flags);
    FreeOrLinked(p, top, v);
    if ret != 0 && d != c && PlainSlot(p.mem, top, I4(v)) {
      OnlyAddsRefl(p, top);
      IndicesReassemble(v);
      StaleIsIncoherent(p, q, c, d, top);
    }
  }

  /** An entry of a missing table is free. */
  lemma FreeOrLinked(p: Phys, top: nat, v: nat)
    requires Shape(p, top)
    ensures Reach(p.mem, top, Path1(v)) == 0 ==> !Present(E3(p.mem, top, v))
    ensures p.head <= p.end
  {
  }

  /** A 1 GiB call that fails writes nothing, and moves only the top level of a warm cache. */
  lemma HugeFailure(p: Phys, c: Cache, top: nat, v: nat, paddr: Word, flags: nat)
    requires Shape(p, top) && HugeFlags(flags) && Warm(c, p, top)
    requires paddr % PDPTE_COVERAGE == 0 && paddr + PDPTE_COVERAGE <= TWO52
    ensures var (q, d, ret) := CachedMapPage(p, c, top, v, paddr, flags);
            ret != 0 ==>
              && q == p
              && d == (if Reach(p.mem, top, Path1(v)) == 0 || c.off4 == I4(v) then c
                       else c.(off4 := I4(v), tab4 := Reach(p.mem, top, Path1(v))))
  {
    hide Descend, Translate, LastEntry, EntryOf, WithTable, ArenaOk, TablesInArena, ReferencedOnce, GoodEntries, I1,
         I2, I3, I4,
         PlainSlot, Or, SizeBit;
    PathsAreValid(v);
    assert Reach(p.mem, top, Root) == top;
    DescendResult(p, top, Root, I4(v), flags);
    if Reach(p.mem, top, Path1(v)) == 0 && !Exhausted(p) {
      MapHugeShape(p, top, v, paddr, flags);
      CachedHugeRefines(p, c, top, v, paddr, flags);
    }
  }
}
