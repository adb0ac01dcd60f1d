/** `alloc_pages`, `walk_table` and `map_page` without the walk cache: the simple form that the
    cached one in WalkCache refines, and what it does to the translation of every address. */
module MapPages {
  import opened Bits
  import opened Paging
  import opened Wrappers
  import opened PageTree

  /** The bump allocator; 0 is its failure value. */
  function AllocPages(p: Phys, n: nat): (Phys, Word)
  {
    var next := U64(p.head + U64(n * PAGE_SIZE));
    if next > p.end then (p, 0) else (p.(head := next), p.head)
  }

  function WalkTable(p: Phys, table: nat, offset: nat, flags: nat): (Phys, Word)
  {
    if offset >= PTABLE_LEN then (p, 0) else
    var entry := Load(p.mem, Slot(table, offset));
    if ValidTable(entry) then (p, entry) else
    var (q, frame) := AllocPages(p, 1);
    if frame == 0 then (q, 0) else
    var e := EntryOf(frame, flags);
    (q.(mem := Store(q.mem, Slot(table, offset), e)), e)
  }

  /** One level of the walk: the table to go on with, or None where `map_page` gives up. */
  function Descend(p: Phys, table: nat, offset: nat, flags: nat): (Phys, Option<nat>)
  {
    var (q, e) := WalkTable(p, table, offset, flags);
    if !Present(e) || SizeBit(e) then (q, None) else (q, Some(PageBase(e)))
  }

  /** The last step, from the label `alloc`. */
  function Place(p: Phys, table: nat, offset: nat, paddr: Word, flags: nat): (Phys, nat)
  {
    if Present(Load(p.mem, Slot(table, offset))) then (p, 1)
    else (WithEntry(p, table, offset, EntryOf(paddr, flags)), 0)
  }

  /** From the PDPT to the page table of v. */
  function WalkDown(p: Phys, pdpt: nat, v: nat, flags: nat): (Phys, Option<nat>)
  {
    var (p2, t2) := Descend(p, pdpt, I3(v), flags);
    if t2.None? then (p2, None) else Descend(p2, t2.value, I2(v), flags)
  }

  function MapPage(p: Phys, top: nat, v: nat, paddr: Word, flags: nat): (Phys, nat)
  {
    var (p1, t1) := Descend(p, top, I4(v), flags);
    if t1.None? then (p1, 1) else
    if WantsHuge(flags) then Place(p1, t1.value, I3(v), paddr, Or(flags, PG_SIZE)) else
    var (p3, t3) := WalkDown(p1, t1.value, v, flags);
    if t3.None? then (p3, 1) else Place(p3, t3.value, I1(v), paddr, flags)
  }

  // ---- what one level does ----

  /** Memory outside the page tables of q is as it was. */
  ghost predicate OnlyTablesWritten(p: Phys, q: Phys, top: nat)
  {
    |q.mem| == |p.mem| && forall i | 0 <= i < |p.mem| :: q.mem[i] == p.mem[i] || InTable(q.mem, top, 8 * i)
  }

  /** q is p after some tables were linked and some free slots filled. */
  ghost predicate Extends(p: Phys, q: Phys, top: nat)
  {
    && OnlyTablesWritten(p, q, top)
    && q.begin == p.begin && q.end == p.end && p.head <= q.head
    && (forall path :: ValidPath(path) && Reach(p.mem, top, path) != 0
                       ==> Reach(q.mem, top, path) == Reach(p.mem, top, path))
    && (forall path :: ValidPath(path) && Reach(p.mem, top, path) == 0
                       ==> Reach(q.mem, top, path) == 0 || Reach(q.mem, top, path) >= p.head)
  }

  lemma TablesWrittenTrans(p: Phys, q: Phys, r: Phys, top: nat)
    requires Extends(p, q, top) && Extends(q, r, top)
    ensures OnlyTablesWritten(p, r, top)
  {
    forall i | 0 <= i < |p.mem| && r.mem[i] != p.mem[i]
      ensures InTable(r.mem, top, 8 * i)
    {
      if r.mem[i] == q.mem[i] {
        var path :| TableHolds(q.mem, top, path, 8 * i);
        assert TableHolds(r.mem, top, path, 8 * i);
      }
    }
  }

  /** A store to a slot of a reachable table is a store to a table. */
  lemma StoreIsInTable(p: Phys, q: Phys, top: nat, path: Path, o: nat, e: Word)
    requires ValidPath(path) && Reach(p.mem, top, path) != 0 && Reach(p.mem, top, path) % PAGE_SIZE == 0
    requires o < PTABLE_LEN && Reach(q.mem, top, path) == Reach(p.mem, top, path)
    requires q.mem == Store(p.mem, Slot(Reach(p.mem, top, path), o), e)
    ensures OnlyTablesWritten(p, q, top)
  {
    var t := Reach(p.mem, top, path);
    SlotsAreDistinct(t, o, t, o);
    forall i | 0 <= i < |p.mem| && q.mem[i] != p.mem[i]
      ensures InTable(q.mem, top, 8 * i)
    {
      assert 8 * i == Slot(t, o);
      assert TableHolds(q.mem, top, path, 8 * i);
    }
  }

  lemma ExtendsTrans(p: Phys, q: Phys, r: Phys, top: nat)
    requires Extends(p, q, top) && Extends(q, r, top)
    ensures Extends(p, r, top)
  {
    TablesWrittenTrans(p, q, r, top);
    forall path | ValidPath(path) && Reach(p.mem, top, path) == 0
      ensures Reach(r.mem, top, path) == 0 || Reach(r.mem, top, path) >= p.head
    {
      assert Reach(q.mem, top, path) == 0 || Reach(q.mem, top, path) >= p.head;
    }
  }

  lemma AllocOne(p: Phys)
    requires ArenaOk(p)
    ensures var (q, frame) := AllocPages(p, 1);
            if p.head + PAGE_SIZE <= p.end then frame == p.head && q == p.(head := p.head + PAGE_SIZE)
            else frame == 0 && q == p
  {
  }

  /** No frame is left. */
  predicate Exhausted(p: Phys) { p.head + PAGE_SIZE > p.end }

  function Missing(m: Memory, top: nat, path: Path): nat { if Reach(m, top, path) == 0 then 1 else 0 }

  /** p became q when the table at `path` was looked up, or linked if there was none. */
  ghost predicate Stepped(p: Phys, q: Phys, t: Option<nat>, top: nat, path: Path)
  {
    && Shape(q, top) && Extends(p, q, top)
    && (t.None? <==> Reach(p.mem, top, path) == 0 && p.head + PAGE_SIZE > p.end)
    && (t.None? ==> q == p)
    && (t.Some? ==> t.value == Reach(q.mem, top, path) != 0)
    && q.head == p.head + (if t.None? then 0 else PAGE_SIZE * Missing(p.mem, top, path))
    && (forall other :: ValidPath(other) && other != path ==> Reach(q.mem, top, other) == Reach(p.mem, top, other))
  }

  ghost predicate SteppedAt(p: Phys, q: Phys, t: Option<nat>, top: nat, path: Path, w: nat)
  {
    && Translate(q.mem, top, w) == (if t.Some? && path == Path2(w) && Reach(p.mem, top, path) == 0
                                    then None else Translate(p.mem, top, w))
    && E1(q.mem, top, w) == E1(p.mem, top, w)
    && (HugeAt(q.mem, top, w) ==> HugeAt(p.mem, top, w))
    && (path != Path2(w) ==> E3(q.mem, top, w) == E3(p.mem, top, w))
  }

  lemma LinkSteps(p: Phys, top: nat, path: Path, o: nat, flags: nat)
    requires Shape(p, top) && ValidPath(Sub(path, o))
    requires Reach(p.mem, top, path) != 0 && Child(p.mem, Reach(p.mem, top, path), o) == 0
    requires p.head + PAGE_SIZE <= p.end && !SizeBit(LowFlags(flags))
    ensures Stepped(p, WithTable(p, Reach(p.mem, top, path), o, flags), Some(p.head), top, Sub(path, o))
  {
    hide EntryOf, SizeBit, LowFlags, ReferencedOnce, GoodEntries;
    var t := Reach(p.mem, top, path);
    LinkKeepsShape(p, top, path, o, flags);
    forall other | ValidPath(other)
      ensures Reach(WithTable(p, t, o, flags).mem, top, other)
              == if other == Sub(path, o) then p.head else Reach(p.mem, top, other)
    {
      ReachAfterLink(p, top, path, o, flags, other);
    }
    StoreIsInTable(p, WithTable(p, t, o, flags), top, path, o, EntryOf(p.head, flags));
  }

  lemma NothingLinked(p: Phys, t: Option<nat>, top: nat, path: Path)
    requires Shape(p, top)
    requires t == if Reach(p.mem, top, path) == 0 then None else Some(Reach(p.mem, top, path))
    requires Reach(p.mem, top, path) != 0 || p.head + PAGE_SIZE > p.end
    ensures Stepped(p, p, t, top, path)
  {
    hide Shape;
  }

  /** The three outcomes of one level. */
  lemma DescendResult(p: Phys, top: nat, path: Path, o: nat, flags: nat)
    requires Shape(p, top) && ValidPath(Sub(path, o)) && Reach(p.mem, top, path) != 0
    requires !SizeBit(LowFlags(flags))
    ensures var t := Reach(p.mem, top, path);
            var u := Reach(p.mem, top, Sub(path, o));
            Descend(p, t, o, flags) == if u != 0 then (p, Some(u))
                                       else if p.head + PAGE_SIZE > p.end then (p, None)
                                       else (WithTable(p, t, o, flags), Some(p.head))
  {
    hide EntryOf, LowFlags, TablesInArena, ReferencedOnce, GoodEntries, U64;
    TableBelow(p, top, path, o);
    AllocOne(p);
    if p.head + PAGE_SIZE <= p.end {
      EntryFields(p.head, flags);
    }
  }

  lemma DescendSteps(p: Phys, top: nat, path: Path, o: nat, flags: nat)
    requires Shape(p, top) && ValidPath(Sub(path, o)) && Reach(p.mem, top, path) != 0
    requires !SizeBit(LowFlags(flags))
    ensures var (q, t) := Descend(p, Reach(p.mem, top, path), o, flags); Stepped(p, q, t, top, Sub(path, o))
  {
    hide Descend, Stepped, EntryOf;
    DescendResult(p, top, path, o, flags);
    var u := Reach(p.mem, top, Sub(path, o));
    if u == 0 && p.head + PAGE_SIZE <= p.end {
      LinkSteps(p, top, path, o, flags);
    } else {
      NothingLinked(p, if u == 0 then None else Some(u), top, Sub(path, o));
    }
  }

  lemma DescendTranslates(p: Phys, top: nat, path: Path, o: nat, flags: nat, w: nat)
    requires Shape(p, top) && ValidPath(Sub(path, o)) && Reach(p.mem, top, path) != 0
    requires !SizeBit(LowFlags(flags))
    ensures var (q, t) := Descend(p, Reach(p.mem, top, path), o, flags); SteppedAt(p, q, t, top, Sub(path, o), w)
  {
    hide Descend, EntryOf, Translate;
    DescendResult(p, top, path, o, flags);
    if Reach(p.mem, top, Sub(path, o)) == 0 && p.head + PAGE_SIZE <= p.end {
      TranslateAfterLink(p, top, path, o, flags, w);
      EntriesAfterLink(p, top, path, o, flags, w);
    }
  }

  // ---- one 4 KiB page ----

  predicate SmallFlags(flags: nat) { !WantsHuge(flags) && !SizeBit(LowFlags(flags)) }
  predicate HugeFlags(flags: nat) { WantsHuge(flags) && !SizeBit(LowFlags(flags)) }

  /** Tables that must be allocated before the leaf slot of v exists. */
  function MissingTables(m: Memory, top: nat, v: nat): nat
  {
    Missing(m, top, Path1(v)) + Missing(m, top, Path2(v)) + Missing(m, top, Path3(v))
  }

  lemma PlaceLeaf(p: Phys, top: nat, v: nat, paddr: Word, flags: nat)
    requires Shape(p, top) && Reach(p.mem, top, Path3(v)) != 0
    ensures var (q, ret) := Place(p, Reach(p.mem, top, Path3(v)), I1(v), paddr, flags);
            && Shape(q, top) && Extends(p, q, top) && q.head == p.head
            && (ret == 0 <==> !Present(E1(p.mem, top, v))) && (ret != 0 ==> q == p)
  {
    PathsAreValid(v);
    var t := Reach(p.mem, top, Path3(v));
    var e := EntryOf(paddr, flags);
    if !Present(Load(p.mem, Slot(t, I1(v)))) {
      EntryKeepsShape(p, top, Path3(v), I1(v), e);
      forall other | ValidPath(other)
        ensures Reach(WithEntry(p, t, I1(v), e).mem, top, other) == Reach(p.mem, top, other)
      {
        ReachAfterEntry(p, top, Path3(v), I1(v), e, other);
      }
      StoreIsInTable(p, WithEntry(p, t, I1(v), e), top, Path3(v), I1(v), e);
    }
  }

  lemma WalkDownSteps(p: Phys, top: nat, v: nat, flags: nat) returns (q: Phys, t: Option<nat>)
    requires Shape(p, top) && Reach(p.mem, top, Path1(v)) != 0 && !SizeBit(LowFlags(flags))
    ensures q == Descend(p, Reach(p.mem, top, Path1(v)), I3(v), flags).0
    ensures t == Descend(p, Reach(p.mem, top, Path1(v)), I3(v), flags).1
    ensures Stepped(p, q, t, top, Path2(v))
    ensures var (r, u) := WalkDown(p, Reach(p.mem, top, Path1(v)), v, flags);
            if t.None? then u.None? && r == q else Stepped(q, r, u, top, Path3(v))
  {
    PathsAreValid(v);
    DescendSteps(p, top, Path1(v), I3(v), flags);
    var r := Descend(p, Reach(p.mem, top, Path1(v)), I3(v), flags);
    q, t := r.0, r.1;
    if t.Some? {
      DescendSteps(q, top, Path2(v), I2(v), flags);
    }
  }

  /** `map_page` keeps the shape of the tree, and succeeds exactly when the leaf slot is free and
      there is room for the tables that are missing. */
  lemma MapPageShape(p: Phys, top: nat, v: nat, paddr: Word, flags: nat)
    requires Shape(p, top) && SmallFlags(flags)
    ensures var (q, ret) := MapPage(p, top, v, paddr, flags);
            && Shape(q, top) && Extends(p, q, top)
            && (ret == 0 <==> !Present(E1(p.mem, top, v))
                              && p.head + PAGE_SIZE * MissingTables(p.mem, top, v) <= p.end)
            && (ret == 0 ==> q.head == p.head + PAGE_SIZE * MissingTables(p.mem, top, v))
  {
    hide Descend, I1, I2, I3, I4, Translate, EntryOf, TablesInArena, ReferencedOnce, GoodEntries, OnlyTablesWritten,
         Place;
    PathsAreValid(v);
    DescendSteps(p, top, Root, I4(v), flags);
    DescendTranslates(p, top, Root, I4(v), flags, v);
    var (p1, t1) := Descend(p, top, I4(v), flags);
    if t1.Some? {
      var p2, t2 := WalkDownSteps(p1, top, v, flags);
      var (p3, t3) := WalkDown(p1, t1.value, v, flags);
      ExtendsTrans(p, p1, p2, top);
      DescendTranslates(p1, top, Path1(v), I3(v), flags, v);
      if t3.Some? {
        ExtendsTrans(p, p2, p3, top);
        DescendTranslates(p2, top, Path2(v), I2(v), flags, v);
        PlaceLeaf(p3, top, v, paddr, flags);
        ExtendsTrans(p, p3, MapPage(p, top, v, paddr, flags).0, top);
      }
    }
  }

  predicate SamePage(v: nat, w: nat) { Trim(v) / PAGE_SIZE == Trim(w) / PAGE_SIZE }
  predicate SameHugePage(v: nat, w: nat) { Trim(v) / PDPTE_COVERAGE == Trim(w) / PDPTE_COVERAGE }

  lemma LeafTranslates(p: Phys, top: nat, v: nat, paddr: Word, flags: nat, w: nat)
    requires Shape(p, top) && Reach(p.mem, top, Path3(v)) != 0
    requires paddr % PAGE_SIZE == 0 && paddr + PAGE_SIZE <= TWO52
    ensures var (q, ret) := Place(p, Reach(p.mem, top, Path3(v)), I1(v), paddr, flags);
            && Translate(q.mem, top, w) == (if ret == 0 && SamePage(v, w) then Some(paddr + w % PAGE_SIZE)
                                            else Translate(p.mem, top, w))
            && (HugeAt(q.mem, top, w) <==> HugeAt(p.mem, top, w))
  {
    hide Translate, EntryOf, Shape, Reach, Frame4K, Present;
    PathsAreValid(v);
    var e := EntryOf(paddr, flags);
    if !Present(E1(p.mem, top, v)) {
      EntryFields(paddr, flags);
      FrameOfTableEntry(e);
      TranslateAfterLeaf(p, top, v, e, w);
      SlotsDeterminePage(v, w);
      EntriesAfterEntry(p, top, Path3(v), I1(v), e, w);
    }
  }

  /** The translation of w after a 4 KiB page was mapped at v. */
  function AfterMapping(p: Phys, top: nat, v: nat, paddr: nat, w: nat): Option<nat>
  {
    if SamePage(v, w) then Some(paddr + w % PAGE_SIZE)
    else if HugeAt(p.mem, top, v) && SameHugePage(v, w) then None
    else Translate(p.mem, top, w)
  }

  /** Below a 1 GiB page no tables exist. */
  lemma TablesOfHuge(p: Phys, top: nat, v: nat)
    requires Shape(p, top) && HugeAt(p.mem, top, v)
    ensures Reach(p.mem, top, Path1(v)) != 0
    ensures Reach(p.mem, top, Path2(v)) == 0 && Reach(p.mem, top, Path3(v)) == 0
  {
    PathsAreValid(v);
    TableBelow(p, top, Path1(v), I3(v));
  }

  /** The translation of w after a call that failed: below a 1 GiB page it can be the page table
      that is missing, and then the page directory has already replaced the gigabyte. */
  function AfterFailing(p: Phys, top: nat, v: nat, w: nat): Option<nat>
  {
    if HugeAt(p.mem, top, v) && SameHugePage(v, w) && !Exhausted(p) then None else Translate(p.mem, top, w)
  }

  /** What the walk from the PDPT to the page table does to the translation of w. */
  lemma WalkDownTranslates(p: Phys, top: nat, v: nat, flags: nat, w: nat)
    requires Shape(p, top) && Reach(p.mem, top, Path1(v)) != 0 && !SizeBit(LowFlags(flags))
    ensures var (q, t) := WalkDown(p, Reach(p.mem, top, Path1(v)), v, flags);
            && Shape(q, top)
            && Translate(q.mem, top, w) == AfterFailing(p, top, v, w)
            && (HugeAt(q.mem, top, w) ==> HugeAt(p.mem, top, w))
            && (t.Some? ==> t.value == Reach(q.mem, top, Path3(v)) != 0)
            && (t.Some? && HugeAt(p.mem, top, v) ==> !Exhausted(p))
  {
    hide Descend, I1, I2, I3, I4, Translate, EntryOf, Extends, HugeAt, Shape;
    PathsAreValid(v);
    SlotsDeterminePage(v, w);
    var p2, t2 := WalkDownSteps(p, top, v, flags);
    DescendTranslates(p, top, Path1(v), I3(v), flags, w);
    if HugeAt(p.mem, top, v) {
      TablesOfHuge(p, top, v);
    } else if Path2(w) == Path2(v) && Reach(p.mem, top, Path2(v)) == 0 {
      UnlinkedRegion(p, top, v, w);
    }
    if t2.Some? {
      DescendTranslates(p2, top, Path2(v), I2(v), flags, w);
    }
  }

  /** Looking up or linking the PDPT of v changes no translation. */
  lemma FirstStepTranslates(p: Phys, top: nat, v: nat, flags: nat, w: nat)
    requires Shape(p, top) && !SizeBit(LowFlags(flags))
    ensures var (q, t) := Descend(p, top, I4(v), flags);
            && (t.None? ==> q == p && !HugeAt(p.mem, top, v))
            && (t.Some? ==> t.value == Reach(q.mem, top, Path1(v)) != 0)
            && Shape(q, top) && (HugeAt(q.mem, top, v) <==> HugeAt(p.mem, top, v))
            && (HugeAt(p.mem, top, v) ==> q.head == p.head && q.end == p.end)
            && Translate(q.mem, top, w) == Translate(p.mem, top, w)
            && (HugeAt(q.mem, top, w) ==> HugeAt(p.mem, top, w))
  {
    hide Descend, Translate, EntryOf, TablesInArena, ReferencedOnce, GoodEntries, I1, I2, I3, I4;
    PathsAreValid(v);
    DescendSteps(p, top, Root, I4(v), flags);
    DescendTranslates(p, top, Root, I4(v), flags, w);
    DescendTranslates(p, top, Root, I4(v), flags, v);
    if HugeAt(p.mem, top, v) {
      TablesOfHuge(p, top, v);
    }
  }

  /** What `map_page` does to the translation of an arbitrary address w, successful or not. */
  lemma MapPageTranslates(p: Phys, top: nat, v: nat, paddr: Word, flags: nat, w: nat)
    requires Shape(p, top) && SmallFlags(flags)
    requires paddr % PAGE_SIZE == 0 && paddr + PAGE_SIZE <= TWO52
    ensures var (q, ret) := MapPage(p, top, v, paddr, flags);
            && Translate(q.mem, top, w) == (if ret == 0 then AfterMapping(p, top, v, paddr, w)
                                            else AfterFailing(p, top, v, w))
            && (HugeAt(q.mem, top, w) ==> HugeAt(p.mem, top, w))
  {
    hide Descend, WalkDown, I4, Translate, Shape, Place, SamePage, SameHugePage, HugeAt;
    FirstStepTranslates(p, top, v, flags, w);
    var (p1, t1) := Descend(p, top, I4(v), flags);
    if t1.Some? {
      WalkDownTranslates(p1, top, v, flags, w);
      var (p3, t3) := WalkDown(p1, t1.value, v, flags);
      if t3.Some? {
        LeafTranslates(p3, top, v, paddr, flags, w);
      }
    }
  }

  /** Another page of v's 1 GiB region. */
  function Neighbour(v: nat): nat
  {
    if v % PDPTE_COVERAGE < 0x2000_0000 then v + 0x2000_0000 else v - 0x2000_0000
  }

  lemma NeighbourIsNear(v: nat)
    ensures SameHugePage(v, Neighbour(v)) && !SamePage(v, Neighbour(v))
  {
    var m, t := v / TWO48, Trim(v);
    var g, r := t / PDPTE_COVERAGE, t % PDPTE_COVERAGE;
    DivMod(v, PDPTE_COVERAGE, 0x4_0000 * m + g, r);
    var d := if r < 0x2000_0000 then 0x2000_0000 else -0x2000_0000;
    DivMod(Neighbour(v), TWO48, m, t + d);
    DivMod(t + d, PDPTE_COVERAGE, g, r + d);
    DivMod(t + d, PAGE_SIZE, t / PAGE_SIZE + d / PAGE_SIZE, t % PAGE_SIZE);
  }

  /** Exactly when a 4 KiB `map_page`, successful or not, keeps every earlier translation: its PDPT
      entry must not be a 1 GiB page, which `walk_table` replaces by an empty table, unless there is
      not even a frame for that table. */
  lemma KeepsTranslationsExactly(p: Phys, top: nat, v: nat, paddr: Word, flags: nat)
    requires Shape(p, top) && SmallFlags(flags)
    requires paddr % PAGE_SIZE == 0 && paddr + PAGE_SIZE <= TWO52
    ensures (forall w :: Translate(p.mem, top, w) != None ==>
               Translate(MapPage(p, top, v, paddr, flags).0.mem, top, w) == Translate(p.mem, top, w))
            <==> !HugeAt(p.mem, top, v) || Exhausted(p)
  {
    hide MapPage, Translate, Shape;
    var (q, ret) := MapPage(p, top, v, paddr, flags);
    MapPageShape(p, top, v, paddr, flags);
    if HugeAt(p.mem, top, v) && !Exhausted(p) {
      var w := Neighbour(v);
      NeighbourIsNear(v);
      SameSlots(p.mem, top, v, w);
      TranslateViaTables(p, top, w);
      MapPageTranslates(p, top, v, paddr, flags, w);
    } else {
      if HugeAt(p.mem, top, v) {
        TablesOfHuge(p, top, v);
      }
      forall w | Translate(p.mem, top, w) != None
        ensures Translate(q.mem, top, w) == Translate(p.mem, top, w)
      {
        MapPageTranslates(p, top, v, paddr, flags, w);
        SameSlots(p.mem, top, v, w);
        if ret == 0 && SamePage(v, w) {
          FreeSlot(p, top, w);
        }
      }
    }
  }

  /** Where there is neither a page directory nor a huge page nothing translates. */
  lemma UnlinkedRegion(p: Phys, top: nat, v: nat, w: nat)
    requires Shape(p, top) && Path2(w) == Path2(v) && Reach(p.mem, top, Path2(v)) == 0
    requires !HugeAt(p.mem, top, v)
    ensures Translate(p.mem, top, w) == None
  {
    TranslateViaTables(p, top, w);
  }

  // ---- one 1 GiB page ----

  lemma FrameOfHuge(e: Word, paddr: nat)
    requires paddr % PDPTE_COVERAGE == 0 && paddr < TWO52 && PageBase(e) == paddr
    ensures Frame1G(e) == paddr
  {
    var k := paddr / PDPTE_COVERAGE;
    DivMod(e, PDPTE_COVERAGE, k, e % PAGE_SIZE);
    DivMod(k, 0x40_0000, 0, k);
  }

  lemma HugeEntry(paddr: Word, flags: nat)
    requires paddr % PDPTE_COVERAGE == 0 && paddr + PDPTE_COVERAGE <= TWO52
    ensures var e := EntryOf(paddr, Or(flags, PG_SIZE));
            Present(e) && SizeBit(e) && Frame1G(e) == paddr
  {
    hide Or, EntryOf, PageBase, SizeBit, Frame1G, LowFlags;
    SizeFlag(flags);
    DivMod(paddr, PAGE_SIZE, paddr / PDPTE_COVERAGE * 0x4_0000, 0);
    EntryFields(paddr, Or(flags, PG_SIZE));
    FrameOfHuge(EntryOf(paddr, Or(flags, PG_SIZE)), paddr);
  }

  lemma PlaceHuge(p: Phys, top: nat, v: nat, paddr: Word, flags: nat)
    requires Shape(p, top) && Reach(p.mem, top, Path1(v)) != 0
    requires paddr % PDPTE_COVERAGE == 0 && paddr + PDPTE_COVERAGE <= TWO52
    ensures var (q, ret) := Place(p, Reach(p.mem, top, Path1(v)), I3(v), paddr, Or(flags, PG_SIZE));
            && Shape(q, top) && Extends(p, q, top) && q.head == p.head
            && (ret == 0 <==> !Present(E3(p.mem, top, v))) && (ret != 0 ==> q == p)
  {
    PathsAreValid(v);
    var t := Reach(p.mem, top, Path1(v));
    var e := EntryOf(paddr, Or(flags, PG_SIZE));
    HugeEntry(paddr, flags);
    if !Present(E3(p.mem, top, v)) {
      EntryKeepsShape(p, top, Path1(v), I3(v), e);
      forall other | ValidPath(other)
        ensures Reach(WithEntry(p, t, I3(v), e).mem, top, other) == Reach(p.mem, top, other)
      {
        ReachAfterEntry(p, top, Path1(v), I3(v), e, other);
      }
      StoreIsInTable(p, WithEntry(p, t, I3(v), e), top, Path1(v), I3(v), e);
    }
  }

  lemma PlaceHugeTranslates(p: Phys, top: nat, v: nat, paddr: Word, flags: nat, w: nat)
    requires Shape(p, top) && Reach(p.mem, top, Path1(v)) != 0
    requires paddr % PDPTE_COVERAGE == 0 && paddr + PDPTE_COVERAGE <= TWO52
    ensures var (q, ret) := Place(p, Reach(p.mem, top, Path1(v)), I3(v), paddr, Or(flags, PG_SIZE));
            && Translate(q.mem, top, w) == (if ret == 0 && SameHugePage(v, w) then Some(paddr + w % PDPTE_COVERAGE)
                                            else Translate(p.mem, top, w))
            && (HugeAt(q.mem, top, w) ==> HugeAt(p.mem, top, w) || (ret == 0 && SameHugePage(v, w)))
            && (ret == 0 && SameHugePage(v, w) ==> HugeAt(q.mem, top, w))
  {
    hide Translate, EntryOf, Shape, Reach, Frame1G, Present, SizeBit, Or;
    PathsAreValid(v);
    HugeEntry(paddr, flags);
    if !Present(E3(p.mem, top, v)) {
      var e := EntryOf(paddr, Or(flags, PG_SIZE));
      TranslateAfterHuge(p, top, v, e, w);
      SlotsDeterminePage(v, w);
      EntriesAfterEntry(p, top, Path1(v), I3(v), e, w);
    }
  }

  lemma MapHugeShape(p: Phys, top: nat, v: nat, paddr: Word, flags: nat)
    requires Shape(p, top) && HugeFlags(flags)
    requires paddr % PDPTE_COVERAGE == 0 && paddr + PDPTE_COVERAGE <= TWO52
    ensures var (q, ret) := MapPage(p, top, v, paddr, flags);
            && Shape(q, top) && Extends(p, q, top)
            && (ret == 0 <==> !Present(E3(p.mem, top, v))
                              && p.head + PAGE_SIZE * Missing(p.mem, top, Path1(v)) <= p.end)
  {
    PathsAreValid(v);
    DescendSteps(p, top, Root, I4(v), flags);
    var (p1, t1) := Descend(p, top, I4(v), flags);
    if t1.Some? {
      DescendTranslates(p, top, Root, I4(v), flags, v);
      PlaceHuge(p1, top, v, paddr, flags);
      ExtendsTrans(p, p1, MapPage(p, top, v, paddr, flags).0, top);
    }
  }

  lemma MapHugeTranslates(p: Phys, top: nat, v: nat, paddr: Word, flags: nat, w: nat)
    requires Shape(p, top) && HugeFlags(flags)
    requires paddr % PDPTE_COVERAGE == 0 && paddr + PDPTE_COVERAGE <= TWO52
    ensures var (q, ret) := MapPage(p, top, v, paddr, flags);
            && Translate(q.mem, top, w) == (if ret == 0 && SameHugePage(v, w) then Some(paddr + w % PDPTE_COVERAGE)
                                            else Translate(p.mem, top, w))
            && (HugeAt(q.mem, top, w) ==> HugeAt(p.mem, top, w) || (ret == 0 && SameHugePage(v, w)))
            && (ret == 0 && SameHugePage(v, w) ==> HugeAt(q.mem, top, w))
  {
    PathsAreValid(v);
    DescendSteps(p, top, Root, I4(v), flags);
    var (p1, t1) := Descend(p, top, I4(v), flags);
    if t1.Some? {
      DescendTranslates(p, top, Root, I4(v), flags, w);
      PlaceHugeTranslates(p1, top, v, paddr, flags, w);
    }
  }

  // ---- the entry that maps a page ----

  /** Looking up or linking a table keeps the last entry of every walk, if it replaces no huge page. */
  lemma DescendKeepsLast(p: Phys, top: nat, path: Path, o: nat, flags: nat, w: nat)
    requires Shape(p, top) && ValidPath(Sub(path, o)) && Reach(p.mem, top, path) != 0
    requires !SizeBit(LowFlags(flags)) && (Path2(w) == Sub(path, o) ==> !HugeAt(p.mem, top, w))
    ensures var q := Descend(p, Reach(p.mem, top, path), o, flags).0;
            Shape(q, top) && LastEntry(q.mem, top, w) == LastEntry(p.mem, top, w)
  {
    hide Descend, Translate, LastEntry, EntryOf, ArenaOk, TablesInArena, ReferencedOnce, GoodEntries, I1, I2, I3, I4;
    DescendSteps(p, top, path, o, flags);
    DescendTranslates(p, top, path, o, flags, w);
    var q := Descend(p, Reach(p.mem, top, path), o, flags).0;
    LastViaTables(p, top, w);
    LastViaTables(q, top, w);
  }

  lemma LeafLast(p: Phys, top: nat, v: nat, paddr: Word, flags: nat, w: nat)
    requires Shape(p, top) && Reach(p.mem, top, Path3(v)) != 0 && paddr % PAGE_SIZE == 0
    ensures var (q, ret) := Place(p, Reach(p.mem, top, Path3(v)), I1(v), paddr, flags);
            && Shape(q, top) && (ret == 0 ==> !Present(E1(p.mem, top, v)))
            && LastEntry(q.mem, top, w) == (if ret == 0 && SamePage(v, w) then EntryOf(paddr, flags)
                                            else LastEntry(p.mem, top, w))
  {
    hide LastEntry, EntryOf, Shape, Reach;
    PathsAreValid(v);
    PathsAreValid(w);
    PlaceLeaf(p, top, v, paddr, flags);
    var q := Place(p, Reach(p.mem, top, Path3(v)), I1(v), paddr, flags).0;
    var e := EntryOf(paddr, flags);
    LastViaTables(p, top, w);
    LastViaTables(q, top, w);
    if !Present(E1(p.mem, top, v)) {
      EntryFields(paddr, flags);
      SlotsDeterminePage(v, w);
      EntriesAfterEntry(p, top, Path3(v), I1(v), e, w);
      if SamePage(v, w) {
        LeafIsSmall(q, top, w);
      }
    }
  }

  /** A present leaf entry is below no huge page. */
  lemma LeafIsSmall(p: Phys, top: nat, v: nat)
    requires Shape(p, top) && Present(E1(p.mem, top, v))
    ensures !HugeAt(p.mem, top, v)
  {
    TranslateViaTables(p, top, v);
  }

  lemma MapPageLast(p: Phys, top: nat, v: nat, paddr: Word, flags: nat, w: nat)
    requires Shape(p, top) && SmallFlags(flags) && paddr % PAGE_SIZE == 0 && !HugeAt(p.mem, top, v)
    ensures var (q, ret) := MapPage(p, top, v, paddr, flags);
            LastEntry(q.mem, top, w) == if ret == 0 && SamePage(v, w) then EntryOf(paddr, flags)
                                        else LastEntry(p.mem, top, w)
  {
    hide Descend, LastEntry, EntryOf, TablesInArena, ReferencedOnce, GoodEntries, ArenaOk, Place, SamePage, HugeAt,
         I1, I2, I3, I4;
    PathsAreValid(v);
    DescendKeepsLast(p, top, Root, I4(v), flags, w);
    FirstStepTranslates(p, top, v, flags, w);
    var (p1, t1) := Descend(p, top, I4(v), flags);
    if t1.Some? {
      if Path2(w) == Path2(v) {
        SameHuge(p1.mem, top, v, w);
      }
      DescendKeepsLast(p1, top, Path1(v), I3(v), flags, w);
      var p2, t2 := WalkDownSteps(p1, top, v, flags);
      if t2.Some? {
        DescendKeepsLast(p2, top, Path2(v), I2(v), flags, w);
        var (p3, t3) := WalkDown(p1, t1.value, v, flags);
        if t3.Some? {
          LeafLast(p3, top, v, paddr, flags, w);
        }
      }
    }
  }

  lemma SameHuge(m: Memory, top: nat, v: nat, w: nat)
    requires Path2(w) == Path2(v)
    ensures HugeAt(m, top, w) == HugeAt(m, top, v)
  {
  }

  lemma MapHugeLast(p: Phys, top: nat, v: nat, paddr: Word, flags: nat, w: nat)
    requires Shape(p, top) && HugeFlags(flags)
    requires paddr % PDPTE_COVERAGE == 0 && paddr + PDPTE_COVERAGE <= TWO52
    ensures var (q, ret) := MapPage(p, top, v, paddr, flags);
            LastEntry(q.mem, top, w) == if ret == 0 && SameHugePage(v, w) then EntryOf(paddr, Or(flags, PG_SIZE))
                                        else LastEntry(p.mem, top, w)
  {
    hide Descend, LastEntry, EntryOf, TablesInArena, ReferencedOnce, GoodEntries, ArenaOk, SameHugePage, Or, Place,
         I1, I2, I3, I4;
    PathsAreValid(v);
    DescendKeepsLast(p, top, Root, I4(v), flags, w);
    DescendSteps(p, top, Root, I4(v), flags);
    var (p1, t1) := Descend(p, top, I4(v), flags);
    if t1.Some? {
      PlaceHugeLast(p1, top, v, paddr, flags, w);
    }
  }

  lemma PlaceHugeLast(p: Phys, top: nat, v: nat, paddr: Word, flags: nat, w: nat)
    requires Shape(p, top) && Reach(p.mem, top, Path1(v)) != 0
    requires paddr % PDPTE_COVERAGE == 0 && paddr + PDPTE_COVERAGE <= TWO52
    ensures var (q, ret) := Place(p, Reach(p.mem, top, Path1(v)), I3(v), paddr, Or(flags, PG_SIZE));
            LastEntry(q.mem, top, w) == if ret == 0 && SameHugePage(v, w) then EntryOf(paddr, Or(flags, PG_SIZE))
                                        else LastEntry(p.mem, top, w)
  {
    hide LastEntry, EntryOf, Shape, Reach, Or, Frame1G;
    PathsAreValid(v);
    HugeEntry(paddr, flags);
    PlaceHuge(p, top, v, paddr, flags);
    var q := Place(p, Reach(p.mem, top, Path1(v)), I3(v), paddr, Or(flags, PG_SIZE)).0;
    LastViaTables(p, top, w);
    LastViaTables(q, top, w);
    if !Present(E3(p.mem, top, v)) {
      SlotsDeterminePage(v, w);
      EntriesAfterEntry(p, top, Path1(v), I3(v), EntryOf(paddr, Or(flags, PG_SIZE)), w);
    }
  }

  /** The entries carry the flags that were asked for. */
  lemma SmallLow(paddr: Word, flags: nat)
    requires paddr % PAGE_SIZE == 0 && SmallFlags(flags)
    ensures EntryOf(paddr, flags) % 0x1000 == LowOf(flags)
  {
    hide EntryOf;
    EntryExactly(paddr, flags);
    DivMod(EntryOf(paddr, flags), 0x1000, paddr / 0x1000, LowOf(flags));
  }

  lemma HugeLow(paddr: Word, flags: nat)
    requires paddr % PAGE_SIZE == 0 && HugeFlags(flags)
    ensures EntryOf(paddr, Or(flags, PG_SIZE)) % 0x1000 == LowOf(flags)
  {
    hide EntryOf, Or;
    OrBit7(flags);
    var f := Or(flags, PG_SIZE);
    var low := flags % 0x1000;
    LowSize(flags);
    assert f == flags + 0x80;
    DivMod(f, 0x1000, flags / 0x1000, low + 0x80);
    EntryExactly(paddr, f);
    DivMod(EntryOf(paddr, f), 0x1000, paddr / 0x1000, LowOf(flags));
  }

  lemma LowSize(flags: nat)
    requires !SizeBit(flags % 0x1000)
    ensures !SizeBit(flags) && flags % 0x1000 < 0x1000 - 0x80
  {
    var low := flags % 0x1000;
    LowBits(flags - low, low);
    if low >= 0x1000 - 0x80 {
      DivMod(low, 0x80, 31, low - 31 * 0x80);
    }
  }

  // ---- either page size ----

  function Span(flags: nat): nat { if WantsHuge(flags) then PDPTE_COVERAGE else PAGE_SIZE }
  /** Pages of this size in the 48-bit address space. */
  function Count(flags: nat): nat { if WantsHuge(flags) then 0x4_0000 else 0x10_0000_0000 }
  function Number(v: nat, flags: nat): nat
  {
    if WantsHuge(flags) then Trim(v) / PDPTE_COVERAGE else Trim(v) / PAGE_SIZE
  }
  function Within(w: nat, flags: nat): nat
  {
    if WantsHuge(flags) then w % PDPTE_COVERAGE else w % PAGE_SIZE
  }

  /** What the code assumes of its callers. */
  ghost predicate CanMap(m: Memory, top: nat, v: nat, paddr: Word, flags: nat)
  {
    && !SizeBit(LowFlags(flags))
    && (if WantsHuge(flags) then paddr % PDPTE_COVERAGE == 0 && paddr + PDPTE_COVERAGE <= TWO52
        else paddr % PAGE_SIZE == 0 && paddr + PAGE_SIZE <= TWO52)
    && (!WantsHuge(flags) ==> PlainSlot(m, top, I4(v)))
  }

  lemma FreeSlot(p: Phys, top: nat, v: nat)
    requires Shape(p, top) && !HugeAt(p.mem, top, v)
    requires !Present(E1(p.mem, top, v)) || !Present(E3(p.mem, top, v))
    ensures Translate(p.mem, top, v) == None
  {
    TranslateViaTables(p, top, v);
  }

  ghost predicate Mapped1(p: Phys, q: Phys, ret: nat, top: nat, v: nat, paddr: nat, flags: nat, w: nat)
  {
    && Translate(q.mem, top, w) == (if ret == 0 && Number(v, flags) == Number(w, flags)
                                    then Some(paddr + Within(w, flags)) else Translate(p.mem, top, w))
    && (HugeAt(q.mem, top, w) ==> HugeAt(p.mem, top, w)
                                  || (ret == 0 && WantsHuge(flags) && Number(v, flags) == Number(w, flags)))
    && (ret == 0 && Number(v, flags) == Number(w, flags) ==> Translate(p.mem, top, w) == None)
    && Entry1(p, q, ret, top, v, flags, w)
  }

  /** The entry that maps w has the flags asked for, or is the one it was. */
  predicate Entry1(p: Phys, q: Phys, ret: nat, top: nat, v: nat, flags: nat, w: nat)
  {
    if ret == 0 && Number(v, flags) == Number(w, flags) then LastEntry(q.mem, top, w) % 0x1000 == LowOf(flags)
    else LastEntry(q.mem, top, w) == LastEntry(p.mem, top, w)
  }

  lemma SameSlots(m: Memory, top: nat, v: nat, w: nat)
    ensures SameHugePage(v, w) ==> E3(m, top, v) == E3(m, top, w)
    ensures SamePage(v, w) ==> E1(m, top, v) == E1(m, top, w) && E3(m, top, v) == E3(m, top, w)
  {
    SlotsDeterminePage(v, w);
  }

  lemma OneHugePage(p: Phys, top: nat, v: nat, paddr: Word, flags: nat, w: nat)
    requires Shape(p, top) && CanMap(p.mem, top, v, paddr, flags) && WantsHuge(flags)
    ensures var (q, ret) := MapPage(p, top, v, paddr, flags); Mapped1(p, q, ret, top, v, paddr, flags, w)
  {
    hide MapPage, Translate, LastEntry, EntryOf;
    MapHugeTranslates(p, top, v, paddr, flags, w);
    MapHugeShape(p, top, v, paddr, flags);
    MapHugeLast(p, top, v, paddr, flags, w);
    AlignedHuge(paddr);
    HugeLow(paddr, flags);
    SameSlots(p.mem, top, v, w);
    if !Present(E3(p.mem, top, w)) {
      FreeSlot(p, top, w);
    }
  }

  lemma AlignedHuge(paddr: nat)
    requires paddr % PDPTE_COVERAGE == 0
    ensures paddr % PAGE_SIZE == 0
  {
    DivMod(paddr, PAGE_SIZE, paddr / PDPTE_COVERAGE * 0x4_0000, 0);
  }

  lemma AfterMappingIsMapped1(p: Phys, q: Phys, ret: nat, top: nat, v: nat, paddr: nat, flags: nat, w: nat)
    requires !HugeAt(p.mem, top, v) && !WantsHuge(flags)
    requires Translate(q.mem, top, w)
             == if ret == 0 then AfterMapping(p, top, v, paddr, w) else Translate(p.mem, top, w)
    requires HugeAt(q.mem, top, w) ==> HugeAt(p.mem, top, w)
    requires ret == 0 && SamePage(v, w) ==> Translate(p.mem, top, w) == None
    requires Entry1(p, q, ret, top, v, flags, w)
    ensures Mapped1(p, q, ret, top, v, paddr, flags, w)
  {
  }

  lemma OneSmallPage(p: Phys, top: nat, v: nat, paddr: Word, flags: nat, w: nat)
    requires Shape(p, top) && CanMap(p.mem, top, v, paddr, flags) && !WantsHuge(flags)
    ensures var (q, ret) := MapPage(p, top, v, paddr, flags); Mapped1(p, q, ret, top, v, paddr, flags, w)
  {
    hide MapPage, Translate, LastEntry, EntryOf;
    assert !HugeAt(p.mem, top, v);
    MapPageLast(p, top, v, paddr, flags, w);
    SmallLow(paddr, flags);
    MapPageTranslates(p, top, v, paddr, flags, w);
    var (q, ret) := MapPage(p, top, v, paddr, flags);
    assert ret == 0 && SamePage(v, w) ==> Translate(p.mem, top, w) == None by {
      MapPageShape(p, top, v, paddr, flags);
      SameSlots(p.mem, top, v, w);
      if SamePage(v, w) && !Present(E1(p.mem, top, w)) {
        FreeSlot(p, top, w);
      }
    }
    AfterMappingIsMapped1(p, q, ret, top, v, paddr, flags, w);
  }

  /** A page is mapped where nothing translated, and every other address keeps its translation. */
  lemma OnePage(p: Phys, top: nat, v: nat, paddr: Word, flags: nat, w: nat)
    requires Shape(p, top) && CanMap(p.mem, top, v, paddr, flags)
    ensures var (q, ret) := MapPage(p, top, v, paddr, flags); Mapped1(p, q, ret, top, v, paddr, flags, w)
  {
    if WantsHuge(flags) {
      OneHugePage(p, top, v, paddr, flags, w);
    } else {
      OneSmallPage(p, top, v, paddr, flags, w);
    }
  }

  lemma OnePageShape(p: Phys, top: nat, v: nat, paddr: Word, flags: nat)
    requires Shape(p, top) && CanMap(p.mem, top, v, paddr, flags)
    ensures var (q, ret) := MapPage(p, top, v, paddr, flags); Shape(q, top) && Extends(p, q, top)
  {
    if WantsHuge(flags) {
      MapHugeShape(p, top, v, paddr, flags);
    } else {
      MapPageShape(p, top, v, paddr, flags);
    }
  }
}
