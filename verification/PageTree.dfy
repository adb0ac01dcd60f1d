/** The shape of the page tree in physical memory, and what a single store to a table does to
    the tables that can be reached and to the translation of every address. */
module PageTree {
  import opened Bits
  import opened Paging
  import opened Wrappers

  /** The slots followed from the top-level table down to a table. */
  datatype Path = Root | Sub(up: Path, slot: nat)

  function Depth(path: Path): nat
  {
    match path case Root => 0 case Sub(up, _) => 1 + Depth(up)
  }

  predicate SlotsInTable(path: Path)
  {
    match path case Root => true case Sub(up, o) => o < PTABLE_LEN && SlotsInTable(up)
  }

  /** A path to one of the four levels of tables. */
  predicate ValidPath(path: Path) { Depth(path) <= 3 && SlotsInTable(path) }

  function Child(m: Memory, table: nat, o: nat): nat
  {
    var e := Load(m, Slot(table, o));
    if ValidTable(e) then PageBase(e) else 0
  }

  /** The table a path leads to, or 0. */
  function Reach(m: Memory, top: nat, path: Path): nat
  {
    match path
    case Root => top
    case Sub(up, o) =>
      var t := Reach(m, top, up);
      if t == 0 then 0 else Child(m, t, o)
  }

  function Path1(v: nat): Path { Sub(Root, I4(v)) }
  function Path2(v: nat): Path { Sub(Path1(v), I3(v)) }
  function Path3(v: nat): Path { Sub(Path2(v), I2(v)) }

  /** Physical memory together with the bump allocator's arena. */
  datatype Phys = Phys(mem: Memory, begin: Word, head: Word, end: Word)

  ghost predicate ArenaOk(p: Phys)
  {
    && p.begin % PAGE_SIZE == 0 && p.head % PAGE_SIZE == 0
    && 0 < p.begin <= p.head <= p.end <= 8 * |p.mem| <= TWO52
    && forall i :: p.head / 8 <= i < p.end / 8 ==> p.mem[i] == 0
  }

  ghost predicate TablesInArena(p: Phys, top: nat)
  {
    forall path :: ValidPath(path) && Reach(p.mem, top, path) != 0 ==>
      var t := Reach(p.mem, top, path);
      t % PAGE_SIZE == 0 && p.begin <= t && t + PAGE_SIZE <= p.head
  }

  ghost predicate ReferencedOnce(m: Memory, top: nat)
  {
    forall path, other | ValidPath(path) && ValidPath(other) && Reach(m, top, path) != 0
      :: Reach(m, top, path) == Reach(m, top, other) ==> path == other
  }

  /** No entry points to a table at address 0, and no page directory maps a 2 MiB page. */
  predicate GoodEntry(e: Word, depth: nat)
  {
    (depth < 3 && ValidTable(e) ==> PageBase(e) != 0) && (depth == 2 ==> !(Present(e) && SizeBit(e)))
  }

  predicate EntriesOf(m: Memory, table: nat, depth: nat)
  {
    forall o :: 0 <= o < PTABLE_LEN ==> GoodEntry(Load(m, Slot(table, o)), depth)
  }

  ghost predicate GoodEntries(m: Memory, top: nat)
  {
    forall path :: ValidPath(path) && Reach(m, top, path) != 0
                   ==> EntriesOf(m, Reach(m, top, path), Depth(path))
  }

  /** Every table that can be reached is a page-aligned frame the allocator handed out, no frame is
      referenced by two slots, and the arena above its head is still zero. */
  ghost predicate Shape(p: Phys, top: nat)
  {
    top != 0 && ArenaOk(p) && TablesInArena(p, top) && ReferencedOnce(p.mem, top) && GoodEntries(p.mem, top)
  }

  predicate TableHolds(m: Memory, top: nat, path: Path, a: nat)
  {
    ValidPath(path) && Reach(m, top, path) != 0 && Reach(m, top, path) <= a < Reach(m, top, path) + PAGE_SIZE
  }

  /** Byte a of physical memory belongs to a page table. */
  ghost predicate InTable(m: Memory, top: nat, a: nat)
  {
    exists path :: TableHolds(m, top, path, a)
  }

  // ---- stores into tables ----

  lemma SlotsAreDistinct(t: nat, o: nat, u: nat, k: nat)
    requires t % PAGE_SIZE == 0 && u % PAGE_SIZE == 0 && o < PTABLE_LEN && k < PTABLE_LEN
    ensures Slot(t, o) == Slot(u, k) <==> t == u && o == k
    ensures Slot(t, o) % 8 == 0
  {
    DivMod(Slot(t, o), PAGE_SIZE, t / PAGE_SIZE, 8 * o);
    DivMod(Slot(u, k), PAGE_SIZE, u / PAGE_SIZE, 8 * k);
    DivMod(Slot(t, o), 8, t / PAGE_SIZE * PTABLE_LEN + o, 0);
  }

  lemma LoadAfterStore(m: Memory, t: nat, o: nat, e: Word, u: nat, k: nat)
    requires t % PAGE_SIZE == 0 && u % PAGE_SIZE == 0 && o < PTABLE_LEN && k < PTABLE_LEN
    requires t + PAGE_SIZE <= 8 * |m|
    ensures Load(Store(m, Slot(t, o), e), Slot(u, k)) == if t == u && o == k then e else Load(m, Slot(u, k))
  {
    SlotsAreDistinct(t, o, u, k);
    SlotsAreDistinct(u, k, t, o);
    LoadStore(m, Slot(t, o), e, Slot(u, k));
  }

  function WithTable(p: Phys, table: nat, o: nat, flags: nat): Phys
    requires p.head + PAGE_SIZE < TWO64
  {
    Phys(Store(p.mem, Slot(table, o), EntryOf(p.head, flags)), p.begin, p.head + PAGE_SIZE, p.end)
  }

  lemma FreshFrameIsZero(p: Phys, k: nat)
    requires ArenaOk(p) && p.head + PAGE_SIZE <= p.end && k < PTABLE_LEN
    ensures Load(p.mem, Slot(p.head, k)) == 0
  {
  }

  /** Linking a fresh frame into an unused slot adds exactly one table. */
  lemma {:induction false} ReachAfterLink(p: Phys, top: nat, path: Path, o: nat, flags: nat, other: Path)
    requires Shape(p, top) && ValidPath(Sub(path, o)) && ValidPath(other)
    requires Reach(p.mem, top, path) != 0 && Child(p.mem, Reach(p.mem, top, path), o) == 0
    requires p.head + PAGE_SIZE <= p.end && !SizeBit(LowFlags(flags))
    ensures Reach(WithTable(p, Reach(p.mem, top, path), o, flags).mem, top, other)
            == if other == Sub(path, o) then p.head else Reach(p.mem, top, other)
  {
    var t := Reach(p.mem, top, path);
    var e := EntryOf(p.head, flags);
    var m := WithTable(p, t, o, flags).mem;
    match other
    case Root =>
    case Sub(up, k) =>
      ReachAfterLink(p, top, path, o, flags, up);
      EntryFields(p.head, flags);
      var u := Reach(m, top, up);
      if up == Sub(path, o) {
        LoadAfterStore(p.mem, t, o, e, p.head, k);
        FreshFrameIsZero(p, k);
      } else if u != 0 {
        LoadAfterStore(p.mem, t, o, e, u, k);
      }
  }

  lemma LinkKeepsEntries(p: Phys, top: nat, path: Path, o: nat, flags: nat, other: Path)
    requires Shape(p, top) && ValidPath(Sub(path, o)) && ValidPath(other)
    requires Reach(p.mem, top, path) != 0 && Child(p.mem, Reach(p.mem, top, path), o) == 0
    requires p.head + PAGE_SIZE <= p.end && !SizeBit(LowFlags(flags))
    ensures var q := WithTable(p, Reach(p.mem, top, path), o, flags);
            Reach(q.mem, top, other) != 0 ==> EntriesOf(q.mem, Reach(q.mem, top, other), Depth(other))
  {
    var t := Reach(p.mem, top, path);
    var q := WithTable(p, t, o, flags);
    ReachAfterLink(p, top, path, o, flags, other);
    EntryFields(p.head, flags);
    var u := Reach(q.mem, top, other);
    if u != 0 {
      assert other == Sub(path, o) || EntriesOf(p.mem, u, Depth(other));
      forall k | 0 <= k < PTABLE_LEN
        ensures GoodEntry(Load(q.mem, Slot(u, k)), Depth(other))
      {
        LoadAfterStore(p.mem, t, o, EntryOf(p.head, flags), u, k);
        if other == Sub(path, o) {
          FreshFrameIsZero(p, k);
        } else if u == t && k == o {
          assert other == path;
        }
      }
    }
  }

  lemma LinkKeepsArena(p: Phys, t: nat, o: nat, flags: nat)
    requires ArenaOk(p) && p.head + PAGE_SIZE <= p.end
    requires t % PAGE_SIZE == 0 && t + PAGE_SIZE <= p.head && o < PTABLE_LEN
    ensures ArenaOk(WithTable(p, t, o, flags))
  {
  }

  lemma LinkKeepsShape(p: Phys, top: nat, path: Path, o: nat, flags: nat)
    requires Shape(p, top) && ValidPath(Sub(path, o))
    requires Reach(p.mem, top, path) != 0 && Child(p.mem, Reach(p.mem, top, path), o) == 0
    requires p.head + PAGE_SIZE <= p.end && !SizeBit(LowFlags(flags))
    ensures Shape(WithTable(p, Reach(p.mem, top, path), o, flags), top)
  {
    var t := Reach(p.mem, top, path);
    var q := WithTable(p, t, o, flags);
    LinkKeepsArena(p, t, o, flags);
    forall other | ValidPath(other)
      ensures Reach(q.mem, top, other) == if other == Sub(path, o) then p.head else Reach(p.mem, top, other)
    {
      ReachAfterLink(p, top, path, o, flags, other);
    }
    forall other | ValidPath(other) && Reach(q.mem, top, other) != 0
      ensures EntriesOf(q.mem, Reach(q.mem, top, other), Depth(other))
    {
      LinkKeepsEntries(p, top, path, o, flags, other);
    }
  }

  /** Writing an entry that points to no table into an unused slot changes no table. */
  lemma {:induction false} ReachAfterEntry(p: Phys, top: nat, path: Path, o: nat, e: Word, other: Path)
    requires Shape(p, top) && ValidPath(path) && o < PTABLE_LEN && ValidPath(other)
    requires Reach(p.mem, top, path) != 0 && Child(p.mem, Reach(p.mem, top, path), o) == 0
    requires Depth(path) == 3 || !ValidTable(e)
    ensures Reach(Store(p.mem, Slot(Reach(p.mem, top, path), o), e), top, other) == Reach(p.mem, top, other)
  {
    match other
    case Root =>
    case Sub(up, k) =>
      ReachAfterEntry(p, top, path, o, e, up);
      var u := Reach(p.mem, top, up);
      if u != 0 {
        LoadAfterStore(p.mem, Reach(p.mem, top, path), o, e, u, k);
      }
  }

  function WithEntry(p: Phys, table: nat, o: nat, e: Word): Phys
  {
    p.(mem := Store(p.mem, Slot(table, o), e))
  }

  lemma EntryKeepsEntries(p: Phys, top: nat, path: Path, o: nat, e: Word, other: Path)
    requires Shape(p, top) && ValidPath(path) && o < PTABLE_LEN && ValidPath(other)
    requires Reach(p.mem, top, path) != 0 && Child(p.mem, Reach(p.mem, top, path), o) == 0
    requires Depth(path) == 3 || (Depth(path) != 2 && !ValidTable(e))
    ensures var q := WithEntry(p, Reach(p.mem, top, path), o, e);
            Reach(q.mem, top, other) != 0 ==> EntriesOf(q.mem, Reach(q.mem, top, other), Depth(other))
  {
    var t := Reach(p.mem, top, path);
    var q := WithEntry(p, t, o, e);
    ReachAfterEntry(p, top, path, o, e, other);
    var u := Reach(q.mem, top, other);
    if u != 0 {
      assert EntriesOf(p.mem, u, Depth(other));
      forall k | 0 <= k < PTABLE_LEN
        ensures GoodEntry(Load(q.mem, Slot(u, k)), Depth(other))
      {
        LoadAfterStore(p.mem, t, o, e, u, k);
      }
    }
  }

  lemma EntryKeepsShape(p: Phys, top: nat, path: Path, o: nat, e: Word)
    requires Shape(p, top) && ValidPath(path) && o < PTABLE_LEN
    requires Reach(p.mem, top, path) != 0 && Child(p.mem, Reach(p.mem, top, path), o) == 0
    requires Depth(path) == 3 || (Depth(path) != 2 && !ValidTable(e))
    ensures Shape(WithEntry(p, Reach(p.mem, top, path), o, e), top)
  {
    var q := WithEntry(p, Reach(p.mem, top, path), o, e);
    forall other | ValidPath(other)
      ensures Reach(q.mem, top, other) == Reach(p.mem, top, other)
    {
      ReachAfterEntry(p, top, path, o, e, other);
    }
    forall other | ValidPath(other) && Reach(q.mem, top, other) != 0
      ensures EntriesOf(q.mem, Reach(q.mem, top, other), Depth(other))
    {
      EntryKeepsEntries(p, top, path, o, e, other);
    }
  }

  // ---- translation ----

  /** The PDPT entry and the leaf entry of an address; 0 when their table does not exist. */
  function EntryAt(m: Memory, table: nat, o: nat): Word { if table == 0 then 0 else Load(m, Slot(table, o)) }
  function E3(m: Memory, top: nat, v: nat): Word { EntryAt(m, Reach(m, top, Path1(v)), I3(v)) }
  function E1(m: Memory, top: nat, v: nat): Word { EntryAt(m, Reach(m, top, Path3(v)), I1(v)) }

  /** v's 1 GiB region is mapped by one huge entry. */
  predicate HugeAt(m: Memory, top: nat, v: nat) { Present(E3(m, top, v)) && SizeBit(E3(m, top, v)) }

  /** No 1 GiB page is mapped through this PML4 slot. */
  ghost predicate PlainSlot(m: Memory, top: nat, i4: nat)
  {
    forall v: nat :: I4(v) == i4 ==> !HugeAt(m, top, v)
  }

  /** The walk written over the tables that paths reach. */
  function ViaEntries(e3: Word, e1: Word, v: nat): Option<nat>
  {
    if Present(e3) && SizeBit(e3) then Some(Frame1G(e3) + v % PDPTE_COVERAGE)
    else if Present(e1) then Some(Frame4K(e1) + v % PAGE_SIZE)
    else None
  }

  lemma PathsAreValid(v: nat)
    ensures ValidPath(Path1(v)) && ValidPath(Path2(v)) && ValidPath(Path3(v))
    ensures Depth(Path1(v)) == 1 && Depth(Path2(v)) == 2 && Depth(Path3(v)) == 3
    ensures I1(v) < PTABLE_LEN && I2(v) < PTABLE_LEN && I3(v) < PTABLE_LEN && I4(v) < PTABLE_LEN
  {
    IndicesReassemble(v);
  }

  lemma FrameOfTableEntry(e: Word)
    requires PageBase(e) < TWO52
    ensures Frame4K(e) == PageBase(e)
  {
  }

  /** A table entry and the walk's bits 51..12 name the same table. */
  lemma TableBelow(p: Phys, top: nat, path: Path, o: nat)
    requires Shape(p, top) && ValidPath(Sub(path, o)) && Reach(p.mem, top, path) != 0
    ensures var e := Load(p.mem, Slot(Reach(p.mem, top, path), o));
            && (ValidTable(e) ==> Frame4K(e) == Reach(p.mem, top, Sub(path, o)) != 0)
            && (!ValidTable(e) ==> Reach(p.mem, top, Sub(path, o)) == 0)
            && (Depth(path) == 2 ==> !(Present(e) && SizeBit(e)))
  {
    var t := Reach(p.mem, top, path);
    var e := Load(p.mem, Slot(t, o));
    assert EntriesOf(p.mem, t, Depth(path));
    assert GoodEntry(e, Depth(path));
    if ValidTable(e) {
      assert Reach(p.mem, top, Sub(path, o)) == PageBase(e);
      FrameOfTableEntry(e);
    }
  }

  /** The processor's walk follows exactly the reachable tables. */
  lemma TranslateViaTables(p: Phys, top: nat, v: nat)
    requires Shape(p, top)
    ensures Translate(p.mem, top, v) == ViaEntries(E3(p.mem, top, v), E1(p.mem, top, v), v)
    ensures E1(p.mem, top, v) != 0 ==> ValidTable(E3(p.mem, top, v))
  {
    hide Frame4K, Frame2M, Frame1G, PageBase, SizeBit, I1, I2, I3, I4;
    PathsAreValid(v);
    assert Reach(p.mem, top, Root) == top;
    TableBelow(p, top, Root, I4(v));
    if Reach(p.mem, top, Path1(v)) != 0 {
      TableBelow(p, top, Path1(v), I3(v));
      if Reach(p.mem, top, Path2(v)) != 0 {
        TableBelow(p, top, Path2(v), I2(v));
      }
    }
  }

  lemma LastViaTables(p: Phys, top: nat, v: nat)
    requires Shape(p, top)
    ensures LastEntry(p.mem, top, v)
            == if HugeAt(p.mem, top, v) then E3(p.mem, top, v)
               else if Present(E1(p.mem, top, v)) then E1(p.mem, top, v) else 0
  {
    hide Frame4K, PageBase, SizeBit, I1, I2, I3, I4;
    PathsAreValid(v);
    assert Reach(p.mem, top, Root) == top;
    TableBelow(p, top, Root, I4(v));
    if Reach(p.mem, top, Path1(v)) != 0 {
      TableBelow(p, top, Path1(v), I3(v));
      if Reach(p.mem, top, Path2(v)) != 0 {
        TableBelow(p, top, Path2(v), I2(v));
      }
    }
  }

  lemma EntriesAfterLink(p: Phys, top: nat, path: Path, o: nat, flags: nat, w: nat)
    requires Shape(p, top) && ValidPath(Sub(path, o))
    requires Reach(p.mem, top, path) != 0 && Child(p.mem, Reach(p.mem, top, path), o) == 0
    requires p.head + PAGE_SIZE <= p.end && !SizeBit(LowFlags(flags))
    ensures var q := WithTable(p, Reach(p.mem, top, path), o, flags);
            && E1(q.mem, top, w) == E1(p.mem, top, w)
            && (if Depth(path) == 1 && Path2(w) == Sub(path, o)
                then ValidTable(E3(q.mem, top, w)) && E1(p.mem, top, w) == 0
                else E3(q.mem, top, w) == E3(p.mem, top, w))
  {
    var t := Reach(p.mem, top, path);
    var q := WithTable(p, t, o, flags);
    var e := EntryOf(p.head, flags);
    PathsAreValid(w);
    ReachAfterLink(p, top, path, o, flags, Path1(w));
    ReachAfterLink(p, top, path, o, flags, Path3(w));
    EntryFields(p.head, flags);
    var t1 := Reach(q.mem, top, Path1(w));
    var t3 := Reach(q.mem, top, Path3(w));
    if t1 != 0 {
      LoadAfterStore(p.mem, t, o, e, t1, I3(w));
      FreshFrameIsZero(p, I3(w));
    }
    if t3 != 0 {
      LoadAfterStore(p.mem, t, o, e, t3, I1(w));
      FreshFrameIsZero(p, I1(w));
    }
    assert Path2(w) == Sub(path, o) ==> Reach(p.mem, top, Path2(w)) == 0;
  }

  /** Linking a fresh table takes away at most the 1 GiB page the slot held. */
  lemma TranslateAfterLink(p: Phys, top: nat, path: Path, o: nat, flags: nat, w: nat)
    requires Shape(p, top) && ValidPath(Sub(path, o))
    requires Reach(p.mem, top, path) != 0 && Child(p.mem, Reach(p.mem, top, path), o) == 0
    requires p.head + PAGE_SIZE <= p.end && !SizeBit(LowFlags(flags))
    ensures Translate(WithTable(p, Reach(p.mem, top, path), o, flags).mem, top, w)
            == if Depth(path) == 1 && Path2(w) == Sub(path, o) then None else Translate(p.mem, top, w)
  {
    LinkKeepsShape(p, top, path, o, flags);
    TranslateViaTables(p, top, w);
    TranslateViaTables(WithTable(p, Reach(p.mem, top, path), o, flags), top, w);
    EntriesAfterLink(p, top, path, o, flags, w);
  }

  /** A new leaf or huge entry is seen only by the addresses that use its slot. */
  lemma EntriesAfterEntry(p: Phys, top: nat, path: Path, o: nat, e: Word, w: nat)
    requires Shape(p, top) && ValidPath(path) && o < PTABLE_LEN
    requires Reach(p.mem, top, path) != 0 && Child(p.mem, Reach(p.mem, top, path), o) == 0
    requires Depth(path) == 3 || (Depth(path) == 1 && !ValidTable(e))
    ensures var q := WithEntry(p, Reach(p.mem, top, path), o, e);
            && E3(q.mem, top, w) == (if path == Path1(w) && o == I3(w) then e else E3(p.mem, top, w))
            && E1(q.mem, top, w) == (if path == Path3(w) && o == I1(w) then e else E1(p.mem, top, w))
  {
    var t := Reach(p.mem, top, path);
    PathsAreValid(w);
    ReachAfterEntry(p, top, path, o, e, Path1(w));
    ReachAfterEntry(p, top, path, o, e, Path3(w));
    var t1 := Reach(p.mem, top, Path1(w));
    var t3 := Reach(p.mem, top, Path3(w));
    if t1 != 0 {
      LoadAfterStore(p.mem, t, o, e, t1, I3(w));
    }
    if t3 != 0 {
      LoadAfterStore(p.mem, t, o, e, t3, I1(w));
    }
  }

  lemma ViaLeaf(e3: Word, e1: Word, v: nat)
    requires ValidTable(e3) && Present(e1)
    ensures ViaEntries(e3, e1, v) == Some(Frame4K(e1) + v % PAGE_SIZE)
  {
  }

  /** A leaf entry maps exactly its own 4 KiB page. */
  lemma TranslateAfterLeaf(p: Phys, top: nat, v: nat, e: Word, w: nat)
    requires Shape(p, top) && Reach(p.mem, top, Path3(v)) != 0 && !Present(E1(p.mem, top, v)) && Present(e)
    ensures Translate(WithEntry(p, Reach(p.mem, top, Path3(v)), I1(v), e).mem, top, w)
            == if Path3(w) == Path3(v) && I1(w) == I1(v) then Some(Frame4K(e) + w % PAGE_SIZE)
               else Translate(p.mem, top, w)
  {
    PathsAreValid(v);
    PathsAreValid(w);
    EntryKeepsShape(p, top, Path3(v), I1(v), e);
    TranslateViaTables(p, top, w);
    var q := WithEntry(p, Reach(p.mem, top, Path3(v)), I1(v), e);
    TranslateViaTables(q, top, w);
    EntriesAfterEntry(p, top, Path3(v), I1(v), e, w);
    if Path3(w) == Path3(v) && I1(w) == I1(v) {
      ViaLeaf(E3(q.mem, top, w), e, w);
    } else {
      assert E1(q.mem, top, w) == E1(p.mem, top, w);
    }
  }

  /** A huge entry maps exactly its own 1 GiB page. */
  lemma TranslateAfterHuge(p: Phys, top: nat, v: nat, e: Word, w: nat)
    requires Shape(p, top) && Reach(p.mem, top, Path1(v)) != 0
    requires !Present(E3(p.mem, top, v)) && Present(e) && SizeBit(e)
    ensures Translate(WithEntry(p, Reach(p.mem, top, Path1(v)), I3(v), e).mem, top, w)
            == if Path2(w) == Path2(v) then Some(Frame1G(e) + w % PDPTE_COVERAGE)
               else Translate(p.mem, top, w)
  {
    hide Translate, Frame1G, Frame4K, SizeBit, TablesInArena, ReferencedOnce, GoodEntries, I1, I2, I3, I4;
    PathsAreValid(v);
    PathsAreValid(w);
    EntryKeepsShape(p, top, Path1(v), I3(v), e);
    TranslateViaTables(p, top, w);
    TranslateViaTables(WithEntry(p, Reach(p.mem, top, Path1(v)), I3(v), e), top, w);
    EntriesAfterEntry(p, top, Path1(v), I3(v), e, w);
  }

  // ---- stores outside the tables ----

  lemma {:induction false} ReachAfterData(p: Phys, top: nat, a: nat, w: Word, path: Path)
    requires Shape(p, top) && ValidPath(path) && a % 8 == 0 && !InTable(p.mem, top, a)
    ensures Reach(Store(p.mem, a, w), top, path) == Reach(p.mem, top, path)
  {
    match path
    case Root =>
    case Sub(up, o) =>
      ReachAfterData(p, top, a, w, up);
      if Reach(p.mem, top, up) != 0 {
        TableWordKept(p, top, a, w, up, o);
      }
  }

  lemma TableWordKept(p: Phys, top: nat, a: nat, w: Word, path: Path, o: nat)
    requires Shape(p, top) && ValidPath(path) && o < PTABLE_LEN && a % 8 == 0 && !InTable(p.mem, top, a)
    requires Reach(p.mem, top, path) != 0
    ensures Load(Store(p.mem, a, w), Slot(Reach(p.mem, top, path), o)) == Load(p.mem, Slot(Reach(p.mem, top, path), o))
  {
    var t := Reach(p.mem, top, path);
    assert !TableHolds(p.mem, top, path, a);
    SlotsAreDistinct(t, o, t, o);
    LoadStore(p.mem, a, w, Slot(t, o));
  }

  /** Where the tables stay reachable, such a store changes no walk. */
  lemma DataStoreKeepsWalk(p: Phys, top: nat, a: nat, w: Word, v: nat)
    requires Shape(p, top) && a % 8 == 0 && !InTable(p.mem, top, a)
    requires Shape(p.(mem := Store(p.mem, a, w)), top)
    requires forall path :: ValidPath(path) ==> Reach(Store(p.mem, a, w), top, path) == Reach(p.mem, top, path)
    ensures Translate(Store(p.mem, a, w), top, v) == Translate(p.mem, top, v)
    ensures LastEntry(Store(p.mem, a, w), top, v) == LastEntry(p.mem, top, v)
    ensures HugeAt(Store(p.mem, a, w), top, v) == HugeAt(p.mem, top, v)
  {
    hide Shape, Load, Store, Slot, InTable, Reach, Translate, LastEntry, Frame4K, Frame1G, SizeBit, Present,
      I1, I2, I3, I4;
    var q := p.(mem := Store(p.mem, a, w));
    PathsAreValid(v);
    if Reach(p.mem, top, Path1(v)) != 0 {
      TableWordKept(p, top, a, w, Path1(v), I3(v));
    }
    if Reach(p.mem, top, Path3(v)) != 0 {
      TableWordKept(p, top, a, w, Path3(v), I1(v));
    }
    TranslateViaTables(p, top, v);
    TranslateViaTables(q, top, v);
    LastViaTables(p, top, v);
    LastViaTables(q, top, v);
  }

  /** Writing a word of allocated memory that is in no page table leaves the tree as it is. */
  lemma DataStoreKeepsTree(p: Phys, top: nat, a: nat, w: Word)
    requires Shape(p, top) && a % 8 == 0 && a < p.head && !InTable(p.mem, top, a)
    ensures var q := p.(mem := Store(p.mem, a, w));
            && Shape(q, top)
            && (forall path :: ValidPath(path) ==> Reach(q.mem, top, path) == Reach(p.mem, top, path))
            && (forall v :: Translate(q.mem, top, v) == Translate(p.mem, top, v))
            && (forall v :: LastEntry(q.mem, top, v) == LastEntry(p.mem, top, v))
            && (forall v :: HugeAt(q.mem, top, v) == HugeAt(p.mem, top, v))
  {
    hide *;
    var q := p.(mem := Store(p.mem, a, w));
    DataStoreKeepsShape(p, top, a, w);
    forall v
      ensures Translate(q.mem, top, v) == Translate(p.mem, top, v) && HugeAt(q.mem, top, v) == HugeAt(p.mem, top, v)
      ensures LastEntry(q.mem, top, v) == LastEntry(p.mem, top, v)
    {
      DataStoreKeepsWalk(p, top, a, w, v);
    }
  }

  lemma DataStoreKeepsArena(p: Phys, a: nat, w: Word)
    requires ArenaOk(p) && a < p.head
    ensures ArenaOk(p.(mem := Store(p.mem, a, w)))
  {
    var m := Store(p.mem, a, w);
    assert a / 8 < p.head / 8;
    assert |m| == |p.mem|;
    assert forall i :: p.head / 8 <= i < p.end / 8 ==> m[i] == p.mem[i];
  }

  lemma DataKeepsEntries(p: Phys, top: nat, a: nat, w: Word, path: Path)
    requires Shape(p, top) && a % 8 == 0 && !InTable(p.mem, top, a) && ValidPath(path) && Reach(p.mem, top, path) != 0
    ensures EntriesOf(Store(p.mem, a, w), Reach(p.mem, top, path), Depth(path))
  {
    hide GoodEntry, Load, Store, Slot;
    assert EntriesOf(p.mem, Reach(p.mem, top, path), Depth(path));
    forall o | 0 <= o < PTABLE_LEN
      ensures GoodEntry(Load(Store(p.mem, a, w), Slot(Reach(p.mem, top, path), o)), Depth(path))
    {
      TableWordKept(p, top, a, w, path, o);
    }
  }

  lemma DataStoreKeepsShape(p: Phys, top: nat, a: nat, w: Word)
    requires Shape(p, top) && a % 8 == 0 && a < p.head && !InTable(p.mem, top, a)
    ensures var q := p.(mem := Store(p.mem, a, w));
            && Shape(q, top)
            && (forall path :: ValidPath(path) ==> Reach(q.mem, top, path) == Reach(p.mem, top, path))
  {
    hide Store, Load, EntriesOf, InTable, ArenaOk;
    var q := p.(mem := Store(p.mem, a, w));
    DataStoreKeepsArena(p, a, w);
    forall path | ValidPath(path)
      ensures Reach(q.mem, top, path) == Reach(p.mem, top, path)
      ensures Reach(p.mem, top, path) != 0 ==> EntriesOf(q.mem, Reach(p.mem, top, path), Depth(path))
    {
      ReachAfterData(p, top, a, w, path);
      if Reach(p.mem, top, path) != 0 {
        DataKeepsEntries(p, top, a, w, path);
      }
    }
  }
}
