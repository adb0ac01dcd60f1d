/** `map_pages`: a run of pages, and what it does to the translation of every address. */
module MapRange {
  import opened Bits
  import opened Paging
  import opened Wrappers
  import opened PageTree
  import opened MapPages

  function PageAt(v: nat, i: nat, flags: nat): Word { U64(v + i * Span(flags)) }

  /** The loop of `map_pages` after n iterations or its first failure. */
  function MapAll(p: Phys, top: nat, v: nat, paddr: nat, n: nat, flags: nat): (Phys, nat)
  {
    if n == 0 then (p, 0) else
    var (q, ret) := MapAll(p, top, v, paddr, n - 1, flags);
    if ret != 0 then (q, ret) else MapPage(q, top, PageAt(v, n - 1, flags), PageAt(paddr, n - 1, flags), flags)
  }

  /** How many pages were mapped before the loop ended. */
  function Progress(p: Phys, top: nat, v: nat, paddr: nat, n: nat, flags: nat): nat
  {
    if n == 0 then 0
    else if MapAll(p, top, v, paddr, n - 1, flags).1 != 0 then Progress(p, top, v, paddr, n - 1, flags)
    else if MapAll(p, top, v, paddr, n, flags).1 != 0 then n - 1
    else n
  }

  /** Pages from v up to w, around the 48-bit address space. */
  function Dist(v: nat, w: nat, flags: nat): nat
  {
    (Number(w, flags) - Number(v, flags)) % Count(flags)
  }

  ghost predicate CanMapAll(m: Memory, top: nat, v: nat, paddr: nat, n: nat, flags: nat)
  {
    && !SizeBit(LowFlags(flags))
    && paddr % Span(flags) == 0 && paddr + n * Span(flags) <= TWO52
    && (!WantsHuge(flags) ==> forall i :: 0 <= i < n ==> PlainSlot(m, top, I4(PageAt(v, i, flags))))
  }

  lemma TrimOfWrapped(x: nat)
    ensures Trim(U64(x)) == Trim(x)
  {
    var a, b := x / TWO64, U64(x) / TWO48;
    DivMod(x, TWO48, 0x1_0000 * a + b, U64(x) % TWO48);
  }

  /** Pages are counted round the 48-bit address space. */
  lemma SmallNumber(x: nat, i: nat)
    ensures Trim(x + i * PAGE_SIZE) / PAGE_SIZE == (Trim(x) / PAGE_SIZE + i) % PAGE_COUNT
  {
    var q, r := x / PAGE_SIZE, x % PAGE_SIZE;
    TrimSmall(q, r);
    TrimSmall(q + i, r);
    var k := q / PAGE_COUNT;
    var y := q % PAGE_COUNT + i;
    DivMod(q + i, PAGE_COUNT, k + y / PAGE_COUNT, y % PAGE_COUNT);
  }

  lemma TrimSmall(q: nat, r: nat)
    requires r < PAGE_SIZE
    ensures Trim(q * PAGE_SIZE + r) / PAGE_SIZE == q % PAGE_COUNT
  {
    var m := q % PAGE_COUNT;
    DivMod(q * PAGE_SIZE + r, TWO48, q / PAGE_COUNT, m * PAGE_SIZE + r);
    DivMod(m * PAGE_SIZE + r, PAGE_SIZE, m, r);
  }

  lemma HugeNumber(x: nat, i: nat)
    ensures Trim(x + i * PDPTE_COVERAGE) / PDPTE_COVERAGE == (Trim(x) / PDPTE_COVERAGE + i) % 0x4_0000
  {
    var q, r := x / PDPTE_COVERAGE, x % PDPTE_COVERAGE;
    TrimHuge(q, r);
    TrimHuge(q + i, r);
    var k := q / 0x4_0000;
    var y := q % 0x4_0000 + i;
    DivMod(q + i, 0x4_0000, k + y / 0x4_0000, y % 0x4_0000);
  }

  lemma TrimHuge(q: nat, r: nat)
    requires r < PDPTE_COVERAGE
    ensures Trim(q * PDPTE_COVERAGE + r) / PDPTE_COVERAGE == q % 0x4_0000
  {
    var m := q % 0x4_0000;
    DivMod(q * PDPTE_COVERAGE + r, TWO48, q / 0x4_0000, m * PDPTE_COVERAGE + r);
    DivMod(m * PDPTE_COVERAGE + r, PDPTE_COVERAGE, m, r);
  }

  lemma NumberOfPage(v: nat, i: nat, flags: nat)
    ensures Number(PageAt(v, i, flags), flags) == (Number(v, flags) + i) % Count(flags)
    ensures Number(v, flags) < Count(flags)
  {
    TrimOfWrapped(v + i * Span(flags));
    if WantsHuge(flags) {
      HugeNumber(v, i);
    } else {
      SmallNumber(v, i);
    }
  }

  lemma RoundTrip4K(a: nat, b: nat, i: nat)
    requires a < PAGE_COUNT && b < PAGE_COUNT && i < PAGE_COUNT
    ensures (a + i) % PAGE_COUNT == b <==> (b - a) % PAGE_COUNT == i
  {
    assert (a + i) % PAGE_COUNT == if a + i < PAGE_COUNT then a + i else a + i - PAGE_COUNT;
    assert (b - a) % PAGE_COUNT == if b >= a then b - a else b - a + PAGE_COUNT;
  }

  lemma RoundTrip1G(a: nat, b: nat, i: nat)
    requires a < 0x4_0000 && b < 0x4_0000 && i < 0x4_0000
    ensures (a + i) % 0x4_0000 == b <==> (b - a) % 0x4_0000 == i
  {
    assert (a + i) % 0x4_0000 == if a + i < 0x4_0000 then a + i else a + i - 0x4_0000;
    assert (b - a) % 0x4_0000 == if b >= a then b - a else b - a + 0x4_0000;
  }

  /** Page i of the run is the page at distance i. */
  lemma PageAtDist(v: nat, i: nat, w: nat, flags: nat)
    requires i < Count(flags)
    ensures Number(PageAt(v, i, flags), flags) == Number(w, flags) <==> Dist(v, w, flags) == i
  {
    NumberOfPage(v, i, flags);
    NumberOfPage(w, 0, flags);
    hide PageAt, Number, WantsHuge;
    if WantsHuge(flags) {
      RoundTrip1G(Number(v, flags), Number(w, flags), i);
    } else {
      RoundTrip4K(Number(v, flags), Number(w, flags), i);
    }
  }

  lemma PhysicalPage(paddr: nat, n: nat, i: nat, flags: nat)
    requires paddr % Span(flags) == 0 && paddr + n * Span(flags) <= TWO52 && i < n
    ensures PageAt(paddr, i, flags) == paddr + i * Span(flags)
    ensures (paddr + i * Span(flags)) % Span(flags) == 0 && paddr + i * Span(flags) + Span(flags) <= TWO52
  {
    if WantsHuge(flags) {
      assert (paddr + i * PDPTE_COVERAGE) % PDPTE_COVERAGE == 0;
    } else {
      assert (paddr + i * PAGE_SIZE) % PAGE_SIZE == 0;
    }
  }

  /** Where w translates once k pages from v on are mapped to paddr on. */
  function Overlay(p: Phys, top: nat, v: nat, paddr: nat, k: nat, flags: nat, w: nat): Option<nat>
  {
    if Dist(v, w, flags) < k then Some(paddr + Dist(v, w, flags) * Span(flags) + Within(w, flags))
    else Translate(p.mem, top, w)
  }

  ghost predicate MappedK(p: Phys, q: Phys, top: nat, v: nat, paddr: nat, k: nat, flags: nat)
  {
    && Shape(q, top) && Extends(p, q, top) && k <= Count(flags)
    && (forall w :: MappedAt(p, q, top, v, paddr, k, flags, w))
  }

  /** w translates as it did, unless it is in one of the k new pages, where nothing translated. */
  ghost predicate MappedAt(p: Phys, q: Phys, top: nat, v: nat, paddr: nat, k: nat, flags: nat, w: nat)
  {
    && Translate(q.mem, top, w) == Overlay(p, top, v, paddr, k, flags, w)
    && (Dist(v, w, flags) < k ==> Translate(p.mem, top, w) == None)
    && (HugeAt(q.mem, top, w) ==> HugeAt(p.mem, top, w) || (WantsHuge(flags) && Dist(v, w, flags) < k))
    && EntryK(p, q, top, v, k, flags, w)
  }

  /** The entry that maps w has the flags asked for in the k new pages, and is the one it was elsewhere. */
  predicate EntryK(p: Phys, q: Phys, top: nat, v: nat, k: nat, flags: nat, w: nat)
  {
    if Dist(v, w, flags) < k then LastEntry(q.mem, top, w) % 0x1000 == LowOf(flags)
    else LastEntry(q.mem, top, w) == LastEntry(p.mem, top, w)
  }

  lemma OneMoreAt(p: Phys, q: Phys, r: Phys, ret: nat, top: nat, v: nat, vi: nat, paddr: nat, pi: nat, i: nat,
                  flags: nat, w: nat)
    requires vi == PageAt(v, i, flags) && pi == paddr + i * Span(flags) && (ret == 0 ==> i < Count(flags))
    requires MappedAt(p, q, top, v, paddr, i, flags, w) && Mapped1(q, r, ret, top, vi, pi, flags, w)
    ensures MappedAt(p, r, top, v, paddr, if ret == 0 then i + 1 else i, flags, w)
  {
    hide Translate, LastEntry;
    hide HugeAt;
    if ret == 0 {
      PageAtDist(v, i, w, flags);
    }
  }

  /** The address space is full after Count pages. */
  lemma NotFull(p: Phys, q: Phys, top: nat, v: nat, vi: nat, paddr: nat, i: nat, flags: nat)
    requires i <= Count(flags) && vi == PageAt(v, i, flags)
    requires MappedAt(p, q, top, v, paddr, i, flags, vi) && Translate(q.mem, top, vi) == None
    ensures i < Count(flags)
  {
    NumberOfPage(v, i, flags);
    NumberOfPage(v, 0, flags);
  }

  lemma NextPage(q: Phys, top: nat, v: nat, paddr: Word, flags: nat) returns (r: Phys, ret: nat)
    requires Shape(q, top) && CanMap(q.mem, top, v, paddr, flags)
    ensures MapPage(q, top, v, paddr, flags) == (r, ret)
    ensures Shape(r, top) && Extends(q, r, top)
    ensures forall w :: Mapped1(q, r, ret, top, v, paddr, flags, w)
  {
    OnePageShape(q, top, v, paddr, flags);
    r, ret := MapPage(q, top, v, paddr, flags).0, MapPage(q, top, v, paddr, flags).1;
    forall w ensures Mapped1(q, r, ret, top, v, paddr, flags, w)
    {
      OnePage(q, top, v, paddr, flags, w);
    }
  }

  lemma OneMore(p: Phys, q: Phys, r: Phys, ret: nat, top: nat, v: nat, vi: nat, paddr: nat, pi: nat, i: nat,
                flags: nat)
    requires vi == PageAt(v, i, flags) && pi == paddr + i * Span(flags)
    requires MappedK(p, q, top, v, paddr, i, flags)
    requires Shape(r, top) && Extends(q, r, top)
    requires forall w :: Mapped1(q, r, ret, top, vi, pi, flags, w)
    ensures MappedK(p, r, top, v, paddr, if ret == 0 then i + 1 else i, flags)
  {
    ExtendsTrans(p, q, r, top);
    assert Mapped1(q, r, ret, top, vi, pi, flags, vi);
    assert MappedAt(p, q, top, v, paddr, i, flags, vi);
    if ret == 0 {
      NotFull(p, q, top, v, vi, paddr, i, flags);
    }
    var k := if ret == 0 then i + 1 else i;
    forall w ensures MappedAt(p, r, top, v, paddr, k, flags, w)
    {
      assert MappedAt(p, q, top, v, paddr, i, flags, w);
      OneMoreAt(p, q, r, ret, top, v, vi, paddr, pi, i, flags, w);
    }
  }

  lemma CanMapNext(p: Phys, q: Phys, top: nat, v: nat, paddr: nat, n: nat, flags: nat)
    requires n > 0 && CanMapAll(p.mem, top, v, paddr, n, flags) && MappedK(p, q, top, v, paddr, n - 1, flags)
    ensures CanMap(q.mem, top, PageAt(v, n - 1, flags), PageAt(paddr, n - 1, flags), flags)
  {
    PhysicalPage(paddr, n, n - 1, flags);
    if !WantsHuge(flags) {
      forall w: nat | I4(w) == I4(PageAt(v, n - 1, flags))
        ensures !HugeAt(q.mem, top, w)
      {
        assert MappedAt(p, q, top, v, paddr, n - 1, flags, w);
      }
    }
  }

  lemma CanMapFewer(m: Memory, top: nat, v: nat, paddr: nat, n: nat, flags: nat)
    requires n > 0 && CanMapAll(m, top, v, paddr, n, flags)
    ensures CanMapAll(m, top, v, paddr, n - 1, flags)
  {
  }

  lemma MappedIsShaped(p: Phys, q: Phys, top: nat, v: nat, paddr: nat, k: nat, flags: nat)
    requires MappedK(p, q, top, v, paddr, k, flags)
    ensures Shape(q, top)
  {
  }

  lemma MapAllStep(p: Phys, q: Phys, top: nat, v: nat, paddr: nat, n: nat, flags: nat) returns (r: Phys, ret: nat)
    requires n > 0 && CanMapAll(p.mem, top, v, paddr, n, flags) && MappedK(p, q, top, v, paddr, n - 1, flags)
    ensures MapPage(q, top, PageAt(v, n - 1, flags), PageAt(paddr, n - 1, flags), flags) == (r, ret)
    ensures MappedK(p, r, top, v, paddr, if ret == 0 then n else n - 1, flags)
  {
    hide MapPage, Mapped1, MappedK, CanMap, Extends, Shape, PageAt, Translate, LastEntry;
    MappedIsShaped(p, q, top, v, paddr, n - 1, flags);
    PhysicalPage(paddr, n, n - 1, flags);
    var vi, pi := PageAt(v, n - 1, flags), PageAt(paddr, n - 1, flags);
    CanMapNext(p, q, top, v, paddr, n, flags);
    r, ret := NextPage(q, top, vi, pi, flags);
    OneMore(p, q, r, ret, top, v, vi, paddr, pi, n - 1, flags);
  }

  lemma MappedNone(p: Phys, top: nat, v: nat, paddr: nat, flags: nat)
    requires Shape(p, top)
    ensures MappedK(p, p, top, v, paddr, 0, flags)
  {
    hide Translate, LastEntry;
  }

  /** The translation theorem: after `map_pages`, successful or not, exactly the first k pages
      have been added, and it reports success exactly when k is n. */
  lemma {:induction false} MapAllTranslates(p: Phys, top: nat, v: nat, paddr: nat, n: nat, flags: nat)
    requires Shape(p, top) && CanMapAll(p.mem, top, v, paddr, n, flags)
    ensures var (q, ret) := MapAll(p, top, v, paddr, n, flags);
            var k := Progress(p, top, v, paddr, n, flags);
            MappedK(p, q, top, v, paddr, k, flags) && k <= n && (ret == 0 <==> k == n)
  {
    hide MapPage, MappedK, CanMapAll, PageAt;
    if n == 0 {
      MappedNone(p, top, v, paddr, flags);
    } else {
      CanMapFewer(p.mem, top, v, paddr, n, flags);
      MapAllTranslates(p, top, v, paddr, n - 1, flags);
      var (q, ret) := MapAll(p, top, v, paddr, n - 1, flags);
      if ret == 0 {
        var _, _ := MapAllStep(p, q, top, v, paddr, n, flags);
      }
    }
  }

  lemma SpanOf64(x: nat, flags: nat)
    requires x % Span(flags) == 0
    ensures U64(x) % Span(flags) == 0
  {
    var q, r := x / TWO64, U64(x);
    if WantsHuge(flags) {
      var k := x / PDPTE_COVERAGE;
      DivMod(r, PDPTE_COVERAGE, k - 0x4_0000_0000 * q, 0);
    } else {
      var k := x / PAGE_SIZE;
      DivMod(r, PAGE_SIZE, k - 0x10_0000_0000_0000 * q, 0);
    }
  }

  lemma NumberOfOffset(x: nat, o: nat, flags: nat)
    requires x % Span(flags) == 0 && o < Span(flags)
    ensures Number(x + o, flags) == Number(x, flags) && Within(x + o, flags) == o
  {
    if WantsHuge(flags) {
      OffsetInPage(x, o, PDPTE_COVERAGE, 0x4_0000);
    } else {
      OffsetInPage(x, o, PAGE_SIZE, 0x10_0000_0000);
    }
  }

  lemma OffsetInPage(x: nat, o: nat, size: nat, perSpace: nat)
    requires size > 0 && size * perSpace == TWO48 && x % size == 0 && o < size
    ensures Trim(x + o) / size == Trim(x) / size && (x + o) % size == o
  {
    var t, k, m := Trim(x), x / size, x / TWO48;
    assert t == size * (k - perSpace * m) by {
      assert size * (perSpace * m) == TWO48 * m;
    }
    DivMod(t, size, k - perSpace * m, 0);
    DivMod(TWO48, size, perSpace, 0);
    BelowMultiple(t / size, perSpace, size, o);
    DivMod(x + o, TWO48, m, t + o);
    DivMod(t + o, size, t / size, o);
    DivMod(x + o, size, k, o);
  }

  lemma BelowMultiple(a: nat, b: nat, size: nat, o: nat)
    requires size * a < size * b && o < size
    ensures size * a + o < size * b
  {
    if a >= b {
      MulMono(size, b, a);
    }
    MulMono(size, a + 1, b);
  }

  /** The theorem byte by byte: when `map_pages` returns 0, byte o of page i translates to byte o of
      frame i, whatever tables were linked on the way. */
  lemma ByteTranslates(p: Phys, top: nat, v: nat, paddr: nat, n: nat, flags: nat, i: nat, o: nat)
    requires Shape(p, top) && CanMapAll(p.mem, top, v, paddr, n, flags)
    requires MapAll(p, top, v, paddr, n, flags).1 == 0
    requires v % Span(flags) == 0 && i < n && o < Span(flags)
    ensures Translate(MapAll(p, top, v, paddr, n, flags).0.mem, top, PageAt(v, i, flags) + o)
            == Some(paddr + i * Span(flags) + o)
  {
    hide Translate, LastEntry, MapAll, Shape, CanMapAll, Progress, Number, Within;
    MapAllTranslates(p, top, v, paddr, n, flags);
    var w := PageAt(v, i, flags) + o;
    assert (v + i * Span(flags)) % Span(flags) == 0 by { AlignedPage(v, i, flags); }
    SpanOf64(v + i * Span(flags), flags);
    NumberOfOffset(PageAt(v, i, flags), o, flags);
    PageAtDist(v, i, w, flags);
    assert MappedAt(p, MapAll(p, top, v, paddr, n, flags).0, top, v, paddr, n, flags, w);
  }

  lemma AlignedPage(v: nat, i: nat, flags: nat)
    requires v % Span(flags) == 0
    ensures (v + i * Span(flags)) % Span(flags) == 0
  {
    DivMod(v + i * Span(flags), Span(flags), v / Span(flags) + i, 0);
  }

  // ---- when a call succeeds ----

  /** With room for the tables of one more page, a page that does not translate is mapped. */
  lemma PageSucceeds(p: Phys, top: nat, v: nat, paddr: Word, flags: nat)
    requires Shape(p, top) && SmallFlags(flags) && PlainSlot(p.mem, top, I4(v))
    requires Translate(p.mem, top, v) == None && p.head + 3 * PAGE_SIZE <= p.end
    ensures var (q, ret) := MapPage(p, top, v, paddr, flags); ret == 0 && q.head <= p.head + 3 * PAGE_SIZE
  {
    hide MapPage, Translate, LastEntry, Shape, Reach;
    MapPageShape(p, top, v, paddr, flags);
    TranslateViaTables(p, top, v);
  }

  /** `map_pages` of 4 KiB pages that do not translate succeeds when there is room for three tables
      a page, and takes no more. */
  lemma {:induction false} MapAllSucceeds(p: Phys, top: nat, v: nat, paddr: nat, n: nat, flags: nat)
    requires Shape(p, top) && CanMapAll(p.mem, top, v, paddr, n, flags) && !WantsHuge(flags) && n <= Count(flags)
    requires forall i :: 0 <= i < n ==> Translate(p.mem, top, PageAt(v, i, flags)) == None
    requires p.head + 3 * n * PAGE_SIZE <= p.end
    ensures var (q, ret) := MapAll(p, top, v, paddr, n, flags); ret == 0 && q.head <= p.head + 3 * n * PAGE_SIZE
  {
    hide MapPage, Translate, LastEntry, Shape, I4, PageAt, PlainSlot;
    if n > 0 {
      CanMapFewer(p.mem, top, v, paddr, n, flags);
      MapAllSucceeds(p, top, v, paddr, n - 1, flags);
      MapAllTranslates(p, top, v, paddr, n - 1, flags);
      var q := MapAll(p, top, v, paddr, n - 1, flags).0;
      PhysicalPage(paddr, n, n - 1, flags);
      CanMapNext(p, q, top, v, paddr, n, flags);
      var w := PageAt(v, n - 1, flags);
      PageAtDist(v, n - 1, w, flags);
      assert MappedAt(p, q, top, v, paddr, n - 1, flags, w);
      PageSucceeds(q, top, w, PageAt(paddr, n - 1, flags), flags);
    }
  }

  /** A 4 KiB mapping leaves the PDPT entries of other PML4 slots alone. */
  lemma SmallKeepsE3(p: Phys, top: nat, v: nat, paddr: Word, flags: nat, w: nat)
    requires Shape(p, top) && SmallFlags(flags) && I4(w) != I4(v)
    ensures E3(MapPage(p, top, v, paddr, flags).0.mem, top, w) == E3(p.mem, top, w)
  {
    hide Descend, Translate, LastEntry, EntryOf, TablesInArena, ReferencedOnce, GoodEntries, OnlyTablesWritten, I1,
         I2, I3, I4,
         E3, E1;
    PathsAreValid(v);
    DescendSteps(p, top, Root, I4(v), flags);
    DescendTranslates(p, top, Root, I4(v), flags, w);
    var (p1, t1) := Descend(p, top, I4(v), flags);
    if t1.Some? {
      var p2, t2 := WalkDownSteps(p1, top, v, flags);
      DescendTranslates(p1, top, Path1(v), I3(v), flags, w);
      if t2.Some? {
        DescendTranslates(p2, top, Path2(v), I2(v), flags, w);
        var (p3, t3) := WalkDown(p1, t1.value, v, flags);
        if t3.Some? {
          PlaceKeepsE3(p3, top, v, paddr, flags, w);
        }
      }
    }
  }

  lemma PlaceKeepsE3(p: Phys, top: nat, v: nat, paddr: Word, flags: nat, w: nat)
    requires Shape(p, top) && Reach(p.mem, top, Path3(v)) != 0
    ensures E3(Place(p, Reach(p.mem, top, Path3(v)), I1(v), paddr, flags).0.mem, top, w) == E3(p.mem, top, w)
  {
    PathsAreValid(v);
    if !Present(E1(p.mem, top, v)) {
      EntriesAfterEntry(p, top, Path3(v), I1(v), EntryOf(paddr, flags), w);
    }
  }

  lemma {:induction false} SmallRunKeepsE3(p: Phys, top: nat, v: nat, paddr: nat, n: nat, flags: nat, w: nat)
    requires Shape(p, top) && SmallFlags(flags)
    requires forall i :: 0 <= i < n ==> I4(PageAt(v, i, flags)) != I4(w)
    ensures var q := MapAll(p, top, v, paddr, n, flags).0; Shape(q, top) && E3(q.mem, top, w) == E3(p.mem, top, w)
  {
    hide MapPage, Shape, E3, I4, PageAt;
    if n > 0 {
      SmallRunKeepsE3(p, top, v, paddr, n - 1, flags, w);
      var (q, ret) := MapAll(p, top, v, paddr, n - 1, flags);
      if ret == 0 {
        var vi, pi := PageAt(v, n - 1, flags), PageAt(paddr, n - 1, flags);
        MapPageShape(q, top, vi, pi, flags);
        SmallKeepsE3(q, top, vi, pi, flags, w);
      }
    }
  }

  /** A 1 GiB mapping with a free entry and room for one table succeeds and leaves all other PDPT
      entries alone. */
  lemma HugeSucceeds(p: Phys, top: nat, v: nat, paddr: Word, flags: nat)
    requires Shape(p, top) && HugeFlags(flags) && !Present(E3(p.mem, top, v)) && p.head + PAGE_SIZE <= p.end
    requires paddr % PDPTE_COVERAGE == 0 && paddr + PDPTE_COVERAGE <= TWO52
    ensures var (q, ret) := MapPage(p, top, v, paddr, flags);
            && ret == 0 && Shape(q, top) && q.head <= p.head + PAGE_SIZE && q.end == p.end
            && forall w :: SameHugePage(v, w) || E3(q.mem, top, w) == E3(p.mem, top, w)
  {
    hide Descend, Translate, LastEntry, EntryOf, TablesInArena, ReferencedOnce, GoodEntries, OnlyTablesWritten, I1,
         I2, I3, I4,
         E3, E1;
    PathsAreValid(v);
    MapHugeShape(p, top, v, paddr, flags);
    DescendSteps(p, top, Root, I4(v), flags);
    DescendTranslates(p, top, Root, I4(v), flags, v);
    var (p1, t1) := Descend(p, top, I4(v), flags);
    PlaceHuge(p1, top, v, paddr, flags);
    var q := MapPage(p, top, v, paddr, flags).0;
    forall w ensures SameHugePage(v, w) || E3(q.mem, top, w) == E3(p.mem, top, w)
    {
      DescendTranslates(p, top, Root, I4(v), flags, w);
      PlaceHugeE3(p1, top, v, paddr, flags, w);
    }
  }

  lemma PlaceHugeE3(p: Phys, top: nat, v: nat, paddr: Word, flags: nat, w: nat)
    requires Shape(p, top) && Reach(p.mem, top, Path1(v)) != 0
    requires paddr % PDPTE_COVERAGE == 0 && paddr + PDPTE_COVERAGE <= TWO52
    ensures var q := Place(p, Reach(p.mem, top, Path1(v)), I3(v), paddr, Or(flags, PG_SIZE)).0;
            SameHugePage(v, w) || E3(q.mem, top, w) == E3(p.mem, top, w)
  {
    hide Translate, LastEntry, EntryOf, Shape, Reach, Frame1G, SizeBit, Or;
    PathsAreValid(v);
    HugeEntry(paddr, flags);
    SlotsDeterminePage(v, w);
    if !Present(E3(p.mem, top, v)) {
      EntriesAfterEntry(p, top, Path1(v), I3(v), EntryOf(paddr, Or(flags, PG_SIZE)), w);
    }
  }

  /** `map_pages` of 1 GiB pages with free entries succeeds when there is room for a table a page. */
  lemma {:induction false} HugeRunSucceeds(p: Phys, top: nat, v: nat, paddr: nat, n: nat, flags: nat)
    requires Shape(p, top) && CanMapAll(p.mem, top, v, paddr, n, flags) && WantsHuge(flags) && n <= Count(flags)
    requires forall i :: 0 <= i < n ==> !Present(E3(p.mem, top, PageAt(v, i, flags)))
    requires p.head + n * PAGE_SIZE <= p.end
    ensures var (q, ret) := MapAll(p, top, v, paddr, n, flags);
            && ret == 0 && Shape(q, top) && q.head <= p.head + n * PAGE_SIZE && q.end == p.end
            && forall w :: Dist(v, w, flags) < n || E3(q.mem, top, w) == E3(p.mem, top, w)
  {
    hide MapPage, Shape, E3, I4, PageAt, Dist, Present;
    if n > 0 {
      CanMapFewer(p.mem, top, v, paddr, n, flags);
      HugeRunSucceeds(p, top, v, paddr, n - 1, flags);
      var q := MapAll(p, top, v, paddr, n - 1, flags).0;
      PhysicalPage(paddr, n, n - 1, flags);
      var vi := PageAt(v, n - 1, flags);
      PageAtDist(v, n - 1, vi, flags);
      HugeSucceeds(q, top, vi, PageAt(paddr, n - 1, flags), flags);
      forall w | Dist(v, w, flags) >= n
        ensures E3(MapAll(p, top, v, paddr, n, flags).0.mem, top, w) == E3(p.mem, top, w)
      {
        PageAtDist(v, n - 1, w, flags);
      }
    }
  }
}
