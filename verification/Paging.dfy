/** Index arithmetic and entries of the 4-level x86-64 page tree, and the walk the
    processor does: Intel SDM Vol. 3A, section 4.5. */
module Paging {
  import opened Bits
  import opened Wrappers

  // Physical memory, one element for each aligned 64-bit word.
  type Memory = seq<Word>

  const PTABLE_LEN: nat := 0x200
  const PAGE_SIZE: nat := 0x1000
  const PDE_COVERAGE: nat := 0x20_0000
  const PDPTE_COVERAGE: nat := 0x4000_0000
  const PML4E_COVERAGE: nat := 0x80_0000_0000

  const HHDM_BEGIN: Word := 0xFFFF_8000_0000_0000
  const HHDM_SIZE: Word := 0x4000_0000_0000

  const PG_WRITE: nat := 0x2
  const PG_USER: nat := 0x4
  const PG_SIZE: nat := 0x80
  const MAP_HUGE: nat := 0x1000

  // ---- virtual addresses ----

  function Trim(v: nat): nat { v % TWO48 }
  function I4(v: nat): nat { Trim(v) / PML4E_COVERAGE }
  function I3(v: nat): nat { Trim(v) / PDPTE_COVERAGE % PTABLE_LEN }
  function I2(v: nat): nat { Trim(v) / PDE_COVERAGE % PTABLE_LEN }
  function I1(v: nat): nat { Trim(v) / PAGE_SIZE % PTABLE_LEN }

  /** The four indices and the offset are the digits of the 48-bit address. */
  lemma IndicesReassemble(v: nat)
    ensures I4(v) < PTABLE_LEN && I3(v) < PTABLE_LEN && I2(v) < PTABLE_LEN && I1(v) < PTABLE_LEN
    ensures Trim(v) == I4(v) * PML4E_COVERAGE + I3(v) * PDPTE_COVERAGE + I2(v) * PDE_COVERAGE
                       + I1(v) * PAGE_SIZE + v % PAGE_SIZE
  {
    var t := Trim(v);
    assert t % PAGE_SIZE == v % PAGE_SIZE;
    var q1 := t / PAGE_SIZE; var q2 := t / PDE_COVERAGE; var q3 := t / PDPTE_COVERAGE;
    assert q2 == q1 / PTABLE_LEN;
    assert q3 == q2 / PTABLE_LEN;
    assert t / PML4E_COVERAGE == q3 / PTABLE_LEN;
  }

  /** A leaf slot belongs to one 4 KiB page, a PDPT slot to one 1 GiB page. */
  lemma SlotsDeterminePage(v: nat, w: nat)
    ensures I4(v) == I4(w) && I3(v) == I3(w) <==> Trim(v) / PDPTE_COVERAGE == Trim(w) / PDPTE_COVERAGE
    ensures I4(v) == I4(w) && I3(v) == I3(w) && I2(v) == I2(w) && I1(v) == I1(w)
            <==> Trim(v) / PAGE_SIZE == Trim(w) / PAGE_SIZE
  {
    IndicesReassemble(v);
    IndicesReassemble(w);
    PageOfIndices(v);
    PageOfIndices(w);
  }

  lemma PageOfIndices(v: nat)
    ensures Trim(v) / PDPTE_COVERAGE == I4(v) * PTABLE_LEN + I3(v)
    ensures Trim(v) / PAGE_SIZE == ((I4(v) * PTABLE_LEN + I3(v)) * PTABLE_LEN + I2(v)) * PTABLE_LEN + I1(v)
  {
    IndicesReassemble(v);
  }

  /** The page after v: a base-512 counter with carries. */
  lemma NextPageCarries(v: nat)
    ensures var c1 := I1(v) == PTABLE_LEN - 1;
            var c2 := c1 && I2(v) == PTABLE_LEN - 1;
            var c3 := c2 && I3(v) == PTABLE_LEN - 1;
            && I1(v + PAGE_SIZE) == (if c1 then 0 else I1(v) + 1)
            && I2(v + PAGE_SIZE) == (if !c1 then I2(v) else if c2 then 0 else I2(v) + 1)
            && I3(v + PAGE_SIZE) == (if !c2 then I3(v) else if c3 then 0 else I3(v) + 1)
            && I4(v + PAGE_SIZE) == (if !c3 then I4(v) else (I4(v) + 1) % PTABLE_LEN)
  {
    var q1 := Trim(v) / PAGE_SIZE; var q2 := q1 / PTABLE_LEN; var q3 := q2 / PTABLE_LEN;
    DigitsOf(v);
    DigitsOf(v + PAGE_SIZE);
    NextPageNumber(v);
    Carry(q1);
    Carry(q2);
    Carry(q3);
  }

  const PAGE_COUNT: nat := 0x10_0000_0000

  lemma NextPageNumber(v: nat)
    ensures var q := Trim(v) / PAGE_SIZE;
            Trim(v + PAGE_SIZE) / PAGE_SIZE == if q == PAGE_COUNT - 1 then 0 else q + 1
  {
  }

  lemma DigitsOf(v: nat)
    ensures var q1 := Trim(v) / PAGE_SIZE; var q2 := q1 / PTABLE_LEN; var q3 := q2 / PTABLE_LEN;
            && I1(v) == q1 % PTABLE_LEN && I2(v) == q2 % PTABLE_LEN && I3(v) == q3 % PTABLE_LEN
            && I4(v) == q3 / PTABLE_LEN && I4(v) < PTABLE_LEN
  {
  }

  lemma Carry(q: nat)
    ensures (q + 1) % PTABLE_LEN == if q % PTABLE_LEN == PTABLE_LEN - 1 then 0 else q % PTABLE_LEN + 1
    ensures (q + 1) / PTABLE_LEN == if q % PTABLE_LEN == PTABLE_LEN - 1 then q / PTABLE_LEN + 1 else q / PTABLE_LEN
  {
  }

  // ---- entries ----

  function PageBase(e: nat): nat { e - e % PAGE_SIZE }
  predicate Present(e: nat) { e % 2 == 1 }
  predicate SizeBit(e: nat) { (e / PG_SIZE) % 2 == 1 }

  /** CHECK_VALID_TABLE */
  predicate ValidTable(e: nat) { Present(e) && !SizeBit(e) }

  predicate WantsHuge(flags: nat) { (flags / MAP_HUGE) % 2 == 1 }
  function LowFlags(flags: nat): nat { flags % 0x1000 }

  /** `paddr | (flags & 0xFFF) | 1` */
  function EntryOf(paddr: Word, flags: nat): Word
  {
    OrIsWord(paddr, LowFlags(flags));
    OrIsWord(Or(paddr, LowFlags(flags)), 1);
    Or(Or(paddr, LowFlags(flags)), 1)
  }

  lemma LowBits(base: nat, low: nat)
    requires base % PAGE_SIZE == 0 && low < PAGE_SIZE
    ensures PageBase(base + low) == base && SizeBit(base + low) == SizeBit(low)
    ensures (base + low) / PAGE_SIZE == base / PAGE_SIZE
  {
    var k := base / PAGE_SIZE;
    var q := low / PG_SIZE;
    DivMod(base + low, PAGE_SIZE, k, low);
    DivMod(base + low, PG_SIZE, 32 * k + q, low % PG_SIZE);
    DivMod(32 * k + q, 2, 16 * k + q / 2, q % 2);
  }

  lemma SizeBitOfOdd(low: nat)
    requires low % 2 == 0 && low < PAGE_SIZE
    ensures SizeBit(low + 1) == SizeBit(low) && low + 1 < PAGE_SIZE && (low + 1) % 2 == 1
  {
    var r := low % PG_SIZE;
    assert low == PG_SIZE * (low / PG_SIZE) + r;
    assert r % 2 == 0 && r < PG_SIZE;
    DivMod(low + 1, PG_SIZE, low / PG_SIZE, r + 1);
  }

  lemma PresentBit(base: nat, low: nat)
    requires base % PAGE_SIZE == 0 && low < PAGE_SIZE
    ensures var x := base + low; var e := if x % 2 == 1 then x else x + 1;
            PageBase(e) == base && Present(e) && SizeBit(e) == SizeBit(low)
  {
    hide SizeBit, PageBase;
    DivMod(base + low, 2, base / PAGE_SIZE * 2048 + low / 2, low % 2);
    if low % 2 == 1 {
      LowBits(base, low);
    } else {
      SizeBitOfOdd(low);
      LowBits(base, low + 1);
      DivMod(base + low + 1, 2, base / PAGE_SIZE * 2048 + low / 2, 1);
    }
  }

  lemma EntryFields(paddr: Word, flags: nat)
    requires paddr % PAGE_SIZE == 0
    ensures var e := EntryOf(paddr, flags);
            PageBase(e) == paddr && Present(e) && SizeBit(e) == SizeBit(LowFlags(flags))
  {
    hide Or, SizeBit, PageBase, Present;
    OrPage(paddr, LowFlags(flags));
    OrOne(paddr + LowFlags(flags));
    PresentBit(paddr, LowFlags(flags));
  }

  /** An entry is the frame, the low twelve flags and the present bit. */
  lemma EntryExactly(paddr: Word, flags: nat)
    requires paddr % 0x1000 == 0
    ensures var low := flags % 0x1000;
            EntryOf(paddr, flags) == paddr + low + (if low % 2 == 0 then 1 else 0)
  {
    hide Or;
    OrPage(paddr, LowFlags(flags));
    OrOne(paddr + LowFlags(flags));
    var low := LowFlags(flags);
    DivMod(paddr + low, 2, paddr / PAGE_SIZE * 2048 + low / 2, low % 2);
  }

  lemma {:induction false} HighPart(a: nat, x: nat, n: nat, k: nat)
    requires k < n
    ensures Bit(a * Pow2(n) + x, k) == Bit(x, k)
  {
    var h := a * Pow2(n - 1);
    MulTwice(a, Pow2(n - 1));
    if k > 0 {
      DivMod(2 * h + x, 2, h + x / 2, x % 2);
      HighPart(a, x / 2, n - 1, k - 1);
    }
  }

  /** Every flag from bit 1 to bit 11 is in the entry just as it was asked for. */
  lemma FlagsAreKept(paddr: Word, flags: nat, k: nat)
    requires paddr % 0x1000 == 0 && 1 <= k <= 11
    ensures Bit(EntryOf(paddr, flags), k) == Bit(flags, k)
  {
    hide EntryOf;
    EntryExactly(paddr, flags);
    var low := flags % 0x1000;
    var odd := low + (if low % 2 == 0 then 1 else 0);
    assert Pow2(12) == 0x1000;
    HighPart(paddr / 0x1000, odd, 12, k);
    HighPart(flags / 0x1000, low, 12, k);
    DivMod(odd, 2, low / 2, 1);
  }

  /** The low twelve bits of the entry that maps a page with these flags. */
  function LowOf(flags: nat): nat
  {
    var low := flags % 0x1000;
    low + (if low % 2 == 0 then 1 else 0) + (if flags / 0x1000 % 2 == 1 then 0x80 else 0)
  }

  /** `flags |= PG_SIZE` keeps the other flags. */
  lemma SizeFlag(flags: nat)
    ensures SizeBit(LowFlags(Or(flags, PG_SIZE)))
  {
    hide Or;
    OrBit7(flags);
    var f := Or(flags, PG_SIZE);
    assert SizeBit(f) by {
      if !SizeBit(flags) {
        SetBit7(flags);
      }
    }
    hide SizeBit;
    assert f == PageBase(f) + LowFlags(f);
    DivMod(PageBase(f), PAGE_SIZE, f / PAGE_SIZE, 0);
    LowBits(PageBase(f), LowFlags(f));
  }

  lemma SetBit7(x: nat)
    requires !SizeBit(x)
    ensures SizeBit(x + PG_SIZE)
  {
    var q := x / PG_SIZE;
    DivMod(x + PG_SIZE, PG_SIZE, q + 1, x % PG_SIZE);
    DivMod(q + 1, 2, q / 2, 1);
  }

  // ---- memory ----

  /** Byte address of entry o of a table. */
  function Slot(table: nat, o: nat): nat { table + 8 * o }

  // Reads beyond the modelled memory give 0 and writes there are lost.
  function Load(m: Memory, a: nat): Word { if a / 8 < |m| then m[a / 8] else 0 }
  function Store(m: Memory, a: nat, w: Word): Memory { if a / 8 < |m| then m[a / 8 := w] else m }

  lemma LoadStore(m: Memory, a: nat, w: Word, b: nat)
    requires a % 8 == 0 && b % 8 == 0
    ensures Load(Store(m, a, w), b) == if a == b && a / 8 < |m| then w else Load(m, b)
  {
  }

  // ---- the processor's walk ----

  // Bits 51..12, 51..21 and 51..30 of an entry.
  function Frame4K(e: Word): nat { e / PAGE_SIZE % 0x100_0000_0000 * PAGE_SIZE }
  function Frame2M(e: Word): nat { e / PDE_COVERAGE % 0x8000_0000 * PDE_COVERAGE }
  function Frame1G(e: Word): nat { e / PDPTE_COVERAGE % 0x40_0000 * PDPTE_COVERAGE }

  /** The entries the walk for v uses, from the top; none if v does not translate. Section 4.6: bit 1 of
      each permits writing and bit 2 user accesses, and an access needs it in all of them. */
  function WalkEntries(m: Memory, top: nat, v: nat): seq<Word>
  {
    var e4 := Load(m, Slot(top, I4(v)));
    if !ValidTable(e4) then [] else
    var e3 := Load(m, Slot(Frame4K(e4), I3(v)));
    if !Present(e3) then [] else
    if SizeBit(e3) then [e4, e3] else
    var e2 := Load(m, Slot(Frame4K(e3), I2(v)));
    if !Present(e2) then [] else
    if SizeBit(e2) then [e4, e3, e2] else
    var e1 := Load(m, Slot(Frame4K(e2), I1(v)));
    if !Present(e1) then [] else [e4, e3, e2, e1]
  }

  /** The entry that maps v's page, or 0. */
  function LastEntry(m: Memory, top: nat, v: nat): Word
  {
    var es := WalkEntries(m, top, v);
    if es == [] then 0 else es[|es| - 1]
  }

  function Translate(m: Memory, top: nat, v: nat): Option<nat>
  {
    var e4 := Load(m, Slot(top, I4(v)));
    if !ValidTable(e4) then None else  // bit 7 is reserved in a PML4 entry
    var e3 := Load(m, Slot(Frame4K(e4), I3(v)));
    if !Present(e3) then None else
    if SizeBit(e3) then Some(Frame1G(e3) + v % PDPTE_COVERAGE) else
    var e2 := Load(m, Slot(Frame4K(e3), I2(v)));
    if !Present(e2) then None else
    if SizeBit(e2) then Some(Frame2M(e2) + v % PDE_COVERAGE) else
    var e1 := Load(m, Slot(Frame4K(e2), I1(v)));
    if !Present(e1) then None else Some(Frame4K(e1) + v % PAGE_SIZE)
  }

  lemma PresentIsSome(e: nat)
    ensures Present(e) ==> e != 0
    ensures ValidTable(e) ==> Present(e)
  {
  }

  /** Both walks agree on what translates. */
  lemma WalksAgree(m: Memory, top: nat, v: nat)
    ensures WalkEntries(m, top, v) == [] <==> Translate(m, top, v) == None
    ensures LastEntry(m, top, v) != 0 <==> Translate(m, top, v) != None
  {
    hide Load, Slot, Frame4K, Frame2M, Frame1G, SizeBit, ValidTable, Present, I1, I2, I3, I4;
    forall e: nat ensures (Present(e) ==> e != 0) && (ValidTable(e) ==> Present(e))
    {
      PresentIsSome(e);
    }
  }
}
