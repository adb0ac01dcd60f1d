/** End-to-end safety of the allocators: over any run of `kmalloc` and `request_pages` calls and of
    writes by their clients, blocks never overlap, virtually or physically, and never meet a page
    table; and what a client wrote stays. */
module Heap {
  import opened Bits
  import opened Paging
  import opened Wrappers
  import opened PageTree
  import opened MapPages
  import opened MapRange
  import opened WalkCache
  import opened Arena

  /** A range handed to a client, the index of the mapped chunk it lies in, and the low twelve bits of the
      entries that map it. */
  datatype Block = Block(addr: nat, size: nat, chunk: nat, low: nat)

  /** `len` bytes at virtual address v, mapped one to one to frames from physical address f on, by entries
      with these low bits. */
  datatype Chunk = Chunk(v: nat, f: nat, len: nat, low: nat)

  datatype Call =
    | Bytes(size: Word)
    | Pages(n: nat, flags: nat)
    | Device(paddr: nat, count: nat, devFlags: nat)
    | Poke(addr: nat, word: Word)

  /** A client stores a 64-bit word through a virtual address. */
  function PokeAt(s: Vm, addr: nat, word: Word): Vm
  {
    match Translate(s.phys.mem, s.top, addr)
    case None => s
    case Some(a) => s.(phys := s.phys.(mem := Store(s.phys.mem, a, word)))
  }

  function PeekAt(s: Vm, addr: nat): Word
  {
    match Translate(s.phys.mem, s.top, addr)
    case None => 0
    case Some(a) => Load(s.phys.mem, a)
  }

  predicate InBlock(b: Block, a: nat) { b.addr <= a < b.addr + b.size }
  predicate WordInBlock(b: Block, a: nat) { a % 8 == 0 && b.addr <= a && a + 8 <= b.addr + b.size }

  // ---- the invariant ----

  /** Byte o is mapped by an entry with the chunk's low bits. */
  predicate ByteMapped(s: Vm, c: Chunk, o: nat)
  {
    && Translate(s.phys.mem, s.top, c.v + o) == Some(c.f + o)
    && LastEntry(s.phys.mem, s.top, c.v + o) % 0x1000 == c.low
  }

  /** The chunk is mapped, and no table lies in its frames. */
  ghost predicate Backed(s: Vm, c: Chunk)
  {
    && c.v % PAGE_SIZE == 0 && c.f % PAGE_SIZE == 0 && c.len % PAGE_SIZE == 0
    && VM_BEGIN_REQUEST <= c.v && c.v + c.len <= s.arena && c.f + c.len <= s.phys.head
    && (forall o: nat :: o < c.len ==> ByteMapped(s, c, o))
    && NoTableIn(s.phys.mem, s.top, c.f, c.len / PAGE_SIZE)
  }

  ghost predicate ChunksOk(s: Vm, chunks: seq<Chunk>)
  {
    && (forall i :: 0 <= i < |chunks| ==> Backed(s, chunks[i]))
    && (forall i, j :: 0 <= i < j < |chunks| ==>
          chunks[i].v + chunks[i].len <= chunks[j].v && chunks[i].f + chunks[i].len <= chunks[j].f)
  }

  predicate Apart(b: Block, c: Block) { b.addr + b.size <= c.addr || c.addr + c.size <= b.addr }

  predicate BlockOk(b: Block, chunks: seq<Chunk>)
  {
    && b.chunk < |chunks|
    && chunks[b.chunk].v <= b.addr && b.addr + b.size <= chunks[b.chunk].v + chunks[b.chunk].len
    && b.low == chunks[b.chunk].low
  }

  predicate BlocksOk(chunks: seq<Chunk>, blocks: seq<Block>)
  {
    && (forall i :: 0 <= i < |blocks| ==> BlockOk(blocks[i], chunks))
    && (forall i, j :: 0 <= i < j < |blocks| ==> Apart(blocks[i], blocks[j]))
  }

  /** `kmalloc` hands out the bytes of chunk `cur` from `offset` on. */
  predicate CurrentOk(s: Vm, chunks: seq<Chunk>, blocks: seq<Block>, cur: nat)
  {
    s.size == 0 ||
    (&& cur < |chunks| && chunks[cur].v == s.base && chunks[cur].len == s.size && chunks[cur].low == 0x3
     && s.offset < s.size
     && forall i :: 0 <= i < |blocks| && blocks[i].chunk == cur ==>
          blocks[i].addr + blocks[i].size <= s.base + s.offset)
  }

  ghost predicate HeapOk(s: Vm, chunks: seq<Chunk>, blocks: seq<Block>, cur: nat)
  {
    VmOk(s) && ChunksOk(s, chunks) && BlocksOk(chunks, blocks) && CurrentOk(s, chunks, blocks, cur)
  }

  /** The state `setup_vm` leaves: nothing handed out yet. */
  lemma HeapStarts(s: Vm)
    requires VmOk(s) && s.size == 0
    ensures HeapOk(s, [], [], 0)
  {
  }

  // ---- what the invariant says ----

  lemma BlockByte(s: Vm, chunks: seq<Chunk>, blocks: seq<Block>, cur: nat, i: nat, a: nat)
    requires HeapOk(s, chunks, blocks, cur) && i < |blocks| && InBlock(blocks[i], a)
    ensures var c := chunks[blocks[i].chunk];
            && c.v <= a < c.v + c.len
            && Translate(s.phys.mem, s.top, a) == Some(c.f + (a - c.v))
            && !InTable(s.phys.mem, s.top, c.f + (a - c.v))
            && VM_BEGIN_REQUEST <= a < VM_END_REQUEST
            && LastEntry(s.phys.mem, s.top, a) % 0x1000 == blocks[i].low
  {
    hide Translate, LastEntry;
    var c := chunks[blocks[i].chunk];
    assert BlockOk(blocks[i], chunks) && Backed(s, c);
    var o: nat := a - c.v;
    assert ByteMapped(s, c, o);
    NotInTable(s.phys, s.top, c, c.f + o);
  }

  lemma NotInTable(p: Phys, top: nat, c: Chunk, x: nat)
    requires NoTableIn(p.mem, top, c.f, c.len / PAGE_SIZE) && c.f <= x < c.f + c.len && c.len % PAGE_SIZE == 0
    ensures !InTable(p.mem, top, x)
  {
    forall path ensures !TableHolds(p.mem, top, path, x)
    {
      if ValidPath(path) && Reach(p.mem, top, path) != 0 {
        assert c.len == c.len / PAGE_SIZE * PAGE_SIZE;
      }
    }
  }

  /** Different bytes of blocks are different bytes of memory. */
  lemma BytesAreDistinct(s: Vm, chunks: seq<Chunk>, blocks: seq<Block>, cur: nat, i: nat, a: nat, j: nat, b: nat)
    requires HeapOk(s, chunks, blocks, cur) && i < |blocks| && j < |blocks|
    requires InBlock(blocks[i], a) && InBlock(blocks[j], b)
    ensures Translate(s.phys.mem, s.top, a) != None
    ensures a != b ==> Translate(s.phys.mem, s.top, a) != Translate(s.phys.mem, s.top, b)
  {
    hide Translate, LastEntry;
    BlockByte(s, chunks, blocks, cur, i, a);
    BlockByte(s, chunks, blocks, cur, j, b);
    var k, l := blocks[i].chunk, blocks[j].chunk;
    if k < l {
      assert chunks[k].f + chunks[k].len <= chunks[l].f;
    } else if l < k {
      assert chunks[l].f + chunks[l].len <= chunks[k].f;
    }
  }

  // ---- one call ----

  function Do(s: Vm, call: Call): (Vm, Word)
  {
    match call
    case Bytes(size) => Kmalloc(s, size)
    case Pages(n, flags) => RequestPages(s, 0, n, flags)
    case Device(paddr, n, flags) => RequestPages(s, paddr, n, flags)
    case Poke(addr, word) => (PokeAt(s, addr, word), 0)
  }

  /** The block a successful call hands out. */
  function Handed(s: Vm, call: Call, chunks: seq<Chunk>, cur: nat): seq<Block>
  {
    var (t, addr) := Do(s, call);
    match call
    case Bytes(size) => if addr == 0 then [] else
        [Block(addr, size, if U64(s.offset + size) < s.size then cur else |chunks|, 0x3)]
    case Pages(n, flags) => if addr == 0 then [] else [Block(addr, n * PAGE_SIZE, |chunks|, LowOf(flags))]
    case _ => []
  }

  /** The request is answered from the rest of the current chunk. */
  predicate Hit(s: Vm, size: Word) { U64(s.offset + size) < s.size }

  /** The guards are right about this size. */
  predicate SizeFits(s: Vm, size: Word)
  {
    if Hit(s, size) then s.offset + size < TWO64 else RangeFits(s, size / PAGE_SIZE + 1)
  }

  ghost predicate Allowed(s: Vm, blocks: seq<Block>, call: Call)
  {
    match call
    case Bytes(size) => SizeFits(s, size)
    case Pages(n, flags) => SmallFlags(flags) && RangeFits(s, n)
    case Device(paddr, n, flags) =>
      && SmallFlags(flags) && RangeFits(s, n) && !Exhausted(s.phys)
      && 0 != paddr && paddr % PAGE_SIZE == 0 && paddr + n * PAGE_SIZE <= TWO52
    case Poke(addr, _) => exists i :: 0 <= i < |blocks| && WordInBlock(blocks[i], addr)
  }

  lemma BackedKept(s: Vm, t: Vm, c: Chunk)
    requires Backed(s, c) && OnlyAdds(s.phys, t.phys, s.top) && t.top == s.top && s.arena <= t.arena
    ensures Backed(t, c)
  {
    hide Translate, LastEntry, HugeAt;
    assert c.len / PAGE_SIZE * PAGE_SIZE == c.len;
    forall path | ValidPath(path) && Reach(t.phys.mem, t.top, path) != 0
      ensures Reach(t.phys.mem, t.top, path) + PAGE_SIZE <= c.f
              || c.f + c.len / PAGE_SIZE * PAGE_SIZE <= Reach(t.phys.mem, t.top, path)
    {
      assert Reach(s.phys.mem, s.top, path) == 0 || Reach(t.phys.mem, s.top, path) == Reach(s.phys.mem, s.top, path);
    }
    forall o: nat | o < c.len ensures ByteMapped(t, c, o)
    {
      assert ByteMapped(s, c, o);
    }
  }

  lemma ChunksKept(s: Vm, t: Vm, chunks: seq<Chunk>)
    requires ChunksOk(s, chunks) && OnlyAdds(s.phys, t.phys, s.top) && t.top == s.top && s.arena <= t.arena
    ensures ChunksOk(t, chunks)
  {
    hide Backed, OnlyAdds;
    forall i | 0 <= i < |chunks| ensures Backed(t, chunks[i])
    {
      BackedKept(s, t, chunks[i]);
    }
  }

  lemma PageOfOffset(v: nat, o: nat)
    requires v % PAGE_SIZE == 0
    ensures (v + o) % PAGE_SIZE == o % PAGE_SIZE
  {
    DivMod(v + o, PAGE_SIZE, v / PAGE_SIZE + o / PAGE_SIZE, o % PAGE_SIZE);
  }

  lemma ChunkByte(p: Phys, q: Phys, top: nat, v: nat, f: nat, n: nat, flags: nat, o: nat)
    requires VM_BEGIN_REQUEST <= v && v + n * PAGE_SIZE <= VM_END_REQUEST && v % PAGE_SIZE == 0
    requires o < n * PAGE_SIZE && !WantsHuge(flags) && MappedAt(p, q, top, v, f, n, flags, v + o)
    ensures Translate(q.mem, top, v + o) == Some(f + o) && LastEntry(q.mem, top, v + o) % 0x1000 == LowOf(flags)
  {
    hide Translate, LastEntry, HugeAt;
    ArenaDist(v, v + o, flags);
    PageOfOffset(v, o);
    assert o / PAGE_SIZE < n;
  }

  lemma NewChunkBacked(s: Vm, t: Vm, n: nat, flags: nat)
    requires VmOk(s) && t.top == s.top && SmallFlags(flags) && FreshlyMapped(s, t, s.arena, n, flags)
    requires t.arena == s.arena + n * PAGE_SIZE <= VM_END_REQUEST
    ensures Backed(t, Chunk(s.arena, s.phys.head, n * PAGE_SIZE, LowOf(flags)))
  {
    hide Translate, LastEntry, HugeAt, MappedAt;
    DivMod(n * PAGE_SIZE, PAGE_SIZE, n, 0);
    var c := Chunk(s.arena, s.phys.head, n * PAGE_SIZE, LowOf(flags));
    forall o: nat | o < c.len ensures ByteMapped(t, c, o)
    {
      assert MappedAt(s.phys, t.phys, s.top, s.arena, s.phys.head, n, flags, s.arena + o);
      ChunkByte(s.phys, t.phys, s.top, s.arena, s.phys.head, n, flags, o);
    }
  }

  /** A new chunk lies above all others, in virtual and in physical memory. */
  lemma ChunkAdded(s: Vm, t: Vm, chunks: seq<Chunk>, n: nat, flags: nat)
    requires VmOk(s) && ChunksOk(s, chunks) && SmallFlags(flags)
    requires OnlyAdds(s.phys, t.phys, s.top) && t.top == s.top
    requires FreshlyMapped(s, t, s.arena, n, flags) && t.arena == s.arena + n * PAGE_SIZE <= VM_END_REQUEST
    ensures ChunksOk(t, chunks + [Chunk(s.arena, s.phys.head, n * PAGE_SIZE, LowOf(flags))])
  {
    hide Translate, LastEntry, OnlyAdds, FreshlyMapped, VmOk;
    ChunksKept(s, t, chunks);
    NewChunkBacked(s, t, n, flags);
    var c := Chunk(s.arena, s.phys.head, n * PAGE_SIZE, LowOf(flags));
    forall i | 0 <= i < |chunks|
      ensures chunks[i].v + chunks[i].len <= c.v && chunks[i].f + chunks[i].len <= c.f
    {
      assert Backed(s, chunks[i]);
    }
  }

  lemma BlockAdded(chunks: seq<Chunk>, more: seq<Chunk>, blocks: seq<Block>, b: Block)
    requires BlocksOk(chunks, blocks) && chunks <= more && BlockOk(b, more)
    requires forall i :: 0 <= i < |blocks| ==> Apart(blocks[i], b)
    ensures BlocksOk(more, blocks + [b])
  {
  }

  lemma BlocksBelow(s: Vm, chunks: seq<Chunk>, blocks: seq<Block>, b: Block)
    requires ChunksOk(s, chunks) && BlocksOk(chunks, blocks) && s.arena <= b.addr
    ensures forall i :: 0 <= i < |blocks| ==> Apart(blocks[i], b)
  {
    hide Translate, LastEntry;
    forall i | 0 <= i < |blocks| ensures Apart(blocks[i], b)
    {
      assert BlockOk(blocks[i], chunks) && Backed(s, chunks[blocks[i].chunk]);
    }
  }

  lemma VmOkOfParts(s: Vm, t: Vm)
    requires VmOk(s) && t == s.(base := t.base, offset := t.offset, size := t.size)
    ensures VmOk(t)
  {
    hide Translate, LastEntry, PlainSlot, Shape, Coherent;
  }

  lemma ChunksOfParts(s: Vm, t: Vm, chunks: seq<Chunk>)
    requires ChunksOk(s, chunks) && t == s.(base := t.base, offset := t.offset, size := t.size)
    ensures ChunksOk(t, chunks)
  {
    hide Translate, LastEntry, NoTableIn;
    forall i | 0 <= i < |chunks| ensures Backed(t, chunks[i])
    {
      assert Backed(s, chunks[i]);
      forall o: nat | o < chunks[i].len ensures ByteMapped(t, chunks[i], o)
      {
        assert ByteMapped(s, chunks[i], o);
      }
      PartsNoTable(s, t, chunks[i]);
    }
  }

  lemma PartsNoTable(s: Vm, t: Vm, c: Chunk)
    requires NoTableIn(s.phys.mem, s.top, c.f, c.len / PAGE_SIZE) && t.phys == s.phys && t.top == s.top
    ensures NoTableIn(t.phys.mem, t.top, c.f, c.len / PAGE_SIZE)
  {
  }

  /** The rest of the current chunk is big enough. */
  lemma KmallocHit(s: Vm, size: Word, chunks: seq<Chunk>, blocks: seq<Block>, cur: nat)
    requires HeapOk(s, chunks, blocks, cur) && SizeFits(s, size) && Hit(s, size)
    ensures var (t, addr) := Kmalloc(s, size);
            HeapOk(t, chunks, blocks + [Block(addr, size, cur, 0x3)], cur) && addr == s.base + s.offset
  {
    hide Translate, LastEntry, VmOk, Backed, RequestPages;
    var (t, addr) := Kmalloc(s, size);
    assert addr == s.base + s.offset by {
      assert Backed(s, chunks[cur]);
      ArenaBelowTop(s, chunks[cur]);
    }
    VmOkOfParts(s, t);
    ChunksOfParts(s, t, chunks);
    var b := Block(addr, size, cur, 0x3);
    CurrentIsFree(s, chunks, blocks, cur, b);
    BlockAdded(chunks, chunks, blocks, b);
  }

  lemma CurrentIsFree(s: Vm, chunks: seq<Chunk>, blocks: seq<Block>, cur: nat, b: Block)
    requires ChunksOk(s, chunks) && BlocksOk(chunks, blocks) && CurrentOk(s, chunks, blocks, cur)
    requires s.size != 0 && b.addr == s.base + s.offset && b.addr + b.size <= s.base + s.size
    ensures forall i :: 0 <= i < |blocks| ==> Apart(blocks[i], b)
  {
    hide Backed;
    forall i | 0 <= i < |blocks| ensures Apart(blocks[i], b)
    {
      assert BlockOk(blocks[i], chunks);
      var k := blocks[i].chunk;
      if k < cur {
        assert chunks[k].v + chunks[k].len <= chunks[cur].v;
      } else if cur < k {
        assert chunks[cur].v + chunks[cur].len <= chunks[k].v;
      }
    }
  }

  lemma ArenaBelowTop(s: Vm, c: Chunk)
    requires VmOk(s) && Backed(s, c)
    ensures c.v + c.len <= VM_END_REQUEST < TWO64
  {
  }

  lemma RequestStep(s: Vm, n: nat, flags: nat, chunks: seq<Chunk>, blocks: seq<Block>, size: nat)
    requires VmOk(s) && ChunksOk(s, chunks) && BlocksOk(chunks, blocks)
    requires SmallFlags(flags) && RangeFits(s, n) && size <= n * PAGE_SIZE
    ensures var (t, addr) := RequestPages(s, 0, n, flags);
            && VmOk(t) && t.base == s.base && t.offset == s.offset && t.size == s.size
            && ChunksOk(t, chunks)
            && (addr != 0 ==>
                  var more := chunks + [Chunk(addr, s.phys.head, n * PAGE_SIZE, LowOf(flags))];
                  ChunksOk(t, more) && BlocksOk(more, blocks + [Block(addr, size, |chunks|, LowOf(flags))]))
  {
    hide Translate, LastEntry, VmOk, RequestPages, FreshlyMapped, OnlyAdds, Backed;
    RequestOk(s, n, flags);
    var (t, addr) := RequestPages(s, 0, n, flags);
    if s.arena + n * PAGE_SIZE <= VM_END_REQUEST {
      ChunksKept(s, t, chunks);
      if addr != 0 {
        ChunkAdded(s, t, chunks, n, flags);
        var b := Block(addr, size, |chunks|, LowOf(flags));
        BlocksBelow(s, chunks, blocks, b);
        BlockAdded(chunks, chunks + [Chunk(addr, s.phys.head, n * PAGE_SIZE, LowOf(flags))], blocks, b);
      }
    }
  }

  lemma NewCurrent(u: Vm, chunks: seq<Chunk>, blocks: seq<Block>, c: Chunk, size: Word)
    requires BlocksOk(chunks, blocks)
    requires u.base == c.v && u.size == c.len && u.offset == size < c.len && c.low == 0x3
    ensures CurrentOk(u, chunks + [c], blocks + [Block(c.v, size, |chunks|, 0x3)], |chunks|)
  {
    forall i | 0 <= i < |blocks| ensures blocks[i].chunk != |chunks|
    {
      assert BlockOk(blocks[i], chunks);
    }
  }

  lemma RoundedUp(size: nat)
    ensures size < (size / PAGE_SIZE + 1) * PAGE_SIZE
  {
    assert size == size / PAGE_SIZE * PAGE_SIZE + size % PAGE_SIZE;
  }

  /** A new chunk is needed. */
  lemma KmallocMiss(s: Vm, size: Word, chunks: seq<Chunk>, blocks: seq<Block>, cur: nat)
    requires HeapOk(s, chunks, blocks, cur) && SizeFits(s, size) && !Hit(s, size)
    ensures var (t, addr) := Kmalloc(s, size);
            if addr == 0 then HeapOk(t, chunks, blocks, cur)
            else HeapOk(t, chunks + [Chunk(addr, s.phys.head, (size / PAGE_SIZE + 1) * PAGE_SIZE, 0x3)],
                        blocks + [Block(addr, size, |chunks|, 0x3)], |chunks|)
  {
    hide Translate, LastEntry, VmOk, RequestPages, Backed, ChunksOk, BlocksOk;
    var n := size / PAGE_SIZE + 1;
    RoundedUp(size);
    RequestStep(s, n, PG_WRITE, chunks, blocks, size);
    var (t, addr) := RequestPages(s, 0, n, PG_WRITE);
    if addr != 0 {
      RequestCases(s, 0, n, PG_WRITE);
      NoWrap(n * PAGE_SIZE);
      var c := Chunk(addr, s.phys.head, n * PAGE_SIZE, 0x3);
      var u := t.(base := addr, offset := size, size := U64(n * PAGE_SIZE));
      VmOkOfParts(t, u);
      ChunksOfParts(t, u, chunks + [c]);
      NewCurrent(u, chunks, blocks, c, size);
    }
  }

  /** The chunks are the old ones and perhaps new ones, in frames that were free. */
  predicate ChunksGrow(s: Vm, chunks: seq<Chunk>, more: seq<Chunk>)
  {
    chunks <= more && forall i :: |chunks| <= i < |more| ==> more[i].f >= s.phys.head
  }

  /** `kmalloc` keeps the heap in order, whether it succeeds or not. */
  lemma KmallocStep(s: Vm, size: Word, chunks: seq<Chunk>, blocks: seq<Block>, cur: nat)
    returns (more: seq<Chunk>, next: nat)
    requires HeapOk(s, chunks, blocks, cur) && SizeFits(s, size)
    ensures HeapOk(Do(s, Bytes(size)).0, more, blocks + Handed(s, Bytes(size), chunks, cur), next)
    ensures ChunksGrow(s, chunks, more)
  {
    hide HeapOk, Kmalloc;
    more, next := chunks, cur;
    var (t, addr) := Kmalloc(s, size);
    if Hit(s, size) {
      KmallocHit(s, size, chunks, blocks, cur);
      CurrentIsHigh(s, chunks, blocks, cur);
    } else {
      KmallocMiss(s, size, chunks, blocks, cur);
      if addr == 0 {
        assert blocks + [] == blocks;
      } else {
        more, next := chunks + [Chunk(addr, s.phys.head, (size / PAGE_SIZE + 1) * PAGE_SIZE, 0x3)], |chunks|;
      }
    }
  }

  lemma CurrentIsHigh(s: Vm, chunks: seq<Chunk>, blocks: seq<Block>, cur: nat)
    requires HeapOk(s, chunks, blocks, cur) && s.size != 0
    ensures s.base >= VM_BEGIN_REQUEST
  {
    hide Translate, LastEntry, VmOk;
    assert Backed(s, chunks[cur]);
  }

  /** `kmalloc` succeeds while the arena and the frames last, and says where the block is. */
  lemma KmallocSucceeds(s: Vm, size: Word, chunks: seq<Chunk>, blocks: seq<Block>, cur: nat)
    requires HeapOk(s, chunks, blocks, cur) && SizeFits(s, size)
    requires var n := size / PAGE_SIZE + 1;
             s.arena + n * PAGE_SIZE <= VM_END_REQUEST && s.phys.head + 4 * n * PAGE_SIZE <= s.phys.end
    ensures var addr := Kmalloc(s, size).1;
            addr == (if s.offset + size < s.size then s.base + s.offset else s.arena) && addr >= VM_BEGIN_REQUEST
  {
    hide HeapOk, RequestPages, Translate, LastEntry;
    HeapHasVm(s, chunks, blocks, cur);
    if Hit(s, size) {
      KmallocHit(s, size, chunks, blocks, cur);
      CurrentIsHigh(s, chunks, blocks, cur);
    } else {
      RequestSucceeds(s, size / PAGE_SIZE + 1, PG_WRITE);
    }
  }

  /** After a successful miss the current chunk is the new one, in whole pages, and its first m bytes are
      taken. */
  lemma ChunkAfterMiss(s: Vm, m: Word)
    requires VmOk(s) && !Hit(s, m) && RangeFits(s, m / 4096 + 1) && Kmalloc(s, m).1 != 0
    ensures var (t, first) := Kmalloc(s, m);
            var len := (m / 4096 + 1) * 4096;
            && first == s.arena && t.base == first && t.offset == m && t.size == len && t.arena == s.arena + len
  {
    hide RequestPages, VmOk, MapAllocPages;
    RequestCases(s, 0, m / PAGE_SIZE + 1, PG_WRITE);
    NoWrap((m / PAGE_SIZE + 1) * PAGE_SIZE);
  }

  /** The bytes of a run of sizes. */
  function Sum(sizes: seq<nat>): nat { if sizes == [] then 0 else sizes[0] + Sum(sizes[1..]) }

  function ByteCalls(sizes: seq<nat>): seq<Call>
    requires forall n :: n in sizes ==> n < TWO64
  {
    seq(|sizes|, i requires 0 <= i < |sizes| => (assert sizes[i] in sizes; Bytes(sizes[i])))
  }

  lemma CutBlock(s: Vm, n: Word)
    requires s.offset + n < s.size && s.base + s.size < TWO64
    ensures Do(s, Bytes(n)) == (s.(offset := s.offset + n), s.base + s.offset)
  {
    hide RequestPages;
    NoWrap(s.offset + n);
    NoWrap(s.base + s.offset);
  }

  lemma SumOfFirst(sizes: seq<nat>, i: nat)
    requires 0 < i <= |sizes|
    ensures Sum(sizes[..i]) == sizes[0] + Sum(sizes[1..][..i - 1])
  {
    assert sizes[..i][1..] == sizes[1..][..i - 1];
  }

  /** Blocks cut from the current chunk follow each other without gaps, and take no frames and no pages of
      the arena, as long as a byte of the chunk is left. */
  lemma {:induction false} BlocksFollow(s: Vm, sizes: seq<nat>)
    requires s.offset + Sum(sizes) < s.size && s.base + s.size < TWO64 && s.base != 0
    requires forall n :: n in sizes ==> n < TWO64
    ensures var (t, given) := AfterCalls(s, ByteCalls(sizes));
            && t == s.(offset := s.offset + Sum(sizes)) && |given| == |sizes|
            && forall i :: 0 <= i < |sizes| ==>
                 given[i].0 == s.base + s.offset + Sum(sizes[..i]) && given[i].1 == sizes[i]
    decreases |sizes|
  {
    hide Do;
    var calls := ByteCalls(sizes);
    if sizes != [] {
      var rest := sizes[1..];
      var n := sizes[0];
      assert n in sizes && forall m :: m in rest ==> m in sizes;
      var t := s.(offset := s.offset + n);
      CutBlock(s, n);
      assert calls[0] == Bytes(n) && calls[1..] == ByteCalls(rest);
      BlocksFollow(t, rest);
      forall i | 0 < i < |sizes|
        ensures Sum(sizes[..i]) == n + Sum(rest[..i - 1])
      {
        SumOfFirst(sizes, i);
      }
    }
  }

  /** Small blocks share pages: after a successful miss of m bytes, a run of sizes that fits the rounded
      up chunk gets the bytes right behind them, and only the miss took frames. */
  lemma SmallBlocksShare(s: Vm, m: Word, sizes: seq<nat>)
    requires VmOk(s) && !Hit(s, m) && RangeFits(s, m / 4096 + 1) && Kmalloc(s, m).1 != 0
    requires m + Sum(sizes) < (m / 4096 + 1) * 4096 && forall n :: n in sizes ==> n < TWO64
    ensures var (t, first) := Kmalloc(s, m);
            var (u, given) := AfterCalls(t, ByteCalls(sizes));
            && u.phys == t.phys && u.arena == t.arena && u.cache == t.cache && |given| == |sizes|
            && forall i :: 0 <= i < |sizes| ==>
                 given[i].0 == first + m + Sum(sizes[..i]) && given[i].1 == sizes[i]
  {
    hide Kmalloc, AfterCalls, VmOk;
    ChunkAfterMiss(s, m);
    ArenaBounds(s);
    var t := Kmalloc(s, m).0;
    ArenaAfterMiss(s, m);
    BlocksFollow(t, sizes);
  }

  lemma ArenaAfterMiss(s: Vm, m: Word)
    requires VmOk(s) && !Hit(s, m) && RangeFits(s, m / 4096 + 1) && Kmalloc(s, m).1 != 0
    ensures s.arena + (m / 4096 + 1) * 4096 <= VM_END_REQUEST
  {
    hide RequestPages, VmOk, MapAllocPages;
    RequestCases(s, 0, m / PAGE_SIZE + 1, PG_WRITE);
  }

  lemma PagesStep(s: Vm, n: nat, flags: nat, chunks: seq<Chunk>, blocks: seq<Block>, cur: nat)
    returns (more: seq<Chunk>)
    requires HeapOk(s, chunks, blocks, cur) && Allowed(s, blocks, Pages(n, flags))
    ensures HeapOk(Do(s, Pages(n, flags)).0, more, blocks + Handed(s, Pages(n, flags), chunks, cur), cur)
    ensures ChunksGrow(s, chunks, more)
  {
    hide VmOk, RequestPages, ChunksOk;
    RequestStep(s, n, flags, chunks, blocks, n * PAGE_SIZE);
    var (t, addr) := RequestPages(s, 0, n, flags);
    if addr == 0 {
      more := chunks;
      assert blocks + [] == blocks;
    } else {
      more := chunks + [Chunk(addr, s.phys.head, n * PAGE_SIZE, LowOf(flags))];
    }
  }

  lemma DeviceStep(s: Vm, call: Call, chunks: seq<Chunk>, blocks: seq<Block>, cur: nat)
    requires call.Device? && HeapOk(s, chunks, blocks, cur) && Allowed(s, blocks, call)
    ensures HeapOk(Do(s, call).0, chunks, blocks, cur)
  {
    hide VmOk, RequestPages, Translate, LastEntry, OnlyAdds, Backed;
    assert Coherent(s.cache, s.phys.mem, s.top) by { CacheIsCoherent(s); }
    RequestDeviceOk(s, call.paddr, call.count, call.devFlags);
    if s.arena + call.count * PAGE_SIZE <= VM_END_REQUEST {
      ChunksKept(s, Do(s, call).0, chunks);
    }
  }

  lemma CacheIsCoherent(s: Vm)
    requires VmOk(s) && !Exhausted(s.phys)
    ensures Coherent(s.cache, s.phys.mem, s.top)
  {
  }

  /** A client's word is one word of memory outside the page tables. */
  lemma BlockWord(s: Vm, chunks: seq<Chunk>, blocks: seq<Block>, cur: nat, i: nat, a: nat) returns (x: nat)
    requires HeapOk(s, chunks, blocks, cur) && i < |blocks| && WordInBlock(blocks[i], a)
    ensures Translate(s.phys.mem, s.top, a) == Some(x)
    ensures x % 8 == 0 && x < s.phys.head && !InTable(s.phys.mem, s.top, x)
  {
    hide Translate, LastEntry, VmOk, NoTableIn;
    BlockByte(s, chunks, blocks, cur, i, a);
    var c := chunks[blocks[i].chunk];
    x := c.f + (a - c.v);
    assert Backed(s, c) && BlockOk(blocks[i], chunks);
    DivMod(x, 8, c.f / PAGE_SIZE * 512 + a / 8 - c.v / PAGE_SIZE * 512, 0);
  }

  lemma PokeKeepsVm(s: Vm, x: nat, w: Word)
    requires VmOk(s) && x % 8 == 0 && x < s.phys.head && !InTable(s.phys.mem, s.top, x)
    ensures var t := s.(phys := s.phys.(mem := Store(s.phys.mem, x, w)));
            && VmOk(t)
            && (forall path :: ValidPath(path) ==> Reach(t.phys.mem, s.top, path) == Reach(s.phys.mem, s.top, path))
            && (forall v :: Translate(t.phys.mem, s.top, v) == Translate(s.phys.mem, s.top, v))
            && (forall v :: LastEntry(t.phys.mem, s.top, v) == LastEntry(s.phys.mem, s.top, v))
  {
    hide Translate, LastEntry, HugeAt, Shape, Store;
    DataStoreKeepsTree(s.phys, s.top, x, w);
    var t := s.(phys := s.phys.(mem := Store(s.phys.mem, x, w)));
    if Coherent(s.cache, s.phys.mem, s.top) {
      PathBounds(s.cache);
    }
  }

  lemma PokeStep(s: Vm, addr: nat, w: Word, chunks: seq<Chunk>, blocks: seq<Block>, cur: nat)
    requires HeapOk(s, chunks, blocks, cur) && Allowed(s, blocks, Poke(addr, w))
    ensures HeapOk(Do(s, Poke(addr, w)).0, chunks, blocks, cur)
  {
    hide VmOk, Translate, LastEntry, Store;
    var i :| 0 <= i < |blocks| && WordInBlock(blocks[i], addr);
    var x := BlockWord(s, chunks, blocks, cur, i, addr);
    PokeKeepsVm(s, x, w);
    var t := PokeAt(s, addr, w);
    forall k | 0 <= k < |chunks| ensures Backed(t, chunks[k])
    {
      assert Backed(s, chunks[k]);
      forall o: nat | o < chunks[k].len ensures ByteMapped(t, chunks[k], o)
      {
        assert ByteMapped(s, chunks[k], o);
      }
    }
  }

  /** Every call keeps the invariant. */
  lemma CallStep(s: Vm, call: Call, chunks: seq<Chunk>, blocks: seq<Block>, cur: nat)
    returns (more: seq<Chunk>, next: nat)
    requires HeapOk(s, chunks, blocks, cur) && Allowed(s, blocks, call)
    ensures HeapOk(Do(s, call).0, more, blocks + Handed(s, call, chunks, cur), next)
    ensures ChunksGrow(s, chunks, more)
  {
    hide HeapOk, Kmalloc, RequestPages, PokeAt;
    more, next := chunks, cur;
    match call
    case Bytes(size) => more, next := KmallocStep(s, size, chunks, blocks, cur);
    case Pages(n, flags) => more := PagesStep(s, n, flags, chunks, blocks, cur);
    case Device(_, _, _) => DeviceStep(s, call, chunks, blocks, cur); assert blocks + [] == blocks;
    case Poke(addr, w) => PokeStep(s, addr, w, chunks, blocks, cur); assert blocks + [] == blocks;
  }

  // ---- whole runs ----

  /** The state after a run of calls, and the blocks they handed out, in order; each block carries
      the index of its chunk. */
  function AfterCalls(s: Vm, calls: seq<Call>): (Vm, seq<(Word, nat, nat)>)
    decreases |calls|
  {
    if calls == [] then (s, []) else
    var (t, addr) := Do(s, calls[0]);
    var (u, rest) := AfterCalls(t, calls[1..]);
    (u, Result(calls[0], addr) + rest)
  }

  /** The range a successful call returned. */
  function Result(call: Call, addr: Word): seq<(Word, nat, nat)>
  {
    if addr == 0 then [] else
    match call
    case Bytes(size) => [(addr, size, 0x3)]
    case Pages(n, flags) => [(addr, n * PAGE_SIZE, LowOf(flags))]
    case _ => []
  }

  /** Sizes do not wrap, devices are mapped while frames remain, and clients write only inside
      ranges they were given. */
  ghost predicate RunAllowed(s: Vm, given: seq<(Word, nat, nat)>, calls: seq<Call>)
    decreases |calls|
  {
    calls == [] ||
    var (t, addr) := Do(s, calls[0]);
    CallAllowed(s, given, calls[0]) && RunAllowed(t, given + Result(calls[0], addr), calls[1..])
  }

  predicate WordInRange(range: (Word, nat, nat), a: nat)
  {
    a % 8 == 0 && range.0 <= a && a + 8 <= range.0 + range.1
  }

  ghost predicate CallAllowed(s: Vm, given: seq<(Word, nat, nat)>, call: Call)
  {
    match call
    case Poke(addr, _) => exists i :: 0 <= i < |given| && WordInRange(given[i], addr)
    case _ => Allowed(s, [], call)
  }

  predicate Describes(blocks: seq<Block>, given: seq<(Word, nat, nat)>)
  {
    |blocks| == |given| && forall i :: 0 <= i < |given| ==> 
      blocks[i].addr == given[i].0 && blocks[i].size == given[i].1 && blocks[i].low == given[i].2
  }

  lemma AllowedOfCall(s: Vm, given: seq<(Word, nat, nat)>, blocks: seq<Block>, call: Call)
    requires CallAllowed(s, given, call) && Describes(blocks, given)
    ensures Allowed(s, blocks, call)
  {
    if call.Poke? {
      var i :| 0 <= i < |given| && WordInRange(given[i], call.addr);
      assert WordInBlock(blocks[i], call.addr);
    }
  }

  lemma HandedDescribes(s: Vm, call: Call, chunks: seq<Chunk>, cur: nat)
    ensures Describes(Handed(s, call, chunks, cur), Result(call, Do(s, call).1))
  {
    hide Kmalloc, RequestPages, PokeAt;
  }

  lemma {:induction false} RunKeepsHeap(s: Vm, given: seq<(Word, nat, nat)>, calls: seq<Call>,
                                        chunks: seq<Chunk>, blocks: seq<Block>, cur: nat)
    returns (more: seq<Chunk>, all: seq<Block>, next: nat)
    requires HeapOk(s, chunks, blocks, cur) && Describes(blocks, given) && RunAllowed(s, given, calls)
    ensures HeapOk(AfterCalls(s, calls).0, more, all, next)
    ensures Describes(all, given + AfterCalls(s, calls).1)
    decreases |calls|
  {
    hide HeapOk, Do;
    if calls == [] {
      more, all, next := chunks, blocks, cur;
      assert given + [] == given;
    } else {
      AllowedOfCall(s, given, blocks, calls[0]);
      HandedDescribes(s, calls[0], chunks, cur);
      var chunks1, cur1 := CallStep(s, calls[0], chunks, blocks, cur);
      var (t, addr) := Do(s, calls[0]);
      var r := Result(calls[0], addr);
      more, all, next := RunKeepsHeap(t, given + r, calls[1..], chunks1,
                                      blocks + Handed(s, calls[0], chunks, cur), cur1);
      assert given + r + AfterCalls(t, calls[1..]).1 == given + (r + AfterCalls(t, calls[1..]).1);
    }
  }

  lemma BlocksApart(s: Vm, chunks: seq<Chunk>, blocks: seq<Block>, cur: nat, i: nat, j: nat)
    requires HeapOk(s, chunks, blocks, cur) && i < |blocks| && j < |blocks|
    ensures VmOk(s) && (i != j ==> Apart(blocks[i], blocks[j]))
  {
    hide VmOk, ChunksOk;
    if j < i {
      assert Apart(blocks[j], blocks[i]);
    }
  }

  predicate InRange(given: seq<(Word, nat, nat)>, i: nat, a: nat)
  {
    i < |given| && given[i].0 <= a < given[i].0 + given[i].1
  }

  /** Byte a of range i and byte b of range j are mapped, with the flags asked for, outside the page
      tables, and are the same byte of memory only when they are the same byte. */
  ghost predicate SafeBytes(t: Vm, given: seq<(Word, nat, nat)>, i: nat, j: nat, a: nat, b: nat)
  {
    && i < |given| && LastEntry(t.phys.mem, t.top, a) % 0x1000 == given[i].2
    && (i != j ==> a != b)
    && VM_BEGIN_REQUEST <= a < VM_END_REQUEST
    && Translate(t.phys.mem, t.top, a).Some?
    && !InTable(t.phys.mem, t.top, Translate(t.phys.mem, t.top, a).value)
    && (a != b ==> Translate(t.phys.mem, t.top, a) != Translate(t.phys.mem, t.top, b))
  }

  lemma NothingGiven()
    ensures Describes([], [])
  {
  }

  lemma BlocksAreSafe(t: Vm, chunks: seq<Chunk>, blocks: seq<Block>, cur: nat, given: seq<(Word, nat, nat)>,
                      i: nat, j: nat, a: nat, b: nat)
    requires HeapOk(t, chunks, blocks, cur) && Describes(blocks, given)
    requires InRange(given, i, a) && InRange(given, j, b)
    ensures VmOk(t) && SafeBytes(t, given, i, j, a, b)
  {
    hide Translate, LastEntry, VmOk, HeapOk, InTable;
    assert InBlock(blocks[i], a) && InBlock(blocks[j], b);
    BlocksApart(t, chunks, blocks, cur, i, j);
    BlockByte(t, chunks, blocks, cur, i, a);
    BytesAreDistinct(t, chunks, blocks, cur, i, a, j, b);
  }

  /** End-to-end allocator safety. Over any run of `kmalloc`, `request_pages` and client writes that
      starts from an empty heap, the ranges returned do not overlap, lie in the virtual arena, and
      every byte of them translates to its own byte of physical memory, outside all page tables. */
  lemma AllocatorsAreSafe(s: Vm, calls: seq<Call>, i: nat, j: nat, a: nat, b: nat)
    requires VmOk(s) && s.size == 0 && RunAllowed(s, [], calls)
    requires var given := AfterCalls(s, calls).1; InRange(given, i, a) && InRange(given, j, b)
    ensures var (t, given) := AfterCalls(s, calls); VmOk(t) && SafeBytes(t, given, i, j, a, b)
  {
    hide *;
    HeapStarts(s);
    var (t, given) := AfterCalls(s, calls);
    NothingGiven();
    var chunks, blocks, cur := RunKeepsHeap(s, [], calls, [], [], 0);
    assert [] + given == given;
    BlocksAreSafe(t, chunks, blocks, cur, given, i, j, a, b);
  }

  // ---- the virtual arena ----

  /** The ranges `request_pages` handed out over a run, in order, devices included. */
  function Requested(s: Vm, calls: seq<Call>): seq<(Word, nat, nat)>
    decreases |calls|
  {
    if calls == [] then [] else
    var (t, addr) := Do(s, calls[0]);
    RangeOf(calls[0], addr) + Requested(t, calls[1..])
  }

  function RangeOf(call: Call, addr: Word): seq<(Word, nat, nat)>
  {
    if addr == 0 then [] else
    match call
    case Pages(n, flags) => [(addr, n * PAGE_SIZE, LowOf(flags))]
    case Device(_, n, flags) => [(addr, n * PAGE_SIZE, LowOf(flags))]
    case _ => []
  }

  /** A range is cut from the bottom of what is left of the arena, which only shrinks. */
  lemma RequestTakesHead(s: Vm, blocks: seq<Block>, call: Call)
    requires VmOk(s) && Allowed(s, blocks, call)
    ensures var (t, addr) := Do(s, call);
            && s.arena <= t.arena
            && var r := RangeOf(call, addr);
               r == [] || (|r| == 1 && r[0].0 == s.arena && r[0].1 == t.arena - s.arena)
  {
    hide RequestPages, OnlyAdds, Translate, LastEntry, VmOk, FreshlyMapped;
    match call
    case Bytes(size) => if !Hit(s, size) { RequestOk(s, size / PAGE_SIZE + 1, PG_WRITE); }
    case Pages(n, flags) => RequestOk(s, n, flags);
    case Device(paddr, n, flags) => CacheIsCoherent(s); RequestDeviceOk(s, paddr, n, flags);
    case Poke(_, _) =>
  }

  /** Over any run the ranges are increasing and disjoint and lie between the arena's head before
      the run and its head after it; above that nothing translates yet. */
  lemma {:induction false} RangesIncrease(s: Vm, given: seq<(Word, nat, nat)>, calls: seq<Call>,
                                          chunks: seq<Chunk>, blocks: seq<Block>, cur: nat)
    requires HeapOk(s, chunks, blocks, cur) && Describes(blocks, given) && RunAllowed(s, given, calls)
    ensures var t := AfterCalls(s, calls).0; var ranges := Requested(s, calls);
            && VM_BEGIN_REQUEST <= s.arena <= t.arena <= VM_END_REQUEST && ArenaFree(t)
            && Increasing(ranges, s.arena, t.arena)
    decreases |calls|
  {
    hide HeapOk, Do, Allowed;
    HeapHasVm(s, chunks, blocks, cur);
    ArenaBounds(s);
    if calls != [] {
      hide VmOk, ArenaFree;
      AllowedOfCall(s, given, blocks, calls[0]);
      HandedDescribes(s, calls[0], chunks, cur);
      RequestTakesHead(s, blocks, calls[0]);
      var more, next := CallStep(s, calls[0], chunks, blocks, cur);
      var (t, addr) := Do(s, calls[0]);
      RangesIncrease(t, given + Result(calls[0], addr), calls[1..], more,
                     blocks + Handed(s, calls[0], chunks, cur), next);
      var last := AfterCalls(t, calls[1..]).0;
      assert AfterCalls(s, calls).0 == last;
      IncreasingCons(RangeOf(calls[0], addr), Requested(t, calls[1..]), s.arena, t.arena, last.arena);
    }
  }

  predicate Increasing(ranges: seq<(Word, nat, nat)>, lo: nat, hi: nat)
  {
    && (forall i :: 0 <= i < |ranges| ==> lo <= ranges[i].0 && ranges[i].0 + ranges[i].1 <= hi)
    && (forall i, j :: 0 <= i < j < |ranges| ==> ranges[i].0 + ranges[i].1 <= ranges[j].0)
  }

  lemma IncreasingCons(first: seq<(Word, nat, nat)>, rest: seq<(Word, nat, nat)>, lo: nat, mid: nat, hi: nat)
    requires Increasing(rest, mid, hi) && lo <= mid <= hi
    requires first == [] || (|first| == 1 && first[0].0 == lo && lo + first[0].1 == mid)
    ensures Increasing(first + rest, lo, hi)
  {
    var all := first + rest;
    forall i | |first| <= i < |all| ensures all[i] == rest[i - |first|]
    {
    }
  }

  lemma ArenaBounds(s: Vm)
    requires VmOk(s)
    ensures VM_BEGIN_REQUEST <= s.arena <= VM_END_REQUEST && ArenaFree(s)
  {
  }

  // ---- what clients wrote ----

  lemma OnlyPokesWrite(s: Vm, blocks: seq<Block>, call: Call)
    requires VmOk(s) && Allowed(s, blocks, call) && !call.Poke?
    ensures var t := Do(s, call).0; t.top == s.top && OnlyAdds(s.phys, t.phys, s.top)
  {
    hide RequestPages, OnlyAdds, Translate, LastEntry, VmOk;
    OnlyAddsRefl(s.phys, s.top);
    match call
    case Bytes(size) => if !Hit(s, size) { RequestOk(s, size / PAGE_SIZE + 1, PG_WRITE); }
    case Pages(n, flags) => RequestOk(s, n, flags);
    case Device(paddr, n, flags) => CacheIsCoherent(s); RequestDeviceOk(s, paddr, n, flags);
  }

  lemma WordOutsideTables(p: Phys, q: Phys, top: nat, x: nat)
    requires Shape(p, top) && Extends(p, q, top) && x % 8 == 0 && x < p.head && !InTable(q.mem, top, x)
    ensures Load(q.mem, x) == Load(p.mem, x)
  {
    assert 8 * (x / 8) == x;
  }

  /** A call changes a client's word only if it is a write to that word, and then as asked. */
  lemma CallKeepsWord(s: Vm, call: Call, chunks: seq<Chunk>, blocks: seq<Block>, cur: nat, i: nat, a: nat)
    requires HeapOk(s, chunks, blocks, cur) && Allowed(s, blocks, call)
    requires i < |blocks| && WordInBlock(blocks[i], a)
    ensures PeekAt(Do(s, call).0, a) == if call.Poke? && call.addr == a then call.word else PeekAt(s, a)
  {
    hide Do, Translate, LastEntry, VmOk, HeapOk, Store, Load, InTable, OnlyTablesWritten;
    var x := BlockWord(s, chunks, blocks, cur, i, a);
    if call.Poke? {
      PokedWord(s, call.addr, call.word, chunks, blocks, cur, i, a);
      assert Do(s, call).0 == PokeAt(s, call.addr, call.word) by { DoPoke(s, call); }
    } else {
      HeapHasVm(s, chunks, blocks, cur);
      OnlyPokesWrite(s, blocks, call);
      var t := Do(s, call).0;
      var more, next := CallStep(s, call, chunks, blocks, cur);
      var all := blocks + Handed(s, call, chunks, cur);
      assert all[i] == blocks[i];
      var y := BlockWord(t, more, all, next, i, a);
      assert Some(y) == Some(x);
      WordOutsideTables(s.phys, t.phys, s.top, x);
    }
  }

  lemma DoPoke(s: Vm, call: Call)
    requires call.Poke?
    ensures Do(s, call).0 == PokeAt(s, call.addr, call.word)
  {
  }

  lemma HeapHasVm(s: Vm, chunks: seq<Chunk>, blocks: seq<Block>, cur: nat)
    requires HeapOk(s, chunks, blocks, cur)
    ensures VmOk(s) && Shape(s.phys, s.top)
  {
  }

  lemma PokedWord(s: Vm, b: nat, w: Word, chunks: seq<Chunk>, blocks: seq<Block>, cur: nat, i: nat, a: nat)
    requires HeapOk(s, chunks, blocks, cur) && Allowed(s, blocks, Poke(b, w))
    requires i < |blocks| && WordInBlock(blocks[i], a)
    ensures PeekAt(PokeAt(s, b, w), a) == if b == a then w else PeekAt(s, a)
  {
    hide Translate, LastEntry, VmOk, HeapOk, Store, Load, Backed;
    var j :| 0 <= j < |blocks| && WordInBlock(blocks[j], b);
    var x := BlockWord(s, chunks, blocks, cur, i, a);
    var y := BlockWord(s, chunks, blocks, cur, j, b);
    HeapHasVm(s, chunks, blocks, cur);
    PokeKeepsVm(s, y, w);
    HeadInMemory(s.phys, s.top, y);
    LoadStore(s.phys.mem, y, w, x);
    if a != b {
      BytesAreDistinct(s, chunks, blocks, cur, i, a, j, b);
    }
  }

  lemma HeadInMemory(p: Phys, top: nat, x: nat)
    requires Shape(p, top) && x < p.head
    ensures x / 8 < |p.mem|
  {
  }

  /** A word keeps its value over every run that does not write it. */
  lemma {:induction false} RunKeepsWord(s: Vm, given: seq<(Word, nat, nat)>, calls: seq<Call>,
                                        chunks: seq<Chunk>, blocks: seq<Block>, cur: nat, i: nat, a: nat)
    requires HeapOk(s, chunks, blocks, cur) && Describes(blocks, given) && RunAllowed(s, given, calls)
    requires i < |blocks| && WordInBlock(blocks[i], a)
    requires forall k :: 0 <= k < |calls| ==> !(calls[k].Poke? && calls[k].addr == a)
    ensures PeekAt(AfterCalls(s, calls).0, a) == PeekAt(s, a)
    decreases |calls|
  {
    hide HeapOk, Do, PeekAt;
    if calls != [] {
      AllowedOfCall(s, given, blocks, calls[0]);
      HandedDescribes(s, calls[0], chunks, cur);
      CallKeepsWord(s, calls[0], chunks, blocks, cur, i, a);
      var chunks1, cur1 := CallStep(s, calls[0], chunks, blocks, cur);
      var (t, addr) := Do(s, calls[0]);
      RunKeepsWord(t, given + Result(calls[0], addr), calls[1..], chunks1,
                   blocks + Handed(s, calls[0], chunks, cur), cur1, i, a);
    }
  }

  // ---- sizes that wrap ----

  /** The largest size on an empty heap: the guard lets 2^52 pages through, no frame is set aside for
      them, and the head of the arena does not move. */
  lemma LargestSizePasses(s: Vm)
    requires VmOk(s) && s.size == 0 && s.offset == 0
    ensures var n := (TWO64 - 1) / PAGE_SIZE + 1;
            && n == 0x10_0000_0000_0000 && s.arena + n * PAGE_SIZE > VM_END_REQUEST
            && !Refuses(s, n, PG_WRITE) && AllocPages(s.phys, n) == (s.phys, s.phys.head)
            && Kmalloc(s, TWO64 - 1).0.arena == s.arena
  {
    hide VmOk, RequestPages, AllocPages, Refuses;
    HeadIsSmall(s);
    ArenaBounds(s);
    HeadIsArena(s);
    RequestGuard(s, 0, 0x10_0000_0000_0000, PG_WRITE);
    DivMod(s.arena + TWO64, TWO64, 1, s.arena);
    AllocWraps(s.phys, 0x10_0000_0000_0000);
    DivMod(s.phys.head + TWO64, TWO64, 1, s.phys.head);
    assert U64(s.offset + (TWO64 - 1)) == TWO64 - 1;
  }

  lemma HeadIsArena(s: Vm)
    requires VmOk(s)
    ensures ArenaOk(s.phys)
  {
  }

  /** One page more, and the head moves on by one page. */
  lemma LargestRangeMovesOn(s: Vm, paddr: nat)
    requires VmOk(s) && s.arena + PAGE_SIZE <= VM_END_REQUEST
    ensures RequestPages(s, paddr, 0x10_0000_0000_0001, PG_WRITE).0.arena == s.arena + PAGE_SIZE
  {
    hide VmOk, RequestPages, Refuses;
    RequestGuard(s, paddr, 0x10_0000_0000_0001, PG_WRITE);
    DivMod(s.arena + TWO64 + PAGE_SIZE, TWO64, 1, s.arena + PAGE_SIZE);
  }

  /** Exactly when a block cut from the current chunk lies inside it: the size must not wrap. */
  lemma HitExactly(s: Vm, size: Word, chunks: seq<Chunk>, blocks: seq<Block>, cur: nat)
    requires HeapOk(s, chunks, blocks, cur) && Hit(s, size)
    ensures var addr := Kmalloc(s, size).1;
            && addr == s.base + s.offset
            && (addr + size <= s.base + s.size <==> s.offset + size < TWO64)
  {
    hide Translate, LastEntry, VmOk, Backed, RequestPages;
    assert Backed(s, chunks[cur]);
    ArenaBelowTop(s, chunks[cur]);
    if s.offset + size < TWO64 {
      DivMod(s.offset + size, TWO64, 0, s.offset + size);
    }
  }

  /** A size that wraps moves the allocator back into blocks it has handed out: the next call
      overlaps the block that holds the byte it moved back to. */
  lemma WrappedSizeOverlaps(s: Vm, size: Word, m: Word, chunks: seq<Chunk>, blocks: seq<Block>, cur: nat, i: nat)
    requires HeapOk(s, chunks, blocks, cur) && Hit(s, size) && s.offset + size >= TWO64
    requires var back := s.offset + size - TWO64;
             i < |blocks| && InBlock(blocks[i], s.base + back) && 0 < m && back + m < s.size
    ensures var t := Kmalloc(s, size).0;
            var next := Kmalloc(t, m).1;
            next == s.base + (s.offset + size - TWO64) && !Apart(blocks[i], Block(next, m, cur, 0x3))
  {
    hide Translate, LastEntry, VmOk, Backed, RequestPages;
    var back := s.offset + size - TWO64;
    DivMod(s.offset + size, TWO64, 1, back);
    DivMod(back + m, TWO64, 0, back + m);
    assert Backed(s, chunks[cur]);
    ArenaBelowTop(s, chunks[cur]);
    var t := Kmalloc(s, size).0;
    assert t == s.(offset := back);
  }

  /** Such a run from any state: a block of x bytes, a size that wraps, and a block of m bytes where
      the first one is. */
  lemma WrappedRunOverlaps(s: Vm, x: Word, m: Word, chunks: seq<Chunk>, blocks: seq<Block>, cur: nat)
    requires HeapOk(s, chunks, blocks, cur) && 0 < x && 0 < m && s.offset + x < s.size && s.offset + m < s.size
    ensures var (t, first) := Kmalloc(s, x);
            var (u, _) := Kmalloc(t, TWO64 - x);
            var third := Kmalloc(u, m).1;
            third == first && !Apart(Block(first, x, cur, 0x3), Block(third, m, cur, 0x3))
  {
    hide RequestPages, HeapOk;
    ChunkIsSmall(s, chunks, blocks, cur);
    SmallSizesFit(s, x, chunks, blocks, cur);
    KmallocHit(s, x, chunks, blocks, cur);
    var (t, first) := Kmalloc(s, x);
    DivMod(s.offset + x, TWO64, 0, s.offset + x);
    assert t == s.(offset := s.offset + x);
    var more := blocks + [Block(first, x, cur, 0x3)];
    assert t.offset + (TWO64 - x) - TWO64 == s.offset;
    DivMod(t.offset + (TWO64 - x), TWO64, 1, s.offset);
    WrappedSizeOverlaps(t, TWO64 - x, m, chunks, more, cur, |blocks|);
  }

  /** The current chunk is smaller than the arena. */
  lemma ChunkIsSmall(s: Vm, chunks: seq<Chunk>, blocks: seq<Block>, cur: nat)
    requires HeapOk(s, chunks, blocks, cur)
    ensures s.size <= VM_END_REQUEST - VM_BEGIN_REQUEST && (s.size != 0 ==> s.offset < s.size)
  {
    hide Translate, LastEntry, VmOk, Backed;
    if s.size != 0 {
      assert Backed(s, chunks[cur]);
      ArenaBelowTop(s, chunks[cur]);
      CurrentIsHigh(s, chunks, blocks, cur);
    }
  }

  // ---- sizes that cannot wrap ----

  const SMALL: nat := 0x9FFF_F000

  /** Below this bound no size wraps in a heap that is in order. */
  lemma SmallSizesFit(s: Vm, size: Word, chunks: seq<Chunk>, blocks: seq<Block>, cur: nat)
    requires HeapOk(s, chunks, blocks, cur) && (s.size != 0 || s.offset == 0) && size < SMALL
    ensures SizeFits(s, size)
  {
    hide HeapOk, VmOk;
    ChunkIsSmall(s, chunks, blocks, cur);
    HeapHasVm(s, chunks, blocks, cur);
    ArenaBounds(s);
  }

  predicate SmallSize(call: Call)
  {
    match call
    case Bytes(size) => size < SMALL
    case Pages(n, flags) => SmallFlags(flags) && n * PAGE_SIZE <= SMALL
    case Device(paddr, n, flags) => SmallFlags(flags) && n * PAGE_SIZE <= SMALL
    case Poke(_, _) => true
  }

  /** Clients write only inside ranges they were given, and devices are real frames, mapped while
      frames remain. */
  ghost predicate Disciplined(s: Vm, given: seq<(Word, nat, nat)>, calls: seq<Call>)
    decreases |calls|
  {
    calls == [] ||
    var (t, addr) := Do(s, calls[0]);
    && (match calls[0]
        case Device(paddr, n, _) =>
          !Exhausted(s.phys) && 0 != paddr && paddr % PAGE_SIZE == 0 && paddr + n * PAGE_SIZE <= TWO52
        case Poke(addr, _) => exists i :: 0 <= i < |given| && WordInRange(given[i], addr)
        case _ => true)
    && Disciplined(t, given + Result(calls[0], addr), calls[1..])
  }

  lemma SmallCallAllowed(s: Vm, given: seq<(Word, nat, nat)>, calls: seq<Call>,
                         chunks: seq<Chunk>, blocks: seq<Block>, cur: nat)
    requires HeapOk(s, chunks, blocks, cur) && (s.size != 0 || s.offset == 0)
    requires calls != [] && SmallSize(calls[0]) && Disciplined(s, given, calls)
    ensures CallAllowed(s, given, calls[0])
    ensures var t := Do(s, calls[0]).0; t.size != 0 || t.offset == 0
  {
    hide HeapOk, VmOk, RequestPages, Translate, LastEntry;
    HeapHasVm(s, chunks, blocks, cur);
    ArenaBounds(s);
    match calls[0]
    case Bytes(size) =>
      SmallSizesFit(s, size, chunks, blocks, cur);
      RequestKeepsCurrent(s, size / PAGE_SIZE + 1, PG_WRITE);
      DivMod((size / PAGE_SIZE + 1) * PAGE_SIZE, TWO64, 0, (size / PAGE_SIZE + 1) * PAGE_SIZE);
    case Pages(n, flags) => RequestKeepsCurrent(s, n, flags);
    case Device(paddr, n, flags) =>
      CacheIsCoherent(s);
      RequestDeviceOk(s, paddr, n, flags);
    case Poke(_, _) =>
  }

  lemma RequestKeepsCurrent(s: Vm, n: nat, flags: nat)
    requires VmOk(s) && SmallFlags(flags) && RangeFits(s, n)
    ensures var t := RequestPages(s, 0, n, flags).0; t.base == s.base && t.offset == s.offset && t.size == s.size
  {
    hide VmOk, RequestPages, FreshlyMapped, OnlyAdds;
    RequestOk(s, n, flags);
  }

  /** A run with small sizes is allowed, wherever it starts from. */
  lemma {:induction false} SmallRunAllowed(s: Vm, given: seq<(Word, nat, nat)>, calls: seq<Call>,
                                           chunks: seq<Chunk>, blocks: seq<Block>, cur: nat)
    requires HeapOk(s, chunks, blocks, cur) && Describes(blocks, given) && (s.size != 0 || s.offset == 0)
    requires (forall c :: c in calls ==> SmallSize(c)) && Disciplined(s, given, calls)
    ensures RunAllowed(s, given, calls)
    decreases |calls|
  {
    hide HeapOk, Do, Allowed;
    if calls != [] {
      SmallCallAllowed(s, given, calls, chunks, blocks, cur);
      AllowedOfCall(s, given, blocks, calls[0]);
      HandedDescribes(s, calls[0], chunks, cur);
      var chunks1, cur1 := CallStep(s, calls[0], chunks, blocks, cur);
      var (t, addr) := Do(s, calls[0]);
      SmallRunAllowed(t, given + Result(calls[0], addr), calls[1..], chunks1,
                      blocks + Handed(s, calls[0], chunks, cur), cur1);
    }
  }

  /** Allocator safety under a bound on the sizes that needs no look at the allocator's state. */
  lemma SmallRunsAreSafe(s: Vm, calls: seq<Call>, i: nat, j: nat, a: nat, b: nat)
    requires VmOk(s) && s.size == 0 && s.offset == 0
    requires (forall c :: c in calls ==> SmallSize(c)) && Disciplined(s, [], calls)
    requires var given := AfterCalls(s, calls).1; InRange(given, i, a) && InRange(given, j, b)
    ensures var (t, given) := AfterCalls(s, calls); VmOk(t) && SafeBytes(t, given, i, j, a, b)
  {
    hide *;
    HeapStarts(s);
    NothingGiven();
    SmallRunAllowed(s, [], calls, [], [], 0);
    AllocatorsAreSafe(s, calls, i, j, a, b);
  }
}
