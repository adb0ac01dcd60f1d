/** `create_vfs_tar` from the bytes of the ramdisk, and `tar_read` on the nodes it built. */
module CreateVfs {
  import opened Bits
  import opened Wrappers
  import opened Paths
  import opened Ustar
  import opened VfsTree

  /** NULL, the finished tree, or a case in which the C code reads or writes out of bounds or wraps
      its 32-bit offset. */
  datatype Outcome = NotTar | Built(nodes: seq<Node>) | Undefined

  /** The loop over the records, with the header at `offset` already read. */
  function Loop(disk: string, h: string, offset: nat, b: Builder): Outcome
    requires HeaderSized(h)
    decreases if offset < |disk| then |disk| - offset else 0
  {
    if !HasMagic(h) then Built(b.nodes) else
    match Visit(b, NameOf(h), TypeOf(h), LinkOf(h), offset)
    case None => Undefined
    case Some(c) =>
      var next := offset + MemberSize(Oct2bin(SizeField(h)));
      if next >= TWO32 then Undefined else
      match DiskRead(disk, BLOCK, next)
      case None => Built(c.nodes)
      case Some(h2) => Loop(disk, h2, next, c)
  }

  function FirstHeader(disk: string): (h: string)
    ensures HeaderSized(h)
  {
    match DiskRead(disk, BLOCK, 0) case None => Nuls(BLOCK) case Some(h) => h
  }

  function Create(disk: string): Outcome
  {
    var h := FirstHeader(disk);
    if !HasMagic(h) || !HasVersion(h) then NotTar else Loop(disk, h, 0, START)
  }

  /** The members whose headers can be read: all of them, unless the disk ends with the header of
      the last one. */
  function Seen(rs: seq<Record>, k: nat): seq<Record>
    requires rs != []
  {
    if k >= 1 || rs[|rs| - 1].data != "" then rs else rs[..|rs| - 1]
  }

  /** The loop sees exactly these members of the archive. */
  lemma {:induction false} LoopVisits(disk: string, before: string, rs: seq<Record>, k: nat, b: Builder, c: Builder)
    requires RecordsOk(rs) && rs != [] && LiesAt(disk, before, rs, k) && |disk| < TWO32
    requires Seen(rs, k) != [] && Visits(b, Seen(rs, k), |before|) == Some(c)
    ensures Loop(disk, Header(rs[0]), |before|, b) == Built(c.nodes)
    decreases |rs|
  {
    hide Visit, Header, Member, HasMagic, HasVersion, NameOf, TypeOf, LinkOf, SizeField, Oct2bin, LiesAt, Archive,
         DiskRead;
    var r := rs[0];
    HeaderReadsBack(r);
    NextMember(disk, before, rs, k);
    var after := before + Member(r);
    assert |after| == |before| + MemberSize(|r.data|);
    var d := Visit(b, r.name, r.kind, r.link, |before|).value;
    if rs[1..] == [] {
      NoMoreMembers(disk, after, k);
    } else {
      NextMember(disk, after, rs[1..], k);
      assert Seen(rs, k) == [r] + Seen(rs[1..], k);
      if Seen(rs[1..], k) != [] {
        LoopVisits(disk, after, rs[1..], k, d, c);
      }
    }
  }

  /** What lies on the disk: a tree's listing and some blocks of zeros. */
  ghost predicate ArchiveOf(disk: string, es: seq<Entry>, k: nat)
  {
    RecordsOk(List(es, "")) && disk == Archive(List(es, "")) + Nuls(k * BLOCK)
  }

  /** Each record visited is one more node. */
  lemma {:induction false} VisitsCount(b: Builder, rs: seq<Record>, at: nat)
    requires Visits(b, rs, at).Some?
    ensures |Visits(b, rs, at).value.nodes| == |b.nodes| + |rs|
    decreases |rs|
  {
    if rs != [] {
      var r := rs[0];
      ClimbKeepsNodes(b, Dirname(Cut(r.name).value));
      VisitsCount(Visit(b, r.name, r.kind, r.link, at).value, rs[1..], at + MemberSize(|r.data|));
    }
  }

  lemma {:induction false} ClimbKeepsNodes(b: Builder, target: string)
    ensures Climb(b, target).Some? ==> Climb(b, target).value.nodes == b.nodes
    decreases b.current
  {
    if Climb(b, target).Some? && b.ident != target {
      ClimbKeepsNodes(b.(current := b.nodes[b.current].parent, ident := Dirname(b.ident)), target);
    }
  }

  /** What becomes of the bytes of an archive with at least one member. */
  lemma CreateVisits(disk: string, es: seq<Entry>, k: nat) returns (c: Builder)
    requires es != [] && EntriesOk(es) && |es| <= 0xFF && ArchiveOf(disk, es, k) && |disk| < TWO32
    ensures var rs := List(es, "");
            rs != [] && Visits(START, Seen(rs, k), 0) == Some(c) && |c.nodes| == 1 + |Seen(rs, k)|
            && Create(disk) == if Seen(rs, k) == [] then NotTar else Built(c.nodes)
  {
    hide Visit, Visits, Loop, Header, HasMagic, HasVersion, Archive, List, TreeOf, TreesFor, Good;
    var rs := List(es, "");
    ListIsEmpty(es, "");
    assert disk == "" + Archive(rs) + Nuls(k * BLOCK);
    var all := BuildingUndoesListing(es, 0);
    VisitsPrefix(START, rs, |Seen(rs, k)|, 0);
    assert rs[..|Seen(rs, k)|] == Seen(rs, k);
    c := Visits(START, Seen(rs, k), 0).value;
    VisitsCount(START, Seen(rs, k), 0);
    NextMember(disk, "", rs, k);
    if Seen(rs, k) == [] {
      ZeroBlock();
    } else {
      HeaderReadsBack(rs[0]);
      LoopVisits(disk, "", rs, k, START, c);
    }
  }

  lemma {:induction false} VisitsPrefix(b: Builder, rs: seq<Record>, n: nat, at: nat)
    requires n <= |rs| && Visits(b, rs, at).Some?
    ensures Visits(b, rs[..n], at).Some?
    decreases n
  {
    hide Visit;
    if n > 0 {
      assert rs[..n][1..] == rs[1..][..n - 1];
      var c := Visit(b, rs[0].name, rs[0].kind, rs[0].link, at).value;
      VisitsPrefix(c, rs[1..], n - 1, at + MemberSize(|rs[0].data|));
    }
  }

  /** The tree that stands for the entries of an archive. */
  predicate IsTreeOf(nodes: seq<Node>, es: seq<Entry>)
  {
    Good(nodes) && TreeOf(nodes, 0) == Tree(VfsDir, "/", "", 0, TreesFor(es, 0))
  }

  /** Exactly when the tree is rebuilt from the bytes of its archive: the header of the last member
      must not end the disk, since its last byte cannot be read. Then the last member is missing. */
  lemma CreateRebuildsExactly(disk: string, es: seq<Entry>, k: nat)
    requires es != [] && EntriesOk(es) && |es| <= 0xFF && ArchiveOf(disk, es, k) && |disk| < TWO32
    ensures var rs := List(es, "");
            && rs != []
            && (Create(disk).Built? && |Create(disk).nodes| == 1 + |rs| && IsTreeOf(Create(disk).nodes, es)
                <==> k >= 1 || rs[|rs| - 1].data != "")
  {
    hide Create, ArchiveOf, List, EntriesOk, Visits, IsTreeOf;
    var c := CreateVisits(disk, es, k);
    var rs := List(es, "");
    if k >= 1 || rs[|rs| - 1].data != "" {
      var all := BuildingUndoesListing(es, 0);
      IsTree(all.nodes, es);
    }
  }

  lemma IsTree(nodes: seq<Node>, es: seq<Entry>)
    requires Good(nodes) && TreeOf(nodes, 0) == Tree(VfsDir, "/", "", 0, TreesFor(es, 0))
    ensures IsTreeOf(nodes, es)
  {
  }

  /** Exactly when NULL is returned: the first 512 bytes cannot be read, or the magic or the version is
      another one. */
  lemma RefusedExactly(disk: string)
    ensures Create(disk) == NotTar
            <==> |disk| <= 512 || disk[257..262] != "ustar" || disk[263..265] != "00"
  {
    hide Loop;
    LoopIsNoRefusal(disk, FirstHeader(disk), 0, START);
    if |disk| <= 512 {
      ZeroBlock();
    } else {
      assert FirstHeader(disk) == disk[0..512];
      assert disk[0..512][257..262] == disk[257..262] && disk[0..512][263..265] == disk[263..265];
    }
  }

  lemma {:induction false} LoopIsNoRefusal(disk: string, h: string, offset: nat, b: Builder)
    requires HeaderSized(h)
    ensures Loop(disk, h, offset, b) != NotTar
    decreases if offset < |disk| then |disk| - offset else 0
  {
    hide Visit, HasMagic, NameOf, TypeOf, LinkOf, SizeField, Oct2bin;
    if HasMagic(h) && Visit(b, NameOf(h), TypeOf(h), LinkOf(h), offset).Some? {
      var c := Visit(b, NameOf(h), TypeOf(h), LinkOf(h), offset).value;
      var next := offset + MemberSize(Oct2bin(SizeField(h)));
      var h2 := DiskRead(disk, BLOCK, next);
      if next < TWO32 && h2.Some? {
        LoopIsNoRefusal(disk, h2.value, next, c);
      }
    }
  }

  /** An archive without members is refused. */
  lemma EmptyIsRefused(disk: string, k: nat)
    requires disk == Nuls(k * BLOCK)
    ensures Create(disk) == NotTar
  {
    hide Loop;
    assert disk == "" + Archive([]) + Nuls(k * BLOCK) by { EmptyArchive(); }
    NoMoreMembers(disk, "", k);
    ZeroBlock();
  }

  lemma ZeroBlock()
    ensures !HasMagic(Nuls(BLOCK))
  {
    assert Nuls(BLOCK)[257..262][0] == '\0';
  }

  lemma ListIsEmpty(es: seq<Entry>, dir: string)
    ensures List(es, dir) == [] <==> es == []
  {
  }

  // ---- the contents of files ----

  /** `tar_read` on a node of the tree. */
  function TarRead(disk: string, offset: nat, len: nat, at: nat): Option<string>
  {
    DiskRead(disk, len, offset + BLOCK + at)
  }

  predicate FileRangeReads(disk: string, data: string, offset: nat, at: nat, len: nat)
  {
    at + len <= |data| ==> TarRead(disk, offset, len, at) == Some(data[at..at + len])
  }

  /** Reading any range inside a file gives its bytes, throughout the tree. */
  ghost predicate Contents(disk: string, e: Entry, t: Tree)
    decreases e, 0
  {
    match e
    case FileEntry(_, data, _) => forall at: nat, len: nat :: FileRangeReads(disk, data, t.offset, at, len)
    case LinkEntry(_, _, _) => true
    case DirEntry(_, es, _) => AllContents(disk, es, t.kids)
  }

  ghost predicate AllContents(disk: string, es: seq<Entry>, ts: seq<Tree>)
    decreases es, 1
  {
    if es == [] then ts == [] else ts != [] && Contents(disk, es[0], ts[0]) && AllContents(disk, es[1..], ts[1..])
  }

  lemma FileContents(disk: string, e: Entry, t: Tree)
    requires e.FileEntry?
    ensures Contents(disk, e, t) <==> Readable(disk, e.data, t.offset + BLOCK)
  {
    var start := t.offset + BLOCK;
    forall at: nat, len: nat
      ensures FileRangeReads(disk, e.data, t.offset, at, len) == RangeReads(disk, e.data, start, at, len)
    {
    }
  }

  lemma {:induction false} ArchiveCat(a: seq<Record>, b: seq<Record>)
    requires RecordsOk(a) && RecordsOk(b)
    ensures RecordsOk(a + b) && Archive(a + b) == Archive(a) + Archive(b) && |Archive(a)| == TotalSize(a)
    decreases |a|
  {
    hide Member;
    if a == [] {
      assert a + b == b;
    } else {
      assert (a + b)[1..] == a[1..] + b;
      ArchiveCat(a[1..], b);
      assert Member(a[0]) + (Archive(a[1..]) + Archive(b)) == Member(a[0]) + Archive(a[1..]) + Archive(b);
    }
  }

  /** What is left of the disk behind some of the records. */
  lemma Behind(disk: string, before: string, a: seq<Record>, b: seq<Record>, k: nat)
    requires RecordsOk(a) && RecordsOk(b) && RecordsOk(a + b) && LiesAt(disk, before, a + b, k)
    ensures LiesAt(disk, before + Archive(a), b, k) && |before + Archive(a)| == |before| + TotalSize(a)
  {
    hide Archive, TotalSize, RecordsOk;
    ArchiveCat(a, b);
    assert before + (Archive(a) + Archive(b)) == before + Archive(a) + Archive(b);
  }

  lemma PartsOk(a: seq<Record>, b: seq<Record>)
    requires RecordsOk(a + b)
    ensures RecordsOk(a) && RecordsOk(b)
  {
    forall i | 0 <= i < |a| ensures RecordOk(a[i])
    {
      assert (a + b)[i] == a[i];
    }
    forall i | 0 <= i < |b| ensures RecordOk(b[i])
    {
      assert (a + b)[|a| + i] == b[i];
    }
  }

  /** The data of the last member does not end with the disk. */
  predicate EndsWell(rs: seq<Record>, k: nat)
    requires rs != []
  {
    k >= 1 || |rs[|rs| - 1].data| % BLOCK != 0
  }

  lemma EndsWellFirst(rs: seq<Record>, k: nat)
    requires rs != [] && EndsWell(rs, k)
    ensures |rs| > 1 || k >= 1 || |rs[0].data| % BLOCK != 0
  {
  }

  /** The last record is last behind any others, too. */
  lemma EndsBehind(first: seq<Record>, rest: seq<Record>, k: nat)
    requires rest != []
    ensures (first + rest)[|first + rest| - 1] == rest[|rest| - 1] && EndsWell(first + rest, k) == EndsWell(rest, k)
  {
  }

  lemma EndsWellBehind(first: seq<Record>, rest: seq<Record>, k: nat)
    requires first + rest != [] && EndsWell(first + rest, k)
    ensures rest == [] || EndsWell(rest, k)
  {
  }

  lemma {:induction false} EntryContents(disk: string, before: string, e: Entry, dir: string, more: seq<Record>, k: nat)
    requires RecordsOk(ListOne(e, dir) + more) && LiesAt(disk, before, ListOne(e, dir) + more, k)
    requires EndsWell(ListOne(e, dir) + more, k)
    ensures Contents(disk, e, TreeFor(e, |before|))
    decreases e, 0
  {
    hide Archive, LiesAt, EndsWell, RecordsOk, Join, AllContents;
    var rs := ListOne(e, dir) + more;
    if e.FileEntry? {
      assert rs[0] == ListOne(e, dir)[0] && |rs| == 1 + |more|;
      EndsWellFirst(rs, k);
      DataReadsExactly(disk, before, rs, k);
      FileContents(disk, e, TreeFor(e, |before|));
    } else if e.DirEntry? {
      var path := Join(dir, e.name);
      var r := Record(path + "/", TAR_DIR, "", "", e.info.meta, e.info.stamp, e.info.rest);
      var inside := List(e.entries, path) + more;
      assert rs == [r] + inside;
      BehindDirectory(disk, before, r, inside, k);
      EndsWellBehind([r], inside, k);
      ForestContents(disk, before + Archive([r]), e.entries, path, more, k);
    }
  }

  lemma BehindDirectory(disk: string, before: string, r: Record, inside: seq<Record>, k: nat)
    requires RecordsOk([r] + inside) && LiesAt(disk, before, [r] + inside, k) && r.data == ""
    ensures RecordsOk(inside) && RecordsOk([r]) && LiesAt(disk, before + Archive([r]), inside, k)
    ensures |before + Archive([r])| == |before| + MemberSize(0)
  {
    hide LiesAt, Archive;
    PartsOk([r], inside);
    Behind(disk, before, [r], inside, k);
    assert TotalSize([r]) == MemberSize(0) by {
      assert [r][1..] == [];
    }
  }

  lemma {:induction false} ForestContents(disk: string, before: string, es: seq<Entry>, dir: string,
                                          more: seq<Record>, k: nat)
    requires RecordsOk(List(es, dir) + more) && LiesAt(disk, before, List(es, dir) + more, k)
    requires List(es, dir) + more == [] || EndsWell(List(es, dir) + more, k)
    ensures AllContents(disk, es, TreesFor(es, |before|))
    decreases es, 1
  {
    hide Contents, LiesAt, Archive, TreeFor, Extent, ListOne, RecordsOk, EndsWell;
    if es != [] {
      var first, rest := ListOne(es[0], dir), List(es[1..], dir) + more;
      assert List(es, dir) + more == first + rest;
      assert first != [] by { ListIsEmpty([es[0]], dir); assert List([es[0]], dir) == first + []; }
      EndsWellBehind(first, rest, k);
      EntryContents(disk, before, es[0], dir, rest, k);
      PartsOk(first, rest);
      Behind(disk, before, first, rest, k);
      ListOneSize(es[0], dir);
      ForestContents(disk, before + Archive(first), es[1..], dir, more, k);
      assert TreesFor(es, |before|)[1..] == TreesFor(es[1..], |before| + Extent(es[0]));
    }
  }

  lemma ContentsStep(disk: string, es: seq<Entry>, at: nat)
    requires es != []
    ensures AllContents(disk, es, TreesFor(es, at))
            <==> Contents(disk, es[0], TreeFor(es[0], at))
                 && AllContents(disk, es[1..], TreesFor(es[1..], at + Extent(es[0])))
  {
    hide Contents, TreeFor, Extent;
    assert TreesFor(es, at)[1..] == TreesFor(es[1..], at + Extent(es[0]));
  }

  /** A last file whose data ends with the disk cannot be read to its end. */
  lemma {:induction false} EntryFails(disk: string, before: string, e: Entry, dir: string)
    requires var rs := ListOne(e, dir);
             RecordsOk(rs) && LiesAt(disk, before, rs, 0) && rs[|rs| - 1].data != "" && !EndsWell(rs, 0)
    ensures !Contents(disk, e, TreeFor(e, |before|))
    decreases e, 0
  {
    var rs := ListOne(e, dir);
    if e.FileEntry? {
      DataReadsExactly(disk, before, rs, 0);
      FileContents(disk, e, TreeFor(e, |before|));
    } else if e.DirEntry? {
      var path := Join(dir, e.name);
      var r := Record(path + "/", TAR_DIR, "", "", e.info.meta, e.info.stamp, e.info.rest);
      var inside := List(e.entries, path);
      assert rs == [r] + inside;
      BehindDirectory(disk, before, r, inside, 0);
      ForestFails(disk, before + Archive([r]), e.entries, path);
    }
  }

  lemma {:induction false} ForestFails(disk: string, before: string, es: seq<Entry>, dir: string)
    requires var rs := List(es, dir);
             RecordsOk(rs) && LiesAt(disk, before, rs, 0) && rs != [] && rs[|rs| - 1].data != "" && !EndsWell(rs, 0)
    ensures !AllContents(disk, es, TreesFor(es, |before|))
    decreases es, 1
  {
    hide Contents, LiesAt, Archive, TreeFor, Extent, ListOne, RecordsOk, EndsWell;
    var first, rest := ListOne(es[0], dir), List(es[1..], dir);
    assert List(es, dir) == first + rest;
    ContentsStep(disk, es, |before|);
    hide List, AllContents, TreesFor;
    if rest == [] {
      assert first + rest == first;
      EntryFails(disk, before, es[0], dir);
    } else {
      PartsOk(first, rest);
      EndsBehind(first, rest, 0);
      Behind(disk, before, first, rest, 0);
      ListOneSize(es[0], dir);
      ForestFails(disk, before + Archive(first), es[1..], dir);
    }
  }

  /** The whole tree is there, and every range of every file reads back as it was archived. */
  ghost predicate Restored(disk: string, es: seq<Entry>)
  {
    && Create(disk).Built? && |Create(disk).nodes| == 1 + |List(es, "")| && IsTreeOf(Create(disk).nodes, es)
    && AllContents(disk, es, TreeOf(Create(disk).nodes, 0).kids)
  }

  /** The contents of the tree the entries stand for. */
  lemma ContentsExactly(disk: string, es: seq<Entry>, k: nat)
    requires es != [] && ArchiveOf(disk, es, k)
    ensures var rs := List(es, "");
            && rs != []
            && (EndsWell(rs, k) ==> AllContents(disk, es, TreesFor(es, 0)))
            && (!EndsWell(rs, k) && rs[|rs| - 1].data != "" ==> !AllContents(disk, es, TreesFor(es, 0)))
  {
    hide Contents, AllContents, Archive, List, TreesFor, EndsWell, RecordsOk, Nuls;
    ListIsEmpty(es, "");
    var rs := List(es, "");
    assert rs + [] == rs;
    assert "" + Archive(rs) + Nuls(k * BLOCK) == Archive(rs) + Nuls(k * BLOCK);
    if EndsWell(rs, k) {
      ForestContents(disk, "", es, "", [], k);
    } else if rs[|rs| - 1].data != "" {
      assert k == 0 by { EndsWellIf(rs, k); }
      ForestFails(disk, "", es, "");
    }
  }

  lemma EndsWellIf(rs: seq<Record>, k: nat)
    requires rs != []
    ensures k >= 1 ==> EndsWell(rs, k)
    ensures EndsWell(rs, k) ==> k >= 1 || rs[|rs| - 1].data != ""
  {
  }

  /** Exactly when the archived tree is restored, structure and contents: a block of zeros follows
      the last member, or its data does not end with a full block. */
  lemma RestoredExactly(disk: string, es: seq<Entry>, k: nat)
    requires es != [] && EntriesOk(es) && |es| <= 0xFF && ArchiveOf(disk, es, k) && |disk| < TWO32
    ensures List(es, "") != [] && (Restored(disk, es) <==> EndsWell(List(es, ""), k))
  {
    hide Create, AllContents, ArchiveOf, List, TreesFor, EntriesOk, TreeOf, Good, EndsWell;
    CreateRebuildsExactly(disk, es, k);
    ContentsExactly(disk, es, k);
    EndsWellIf(List(es, ""), k);
  }

  // ---- the C function ----

  /** The nodes of a mount, in the order of their creation. */
  class Vfs {
    var nodes: seq<Node>

    constructor ()
      ensures nodes == START.nodes
    {
      nodes := [ROOT];
    }

    /** The footer of the loop: `children[n_children] = node; n_children++` */
    method AddChild(parent: nat, node: Node) returns (n: nat)
      requires parent < |nodes|
      modifies this
      ensures n == |old(nodes)| && nodes == Grown(Builder(old(nodes), parent, ""), node)
    {
      n := |nodes|;
      var me := nodes[parent];
      nodes := nodes[parent := me.(kids := me.kids + [n])] + [node];
    }
  }

  method ReadBlock(disk: string, offset: nat) returns (h: Option<string>)
    ensures h == DiskRead(disk, BLOCK, offset)
  {
    if BLOCK + offset >= |disk| {
      return None;
    }
    h := Some(disk[offset..offset + BLOCK]);
  }

  /** The record loop: name, parent search, node, footer and the step to the next header. Null
      stands for NULL. */
  method CreateVfsTar(disk: string) returns (vfs: Vfs?)
    requires Create(disk) != Undefined
    ensures vfs == null <==> Create(disk) == NotTar
    ensures vfs != null ==> fresh(vfs) && Create(disk) == Built(vfs.nodes)
  {
    hide Visit, HasMagic, HasVersion, NameOf, TypeOf, LinkOf, SizeField, Oct2bin;
    vfs := null;
    var hdr := Nuls(BLOCK);
    var first := ReadBlock(disk, 0);
    if first.Some? {
      hdr := first.value;
    }
    if !HasMagic(hdr) || !HasVersion(hdr) {
      return;
    }
    vfs := new Vfs();
    var current, ident, offset := 0, "", 0;
    while HasMagic(hdr)
      invariant HeaderSized(hdr) && fresh(vfs)
      invariant Loop(disk, hdr, offset, Builder(vfs.nodes, current, ident)) == Create(disk)
      decreases if offset < |disk| then |disk| - offset else 0
    {
      current, ident := VisitRecord(vfs, current, ident, hdr, offset);
      var size := Oct2binLoop(SizeField(hdr));
      offset := offset + MemberSize(size);
      var next := ReadBlock(disk, offset);
      if next == None {
        break;
      }
      hdr := next.value;
    }
  }

  /** The body of the loop. */
  method VisitRecord(vfs: Vfs, current0: nat, ident0: string, hdr: string, offset: nat)
    returns (current: nat, ident: string)
    requires HeaderSized(hdr)
    requires Visit(Builder(vfs.nodes, current0, ident0), NameOf(hdr), TypeOf(hdr), LinkOf(hdr), offset).Some?
    modifies vfs
    ensures Visit(Builder(old(vfs.nodes), current0, ident0), NameOf(hdr), TypeOf(hdr), LinkOf(hdr), offset)
            == Some(Builder(vfs.nodes, current, ident))
  {
    hide Grown, NameOf, TypeOf, LinkOf;
    current, ident := current0, ident0;
    var name := NameOf(hdr);
    var start := GetBasename(name);
    if name[start] == '/' {
      start := start + 1;
    }
    if name[|name| - 1] == '/' {
      name := name[..|name| - 1];
    }
    var basename := name[start..];
    var prebase := GetDirname(name);
    ghost var nodes := vfs.nodes;
    ghost var goal := Climb(Builder(nodes, current, ident), prebase);
    while ident != prebase
      invariant vfs.nodes == nodes
      invariant Climb(Builder(nodes, current, ident), prebase) == goal && goal.Some?
      decreases current
    {
      current := vfs.nodes[current].parent;
      ident := GetDirname(ident);
    }
    var kind := TypeOf(hdr);
    var node := Node(KindOf(kind), basename, if kind == TAR_SYMLINK then LinkOf(hdr) else "", offset, current, []);
    var n := vfs.AddChild(current, node);
    SameGrown(nodes, current, ident, node);
    if kind == TAR_DIR {
      ident := name;
      current := n;
    }
  }

  lemma SameGrown(nodes: seq<Node>, current: nat, ident: string, node: Node)
    requires current < |nodes|
    ensures Grown(Builder(nodes, current, ""), node) == Grown(Builder(nodes, current, ident), node)
  {
  }
}
