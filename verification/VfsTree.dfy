/** The tree of VFS nodes that `create_vfs_tar` grows, record by record, and the proof that growing
    it from a depth-first listing rebuilds the listed tree. */
module VfsTree {
  import opened Wrappers
  import opened Paths
  import opened Ustar

  // ---- nodes ----

  datatype Kind = VfsFile | VfsDir | VfsSym

  /** `struct vfs_node`. Nodes are named by their place in the order of creation; node 0 is the root. */
  datatype Node = Node(kind: Kind, name: string, link: string, offset: nat, parent: nat, kids: seq<nat>)

  /** The loop variables: all nodes, `current_parent` and `samedir_identifier`. */
  datatype Builder = Builder(nodes: seq<Node>, current: nat, ident: string)

  const ROOT := Node(VfsDir, "/", "", 0, 0, [])
  const START := Builder([ROOT], 0, "")

  /** Room in the child array that was allocated for a node. */
  function Capacity(i: nat): nat { if i == 0 then 0xFF else 0x1000 }

  /** Every node has an earlier parent, later children and a proper name. */
  predicate Good(nodes: seq<Node>)
  {
    && |nodes| > 0
    && (forall i :: 0 < i < |nodes| ==> nodes[i].parent < i && ValidName(nodes[i].name))
    && (forall i, j :: 0 <= i < |nodes| && 0 <= j < |nodes[i].kids| ==> i < nodes[i].kids[j] < |nodes|)
  }

  function PathOf(nodes: seq<Node>, i: nat): string
    requires Good(nodes) && i < |nodes|
  {
    if i == 0 then "" else Join(PathOf(nodes, nodes[i].parent), nodes[i].name)
  }

  predicate IsUnder(nodes: seq<Node>, i: nat, p: nat)
    requires Good(nodes) && i < |nodes|
  {
    i == p || (i != 0 && IsUnder(nodes, nodes[i].parent, p))
  }

  // ---- one record ----

  /** The loop that climbs from the current directory to the record's own. None: it passes the root. */
  function Climb(b: Builder, target: string): Option<Builder>
    decreases b.current
  {
    if b.ident == target then Some(b)
    else if b.current == 0 || b.ident == "" || b.current >= |b.nodes| then None
    else if b.nodes[b.current].parent >= b.current then None
    else Climb(b.(current := b.nodes[b.current].parent, ident := Dirname(b.ident)), target)
  }

  /** Where the basename starts, past its slash. */
  function NameStart(name: string): nat
    requires name != ""
  {
    var i := BasenameStart(name);
    if name[i] == '/' then i + 1 else i
  }

  /** The name without a trailing slash; None for the names whose basename is empty. */
  function Cut(name: string): Option<string>
  {
    if name == "" || NameStart(name) == |name| then None
    else if name[|name| - 1] == '/' then (if |name| == 1 then None else Some(name[..|name| - 1]))
    else Some(name)
  }

  function KindOf(c: char): Kind
  {
    if c == TAR_DIR then VfsDir else if c == TAR_SYMLINK then VfsSym else VfsFile
  }

  function Grown(b: Builder, node: Node): seq<Node>
    requires b.current < |b.nodes|
  {
    var me := b.nodes[b.current];
    b.nodes[b.current := me.(kids := me.kids + [|b.nodes|])] + [node]
  }

  /** The body of the record loop. None stands for a read before the name, a climb past the root, or
      a full child array. */
  function Visit(b: Builder, name: string, kind: char, link: string, offset: nat): Option<Builder>
  {
    match Cut(name)
    case None => None
    case Some(cut) =>
      var start := NameStart(name);
      if start > |cut| then None else
      match Climb(b, Dirname(cut))
      case None => None
      case Some(c) =>
        if c.current >= |c.nodes| || |c.nodes[c.current].kids| >= Capacity(c.current) then None else
        var node := Node(KindOf(kind), cut[start..], if kind == TAR_SYMLINK then link else "", offset, c.current, []);
        if kind == TAR_DIR then Some(Builder(Grown(c, node), |c.nodes|, cut))
        else Some(c.(nodes := Grown(c, node)))
  }

  function Visits(b: Builder, rs: seq<Record>, at: nat): Option<Builder>
    decreases |rs|
  {
    if rs == [] then Some(b) else
    match Visit(b, rs[0].name, rs[0].kind, rs[0].link, at)
    case None => None
    case Some(c) => Visits(c, rs[1..], at + MemberSize(|rs[0].data|))
  }

  function TotalSize(rs: seq<Record>): nat
  {
    if rs == [] then 0 else MemberSize(|rs[0].data|) + TotalSize(rs[1..])
  }

  lemma {:induction false} VisitsCat(b: Builder, rs: seq<Record>, more: seq<Record>, at: nat)
    requires Visits(b, rs, at).Some?
    ensures Visits(b, rs + more, at) == Visits(Visits(b, rs, at).value, more, at + TotalSize(rs))
    decreases |rs|
  {
    hide Visit;
    if rs == [] {
      assert rs + more == more;
    } else {
      var c := Visit(b, rs[0].name, rs[0].kind, rs[0].link, at).value;
      assert (rs + more)[1..] == rs[1..] + more;
      VisitsCat(c, rs[1..], more, at + MemberSize(|rs[0].data|));
    }
  }

  // ---- trees and their listings ----

  /** What is archived. */
  datatype Info = Info(meta: string, stamp: string, rest: string)
  datatype Entry =
    | FileEntry(name: string, data: string, info: Info)
    | LinkEntry(name: string, target: string, info: Info)
    | DirEntry(name: string, entries: seq<Entry>, info: Info)

  function ListOne(e: Entry, dir: string): seq<Record>
  {
    var path := Join(dir, e.name);
    match e
    case FileEntry(_, data, i) => [Record(path, '0', "", data, i.meta, i.stamp, i.rest)]
    case LinkEntry(_, target, i) => [Record(path, '2', target, "", i.meta, i.stamp, i.rest)]
    case DirEntry(_, es, i) => [Record(path + "/", '5', "", "", i.meta, i.stamp, i.rest)] + List(es, path)
  }

  /** The depth-first listing of the entries of a directory. */
  function List(es: seq<Entry>, dir: string): seq<Record>
  {
    if es == [] then [] else ListOne(es[0], dir) + List(es[1..], dir)
  }

  /** A rebuilt node with all below it. */
  datatype Tree = Tree(kind: Kind, name: string, link: string, offset: nat, kids: seq<Tree>)

  function Extent(e: Entry): nat
  {
    match e
    case FileEntry(_, data, _) => MemberSize(|data|)
    case LinkEntry(_, _, _) => MemberSize(0)
    case DirEntry(_, es, _) => MemberSize(0) + Extents(es)
  }

  function Extents(es: seq<Entry>): nat { if es == [] then 0 else Extent(es[0]) + Extents(es[1..]) }

  /** The tree an entry stands for, when its member starts at offset `at`. */
  function TreeFor(e: Entry, at: nat): Tree
  {
    match e
    case FileEntry(n, _, _) => Tree(VfsFile, n, "", at, [])
    case LinkEntry(n, target, _) => Tree(VfsSym, n, target, at, [])
    case DirEntry(n, es, _) => Tree(VfsDir, n, "", at, TreesFor(es, at + MemberSize(0)))
  }

  function TreesFor(es: seq<Entry>, at: nat): seq<Tree>
  {
    if es == [] then [] else [TreeFor(es[0], at)] + TreesFor(es[1..], at + Extent(es[0]))
  }

  /** Proper names, and no directory with more entries than a child array holds. */
  predicate EntryOk(e: Entry)
  {
    ValidName(e.name) && (e.DirEntry? ==> |e.entries| <= 0x1000 && EntriesOk(e.entries))
  }

  predicate EntriesOk(es: seq<Entry>)
  {
    es == [] || (EntryOk(es[0]) && EntriesOk(es[1..]))
  }

  lemma {:induction false} ListSize(es: seq<Entry>, dir: string)
    ensures TotalSize(List(es, dir)) == Extents(es)
    decreases es, 1
  {
    if es != [] {
      ListOneSize(es[0], dir);
      ListSize(es[1..], dir);
      TotalSizeCat(ListOne(es[0], dir), List(es[1..], dir));
    }
  }

  lemma {:induction false} ListOneSize(e: Entry, dir: string)
    ensures TotalSize(ListOne(e, dir)) == Extent(e)
    decreases e, 0
  {
    if e.DirEntry? {
      ListSize(e.entries, Join(dir, e.name));
      assert ListOne(e, dir)[1..] == List(e.entries, Join(dir, e.name));
    } else {
      assert ListOne(e, dir)[1..] == [];
    }
  }

  lemma {:induction false} TotalSizeCat(a: seq<Record>, b: seq<Record>)
    ensures TotalSize(a + b) == TotalSize(a) + TotalSize(b)
    decreases |a|
  {
    if a == [] {
      assert a + b == b;
    } else {
      assert (a + b)[1..] == a[1..] + b;
      TotalSizeCat(a[1..], b);
    }
  }

  // ---- climbing ----

  lemma {:induction false} ClimbReaches(b: Builder, p: nat)
    requires Good(b.nodes) && b.current < |b.nodes| && p < |b.nodes|
    requires IsUnder(b.nodes, b.current, p) && b.ident == PathOf(b.nodes, b.current)
    ensures Climb(b, PathOf(b.nodes, p)) == Some(b.(current := p, ident := PathOf(b.nodes, p)))
    ensures b.current != p ==> |PathOf(b.nodes, p)| < |b.ident|
    decreases b.current
  {
    if b.current != p {
      var up := b.nodes[b.current].parent;
      DirnameOfJoin(PathOf(b.nodes, up), b.nodes[b.current].name);
      ClimbReaches(b.(current := up, ident := PathOf(b.nodes, up)), p);
    }
  }

  /** The name of a listed record, taken apart. */
  lemma RecordName(dir: string, name: string, slash: bool)
    requires ValidName(name)
    ensures var full := Join(dir, name) + (if slash then "/" else "");
            && Cut(full) == Some(Join(dir, name))
            && NameStart(full) <= |Join(dir, name)|
            && Join(dir, name)[NameStart(full)..] == name
            && Dirname(Join(dir, name)) == dir
  {
    BasenameOfJoin(dir, name, slash);
    DirnameOfJoin(dir, name);
    var full := Join(dir, name) + (if slash then "/" else "");
    var path := Join(dir, name);
    assert name[0] in name && name[|name| - 1] in name;
    assert path[|path| - 1] == name[|name| - 1];
    assert path[|path| - 1] != '/';
    if slash {
      assert full[..|full| - 1] == path;
    } else {
      assert full == path;
    }
    if dir == "" {
      assert full[0] == name[0];
      assert path[0..] == name;
    } else {
      assert full[|dir|] == '/';
      assert path[|dir| + 1..] == name;
    }
  }

  // ---- growing ----

  lemma {:induction false} PathKept(nodes: seq<Node>, more: seq<Node>, i: nat)
    requires Good(nodes) && Good(more) && i < |nodes| <= |more|
    requires forall j :: 0 <= j < |nodes| ==> more[j].parent == nodes[j].parent && more[j].name == nodes[j].name
    ensures PathOf(more, i) == PathOf(nodes, i)
  {
    if i != 0 {
      PathKept(nodes, more, nodes[i].parent);
    }
  }

  lemma {:induction false} UnderTrans(nodes: seq<Node>, i: nat, q: nat, p: nat)
    requires Good(nodes) && i < |nodes| && q < |nodes|
    requires IsUnder(nodes, i, q) && IsUnder(nodes, q, p)
    ensures IsUnder(nodes, i, p)
  {
    if i != q && i != p {
      UnderTrans(nodes, nodes[i].parent, q, p);
    }
  }

  function TreeOf(nodes: seq<Node>, i: nat): Tree
    requires Good(nodes) && i < |nodes|
    decreases |nodes| - i
  {
    var me := nodes[i];
    Tree(me.kind, me.name, me.link, me.offset,
         seq(|me.kids|, j requires 0 <= j < |me.kids| => TreeOf(nodes, me.kids[j])))
  }

  /** Nodes from i on decide the tree at i. */
  lemma {:induction false} TreeKept(nodes: seq<Node>, more: seq<Node>, i: nat)
    requires Good(nodes) && Good(more) && i < |nodes| <= |more|
    requires forall j :: i <= j < |nodes| ==> more[j] == nodes[j]
    ensures TreeOf(more, i) == TreeOf(nodes, i)
    decreases |nodes| - i
  {
    forall j | 0 <= j < |nodes[i].kids|
      ensures TreeOf(more, nodes[i].kids[j]) == TreeOf(nodes, nodes[i].kids[j])
    {
      TreeKept(nodes, more, nodes[i].kids[j]);
    }
  }

  function TreesOf(nodes: seq<Node>, ks: seq<nat>): seq<Tree>
    requires Good(nodes) && forall j :: 0 <= j < |ks| ==> ks[j] < |nodes|
  {
    seq(|ks|, j requires 0 <= j < |ks| => TreeOf(nodes, ks[j]))
  }

  /** The state of the loop between two records. */
  predicate Consistent(b: Builder, p: nat)
  {
    && Good(b.nodes) && b.current < |b.nodes| && p < |b.nodes| && IsUnder(b.nodes, b.current, p)
    && b.ident == PathOf(b.nodes, b.current)
  }

  /** c grew from b by children of p only: no other node of b has changed. */
  predicate GrewUnder(b: Builder, c: Builder, p: nat, kids: seq<nat>)
  {
    && Consistent(c, p) && p < |b.nodes| <= |c.nodes|
    && (forall i :: 0 <= i < |b.nodes| && i != p ==> c.nodes[i] == b.nodes[i])
    && c.nodes[p] == b.nodes[p].(kids := b.nodes[p].kids + kids)
    && (forall j :: 0 <= j < |kids| ==> |b.nodes| <= kids[j] < |c.nodes|)
  }

  lemma GrownIsGood(b: Builder, node: Node)
    requires Good(b.nodes) && b.current < |b.nodes|
    requires node.parent == b.current && node.kids == [] && ValidName(node.name)
    ensures Good(Grown(b, node))
  {
    var g := Grown(b, node);
    forall i, j | 0 <= i < |g| && 0 <= j < |g[i].kids| ensures i < g[i].kids[j] < |g|
    {
      if i == b.current && j == |b.nodes[i].kids| {
      } else if i < |b.nodes| {
        assert g[i].kids[j] == b.nodes[i].kids[j];
      }
    }
  }

  /** The node a listed record adds, and the state after it. */
  function Listed(b: Builder, p: nat, name: string, kind: char, link: string, at: nat): Builder
    requires Good(b.nodes) && p < |b.nodes|
  {
    var dir := PathOf(b.nodes, p);
    var node := Node(KindOf(kind), name, if kind == TAR_SYMLINK then link else "", at, p, []);
    var g := Grown(Builder(b.nodes, p, dir), node);
    if kind == TAR_DIR then Builder(g, |b.nodes|, Join(dir, name)) else Builder(g, p, dir)
  }

  lemma VisitIsListed(b: Builder, p: nat, name: string, kind: char, link: string, at: nat)
    requires Consistent(b, p) && ValidName(name) && |b.nodes[p].kids| < Capacity(p)
    ensures Visit(b, Join(PathOf(b.nodes, p), name) + (if kind == TAR_DIR then "/" else ""), kind, link, at)
            == Some(Listed(b, p, name, kind, link, at))
  {
    hide Grown, Join, Cut, Dirname, PathOf, ValidName;
    RecordName(PathOf(b.nodes, p), name, kind == TAR_DIR);
    ClimbReaches(b, p);
  }

  lemma ListedGrows(b: Builder, p: nat, name: string, kind: char, link: string, at: nat)
    requires Consistent(b, p) && ValidName(name)
    ensures GrewUnder(b, Listed(b, p, name, kind, link, at), p, [|b.nodes|])
  {
    var node := Node(KindOf(kind), name, if kind == TAR_SYMLINK then link else "", at, p, []);
    var b1 := Builder(b.nodes, p, PathOf(b.nodes, p));
    GrownIsGood(b1, node);
    var g := Grown(b1, node);
    PathKept(b.nodes, g, p);
    assert PathOf(g, |b.nodes|) == Join(PathOf(g, p), name);
    assert IsUnder(g, p, p) && IsUnder(g, |b.nodes|, p);
  }

  /** One listed record adds one node to its directory. */
  lemma VisitListed(b: Builder, p: nat, name: string, kind: char, link: string, at: nat)
    requires Consistent(b, p) && ValidName(name) && |b.nodes[p].kids| < Capacity(p)
    ensures var dir := PathOf(b.nodes, p);
            var n := |b.nodes|;
            var node := Node(if kind == '5' then VfsDir else if kind == '2' then VfsSym else VfsFile, name,
                             if kind == '2' then link else "", at, p, []);
            var c := Visit(b, Join(dir, name) + (if kind == '5' then "/" else ""), kind, link, at);
            && c.Some? && GrewUnder(b, c.value, p, [n]) && |c.value.nodes| == n + 1 && c.value.nodes[n] == node
            && (kind == '5' ==> c.value.current == n && c.value.ident == Join(dir, name))
  {
    hide Visit, GrewUnder, PathOf, Join, ValidName;
    VisitIsListed(b, p, name, kind, link, at);
    ListedGrows(b, p, name, kind, link, at);
  }

  /** Growth under a new child of p, and then under p, is growth under p. */
  lemma GrewAgain(b: Builder, c: Builder, d: Builder, p: nat, kids: seq<nat>, more: seq<nat>)
    requires GrewUnder(b, c, p, kids) && GrewUnder(c, d, p, more)
    ensures GrewUnder(b, d, p, kids + more)
  {
    assert b.nodes[p].kids + (kids + more) == b.nodes[p].kids + kids + more;
  }

  lemma GrewBelow(b: Builder, c: Builder, d: Builder, p: nat, n: nat, kids: seq<nat>)
    requires Consistent(b, p) && GrewUnder(b, c, p, [n]) && n == |b.nodes| && |c.nodes| == n + 1
    requires c.nodes[n].parent == p && GrewUnder(c, d, n, kids)
    ensures GrewUnder(b, d, p, [n])
  {
    assert IsUnder(d.nodes, n, p);
    UnderTrans(d.nodes, d.current, n, p);
  }

  lemma VisitsOne(b: Builder, r: Record, rs: seq<Record>, at: nat)
    ensures Visits(b, [r], at) == Visit(b, r.name, r.kind, r.link, at)
    ensures Visit(b, r.name, r.kind, r.link, at).Some? ==>
              Visits(b, [r] + rs, at)
              == Visits(Visit(b, r.name, r.kind, r.link, at).value, rs, at + MemberSize(|r.data|))
  {
    hide Visit;
    var all := [r] + rs;
    assert [r][1..] == [] && all[0] == r && all[1..] == rs;
  }

  lemma AddLeaf(b: Builder, p: nat, e: Entry, at: nat) returns (c: Builder, n: nat)
    requires Consistent(b, p) && EntryOk(e) && !e.DirEntry? && |b.nodes[p].kids| < Capacity(p)
    ensures Visits(b, ListOne(e, PathOf(b.nodes, p)), at) == Some(c)
    ensures n == |b.nodes| < |c.nodes| && GrewUnder(b, c, p, [n]) && TreeOf(c.nodes, n) == TreeFor(e, at)
  {
    hide Visit, PathOf, Join;
    n := |b.nodes|;
    var r := ListOne(e, PathOf(b.nodes, p))[0];
    assert ListOne(e, PathOf(b.nodes, p)) == [r];
    VisitListed(b, p, e.name, r.kind, r.link, at);
    assert Join(PathOf(b.nodes, p), e.name) + "" == Join(PathOf(b.nodes, p), e.name);
    VisitsOne(b, r, [], at);
    c := Visit(b, r.name, r.kind, r.link, at).value;
  }

  /** An entry's records add one child whose tree is the entry's. */
  lemma {:induction false} AddEntry(b: Builder, p: nat, e: Entry, at: nat) returns (c: Builder, n: nat)
    requires Consistent(b, p) && EntryOk(e) && |b.nodes[p].kids| < Capacity(p)
    ensures Visits(b, ListOne(e, PathOf(b.nodes, p)), at) == Some(c)
    ensures n == |b.nodes| < |c.nodes| && GrewUnder(b, c, p, [n]) && TreeOf(c.nodes, n) == TreeFor(e, at)
    decreases e, 0
  {
    hide Visit, Visits, GrewUnder;
    if !e.DirEntry? {
      c, n := AddLeaf(b, p, e, at);
    } else {
      n := |b.nodes|;
      var dir := PathOf(b.nodes, p);
      var path := Join(dir, e.name);
      var r := Record(path + "/", TAR_DIR, "", "", e.info.meta, e.info.stamp, e.info.rest);
      VisitListed(b, p, e.name, TAR_DIR, "", at);
      VisitsOne(b, r, List(e.entries, path), at);
      var d := Visit(b, r.name, r.kind, r.link, at).value;
      NewDirectory(b, d, p, n);
      var kids;
      c, kids := AddForest(d, n, e.entries, at + MemberSize(0));
      GrewBelow(b, d, c, p, n, kids);
      DirectoryTree(d, c, n, kids);
      GrewLarger(d, c, n, kids);
    }
  }

  lemma NewDirectory(b: Builder, d: Builder, p: nat, n: nat)
    requires Consistent(b, p) && GrewUnder(b, d, p, [n]) && n == |b.nodes| && |d.nodes| == n + 1 && d.current == n
    requires d.nodes[n].parent == p
    ensures Consistent(d, n) && PathOf(d.nodes, n) == Join(PathOf(b.nodes, p), d.nodes[n].name)
  {
    PathKept(b.nodes, d.nodes, p);
  }

  lemma GrewLarger(b: Builder, c: Builder, p: nat, kids: seq<nat>)
    requires GrewUnder(b, c, p, kids)
    ensures |b.nodes| <= |c.nodes| && Good(c.nodes) && forall j :: 0 <= j < |kids| ==> kids[j] < |c.nodes|
  {
  }

  lemma DirectoryTree(d: Builder, c: Builder, n: nat, kids: seq<nat>)
    requires n < |d.nodes| && d.nodes[n].kids == [] && GrewUnder(d, c, n, kids)
    ensures TreeOf(c.nodes, n).kids == TreesOf(c.nodes, kids)
    ensures TreeOf(c.nodes, n).kind == d.nodes[n].kind && TreeOf(c.nodes, n).name == d.nodes[n].name
    ensures TreeOf(c.nodes, n).link == d.nodes[n].link && TreeOf(c.nodes, n).offset == d.nodes[n].offset
  {
    assert c.nodes[n].kids == kids;
  }

  lemma PathsAfter(b: Builder, d: Builder, p: nat, n: nat)
    requires Consistent(b, p) && GrewUnder(b, d, p, [n])
    ensures Consistent(d, p) && Good(d.nodes) && p < |d.nodes|
    ensures PathOf(d.nodes, p) == PathOf(b.nodes, p) && |d.nodes[p].kids| == |b.nodes[p].kids| + 1
  {
    PathKept(b.nodes, d.nodes, p);
  }

  lemma FirstTree(d: Builder, c: Builder, p: nat, n: nat, more: seq<nat>)
    requires Good(d.nodes) && p < n < |d.nodes| && GrewUnder(d, c, p, more)
    ensures n < |c.nodes| && TreesOf(c.nodes, [n] + more) == [TreeOf(d.nodes, n)] + TreesOf(c.nodes, more)
  {
    TreeKept(d.nodes, c.nodes, n);
  }

  /** Putting the first entry and the others together. */
  lemma ForestStep(b: Builder, d: Builder, c: Builder, p: nat, n: nat, more: seq<nat>, es: seq<Entry>, at: nat)
    requires es != [] && Consistent(b, p) && p < n < |d.nodes|
    requires GrewUnder(b, d, p, [n]) && GrewUnder(d, c, p, more)
    requires Visits(b, ListOne(es[0], PathOf(b.nodes, p)), at) == Some(d)
    requires Visits(d, List(es[1..], PathOf(b.nodes, p)), at + Extent(es[0])) == Some(c)
    requires TreeOf(d.nodes, n) == TreeFor(es[0], at)
    requires TreesOf(c.nodes, more) == TreesFor(es[1..], at + Extent(es[0]))
    ensures Visits(b, List(es, PathOf(b.nodes, p)), at) == Some(c)
    ensures GrewUnder(b, c, p, [n] + more)
    ensures (GrewLarger(b, c, p, [n] + more); TreesOf(c.nodes, [n] + more)) == TreesFor(es, at)
  {
    hide Visit, Visits, PathOf, GrewUnder, TreeOf, TreesOf, Extent, ListOne, TreeFor;
    var dir := PathOf(b.nodes, p);
    GrewAgain(b, d, c, p, [n], more);
    GrewLarger(b, c, p, [n] + more);
    ListOneSize(es[0], dir);
    VisitsCat(b, ListOne(es[0], dir), List(es[1..], dir), at);
    GrewLarger(b, d, p, [n]);
    FirstTree(d, c, p, n, more);
  }

  lemma EmptyForest(b: Builder, p: nat, at: nat)
    requires Consistent(b, p)
    ensures Visits(b, List([], PathOf(b.nodes, p)), at) == Some(b)
    ensures GrewUnder(b, b, p, []) && TreesOf(b.nodes, []) == TreesFor([], at)
  {
    hide Visit, PathOf;
    assert b.nodes[p].kids + [] == b.nodes[p].kids;
  }

  /** The first entry of a list, added, with what the rest of the list needs. */
  lemma {:induction false} AddFirst(b: Builder, p: nat, es: seq<Entry>, at: nat) returns (d: Builder, n: nat)
    requires es != [] && Consistent(b, p) && EntriesOk(es) && |b.nodes[p].kids| + |es| <= Capacity(p)
    ensures Visits(b, ListOne(es[0], PathOf(b.nodes, p)), at) == Some(d)
    ensures p < n < |d.nodes| && GrewUnder(b, d, p, [n]) && TreeOf(d.nodes, n) == TreeFor(es[0], at)
    ensures Consistent(d, p) && EntriesOk(es[1..]) && |d.nodes[p].kids| + |es[1..]| <= Capacity(p)
    ensures PathOf(d.nodes, p) == PathOf(b.nodes, p)
    decreases es, 0
  {
    assert p < |b.nodes| && Good(b.nodes);
    hide *;
    FirstEntry(b, p, es);
    d, n := AddEntry(b, p, es[0], at);
    PathsAfter(b, d, p, n);
  }

  /** The records of a list of entries add children whose trees are the entries'. */
  lemma {:induction false} AddForest(b: Builder, p: nat, es: seq<Entry>, at: nat) returns (c: Builder, kids: seq<nat>)
    requires Consistent(b, p) && EntriesOk(es) && |b.nodes[p].kids| + |es| <= Capacity(p)
    ensures Visits(b, List(es, PathOf(b.nodes, p)), at) == Some(c)
    ensures GrewUnder(b, c, p, kids) && TreesOf(c.nodes, kids) == TreesFor(es, at)
    decreases es, 1
  {
    assert p < |b.nodes| && Good(b.nodes);
    hide *;
    if es == [] {
      c, kids := b, [];
      EmptyForest(b, p, at);
    } else {
      var d, n := AddFirst(b, p, es, at);
      var more;
      c, more := AddForest(d, p, es[1..], at + Extent(es[0]));
      kids := [n] + more;
      ForestStep(b, d, c, p, n, more, es, at);
    }
  }

  lemma FirstEntry(b: Builder, p: nat, es: seq<Entry>)
    requires Consistent(b, p) && EntriesOk(es) && es != [] && |b.nodes[p].kids| + |es| <= Capacity(p)
    ensures EntryOk(es[0]) && EntriesOk(es[1..]) && |b.nodes[p].kids| < Capacity(p)
    ensures |b.nodes[p].kids| + 1 + |es[1..]| <= Capacity(p)
  {
  }

  /** Building undoes listing: from the records of any directory tree the loop rebuilds the tree,
      with its shape, order, names, kinds, link targets and member offsets. */
  lemma BuildingUndoesListing(es: seq<Entry>, at: nat) returns (c: Builder)
    requires EntriesOk(es) && |es| <= 0xFF
    ensures Visits(START, List(es, ""), at) == Some(c) && Good(c.nodes)
    ensures TreeOf(c.nodes, 0) == Tree(VfsDir, "/", "", 0, TreesFor(es, at))
  {
    var kids;
    assert PathOf(START.nodes, 0) == "";
    c, kids := AddForest(START, 0, es, at);
    DirectoryTree(START, c, 0, kids);
  }

  // ---- parent and path agree, whatever the archive ----

  /** At the top of every record: the path from the root to `current_parent` is `samedir_identifier`. */
  predicate Agrees(b: Builder)
  {
    Good(b.nodes) && b.current < |b.nodes| && b.ident == PathOf(b.nodes, b.current)
  }

  lemma {:induction false} ClimbAgrees(b: Builder, target: string)
    requires Agrees(b) && Climb(b, target).Some?
    ensures var c := Climb(b, target).value;
            Agrees(c) && c.nodes == b.nodes && c.ident == target && IsUnder(b.nodes, b.current, c.current)
    decreases b.current
  {
    if b.ident != target {
      var up := b.nodes[b.current].parent;
      DirnameOfJoin(PathOf(b.nodes, up), b.nodes[b.current].name);
      ClimbAgrees(b.(current := up, ident := Dirname(b.ident)), target);
    }
  }

  lemma {:induction false} LastSlashSame(s: string, t: string, n: nat)
    requires n <= |s| && n <= |t| && s[..n] == t[..n]
    ensures LastSlash(s, n) == LastSlash(t, n)
  {
    if n > 0 {
      assert s[n - 1] == s[..n][n - 1] == t[n - 1];
      assert s[..n - 1] == s[..n][..n - 1] == t[..n - 1];
      LastSlashSame(s, t, n - 1);
    }
  }

  /** Cutting a trailing slash does not move the last component. */
  lemma CutKeepsStart(name: string)
    requires Cut(name).Some? && NameStart(name) <= |Cut(name).value|
    requires ValidName(Cut(name).value[NameStart(name)..])
    ensures BasenameStart(Cut(name).value) == BasenameStart(name)
  {
    var cut := Cut(name).value;
    var base := cut[NameStart(name)..];
    assert base[|base| - 1] in base && cut[|cut| - 1] == base[|base| - 1];
    if |cut| < |name| {
      assert LastSlash(name, |name| - 1) == LastSlash(name, |cut| - 1) by {
        assert name[|cut| - 1] == cut[|cut| - 1];
      }
      LastSlashSame(name, cut, |cut| - 1);
    }
  }

  /** A relative name is its directory joined with its last component. */
  lemma CutJoins(name: string)
    requires Cut(name).Some? && name[0] != '/' && NameStart(name) <= |Cut(name).value|
    requires ValidName(Cut(name).value[NameStart(name)..])
    ensures var cut := Cut(name).value; cut == Join(Dirname(cut), cut[NameStart(name)..])
  {
    hide LastSlash;
    var cut := Cut(name).value;
    CutKeepsStart(name);
    SlashBelow(name, |name| - 1);
    var i := BasenameStart(name);
    CutIsPrefix(name);
    hide ValidName, Cut;
    if name[i] == '/' {
      assert cut == cut[..i] + "/" + cut[i + 1..];
      assert cut[..i] != "" by { assert i > 0; }
    } else {
      assert i == 0;
      assert cut[..0] == "" && cut[0..] == cut;
    }
  }

  lemma CutIsPrefix(name: string)
    requires Cut(name).Some?
    ensures var cut := Cut(name).value; |cut| <= |name| && cut == name[..|cut|]
  {
  }

  lemma {:induction false} PathIsRelative(nodes: seq<Node>, i: nat)
    requires Good(nodes) && i < |nodes| && PathOf(nodes, i) != ""
    ensures PathOf(nodes, i)[0] != '/'
  {
    var name := nodes[i].name;
    assert name[0] in name;
    if PathOf(nodes, nodes[i].parent) != "" {
      PathIsRelative(nodes, nodes[i].parent);
    }
  }

  /** The name ends with two slashes: `get_basename` then finds an empty last component. */
  predicate EndsTwice(name: string)
  {
    |name| >= 2 && name[|name| - 1] == '/' && name[|name| - 2] == '/'
  }

  lemma {:induction false} LastSlashFrom(s: string, n: nat, i: nat)
    requires n <= |s| && i < n && s[i] == '/'
    ensures LastSlash(s, n).Some? && LastSlash(s, n).value >= i
  {
    if s[n - 1] != '/' {
      LastSlashFrom(s, n - 1, i);
    }
  }

  /** The last component of a name is a proper name, unless the name ends with two slashes. */
  lemma LastComponent(name: string)
    requires Cut(name).Some? && NameStart(name) <= |Cut(name).value| && '\0' !in name
    ensures ValidName(Cut(name).value[NameStart(name)..]) <==> !EndsTwice(name)
  {
    var cut, start, n := Cut(name).value, NameStart(name), |name| - 1;
    var base := cut[start..];
    SlashBelow(name, n);
    if EndsTwice(name) {
      LastSlashFrom(name, n, n - 1);
      assert base == "";
    } else {
      forall k | start <= k < |cut| ensures cut[k] != '/' && cut[k] != '\0'
      {
        assert cut[k] == name[k] && name[k] in name;
        if name[k] == '/' && k < n {
          LastSlashFrom(name, n, k);
        }
      }
      assert forall c :: c in base ==> exists k :: start <= k < |cut| && cut[k] == c;
    }
  }

  /** Exactly when a record of any archive leaves all nodes properly named and the path to
      `current_parent` equal to `samedir_identifier`. A name that ends with two slashes makes a node
      without a name, and an absolute directory name leaves a slash in the identifier that the path
      from the root does not have. */
  lemma VisitAgreesExactly(b: Builder, name: string, kind: char, link: string, at: nat)
    requires Agrees(b) && '\0' !in name && Visit(b, name, kind, link, at).Some?
    ensures Agrees(Visit(b, name, kind, link, at).value)
            <==> !EndsTwice(name) && (name[0] != '/' || kind != TAR_DIR)
  {
    LastComponent(name);
    if EndsTwice(name) {
      NamelessNode(b, name, kind, link, at);
    } else {
      VisitAgrees(b, name, kind, link, at);
    }
  }

  lemma NamelessNode(b: Builder, name: string, kind: char, link: string, at: nat)
    requires Agrees(b) && Visit(b, name, kind, link, at).Some? && !ValidName(Cut(name).value[NameStart(name)..])
    ensures !Good(Visit(b, name, kind, link, at).value.nodes)
  {
    var cut := Cut(name).value;
    ClimbAgrees(b, Dirname(cut));
    var c := Climb(b, Dirname(cut)).value;
    var nodes := Visit(b, name, kind, link, at).value.nodes;
    assert nodes[|c.nodes|].name == cut[NameStart(name)..];
  }

  lemma VisitAgrees(b: Builder, name: string, kind: char, link: string, at: nat)
    requires Agrees(b) && Visit(b, name, kind, link, at).Some? && ValidName(Cut(name).value[NameStart(name)..])
    ensures Agrees(Visit(b, name, kind, link, at).value) <==> name[0] != '/' || kind != TAR_DIR
  {
    var cut := Cut(name).value;
    var base := cut[NameStart(name)..];
    ClimbAgrees(b, Dirname(cut));
    var c := Climb(b, Dirname(cut)).value;
    var node := Node(KindOf(kind), base, if kind == TAR_SYMLINK then link else "", at, c.current, []);
    GrownIsGood(c, node);
    var g := Grown(c, node);
    PathKept(c.nodes, g, c.current);
    if name[0] != '/' {
      CutJoins(name);
      assert PathOf(g, |c.nodes|) == Join(PathOf(g, c.current), base);
    } else if kind == TAR_DIR {
      CutStart(name);
      PathIsRelative(g, |c.nodes|);
    }
  }

  lemma CutStart(name: string)
    requires Cut(name).Some?
    ensures Cut(name).value != "" && Cut(name).value[0] == name[0]
  {
  }

  /** So over the records of any archive with relative names that do not end with two slashes the path
      from the root to `current_parent` is `samedir_identifier` at the top of every record. */
  lemma {:induction false} VisitsAgree(b: Builder, rs: seq<Record>, at: nat)
    requires Agrees(b) && Visits(b, rs, at).Some?
    requires forall r :: r in rs ==> '\0' !in r.name && !EndsTwice(r.name) && r.name != "" && r.name[0] != '/'
    ensures Agrees(Visits(b, rs, at).value)
    decreases |rs|
  {
    hide Visit, Agrees, EndsTwice;
    if rs != [] {
      VisitAgreesExactly(b, rs[0].name, rs[0].kind, rs[0].link, at);
      VisitsAgree(Visit(b, rs[0].name, rs[0].kind, rs[0].link, at).value, rs[1..], at + MemberSize(|rs[0].data|));
    }
  }
}
