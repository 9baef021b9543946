/** From newfs on: the states that newfs makes are where the runs of the other modules begin. */
module Begin {
  import opened Arith
  import opened Bitmap
  import opened Geometry
  import opened Inodes
  import opened Allocator
  import opened Filesystem
  import opened Workload
  import opened Newfs
  import opened InodeFs
  import Lbns
  import IndirTree
  import BlockPool
  import Balloc
  import Libufs
  import Trim
  import TrimRun

  /** What newfs makes is a session in which nobody holds anything, and all of the data space is free. */
  method NewSession(geo: Geo) returns (fs: FileSystem)
    requires Layout(geo)
    ensures fs.geo == geo && Session(fs, []) && Stock(fs, []) == DataSize(geo) - geo.csfrags
    ensures fresh(fs) && fresh(fs.csNbfree) && fresh(fs.csNffree) && fresh(fs.Objects())
    ensures |fs.groups| == geo.ncg && forall c :: 0 <= c < geo.ncg ==> fs.Owns()[c] == {}
    ensures fs.nbfree == SuperBlocks(geo)
  {
    hide Layout, FileSystem.Valid, Held, Repr, SuperBlocks, SuperFrags, DataSize, CylGroup.Valid;
    fs := MkFs(geo);
    Untouched(fs);
    FreshSession(fs);
    DataSizeIsFree(geo);
  }

  lemma Untouched(fs: FileSystem)
    requires fs.Valid() && forall c: nat :: c < fs.geo.ncg ==> fs.groups[c].owned == {}
    ensures |fs.groups| == fs.geo.ncg && forall c :: 0 <= c < fs.geo.ncg ==> fs.Owns()[c] == {}
  {
    hide CylGroup.Valid, Repr;
    ValidShape(fs);
    forall c | 0 <= c < fs.geo.ncg
      ensures fs.Owns()[c] == {}
    {
      fs.ValuesAt(c);
    }
  }

  /**
    * newfs, and then any sequence of requests: from an empty list of extents every request does what Step says, the
    * summaries stay exact, and what is free or held is always the data space that newfs computed.
    */
  method NewfsAndServe(geo: Geo, ops: seq<Op>)
    returns (fs: FileSystem, live: seq<Extent>, addrs: seq<nat>, ghost trace: seq<State>)
    requires Layout(geo)
    ensures fs.geo == geo && Session(fs, live) && Stock(fs, live) == DataSize(geo) - geo.csfrags
    ensures Run(geo, trace, ops, addrs) && trace[|ops|] == StateOf(fs, live)
    ensures trace[0].live == [] && |trace[0].owns| == geo.ncg && forall c :: 0 <= c < geo.ncg ==> trace[0].owns[c] == {}
  {
    hide Layout, Session, Proper, Step, DataSize, Stock, FileSystem.Frees, FileSystem.Owns;
    fs := NewSession(geo);
    live, addrs, trace := Serve(fs, [], ops);
  }

  /** newfs, and then any sequence of requests, releases and completions over a new TRIM queue. */
  method NewfsAndRecycle(geo: Geo, units: Trim.Units, acts: seq<TrimRun.Act>)
    returns (fs: FileSystem, q: Trim.TrimQueue, live: seq<Extent>, addrs: seq<nat>, ghost trace: seq<TrimRun.Both>)
    requires Layout(geo)
    ensures fs.geo == geo && TrimRun.Ready(fs, q, live) && Stock(fs, live) == DataSize(geo) - geo.csfrags
    ensures TrimRun.JointRun(geo, trace, acts, addrs) && trace[|acts|] == TrimRun.Now(fs, q, live)
    ensures trace[0].s.live == [] && trace[0].v == Trim.View([], [], 0, [], [], multiset{}, multiset{}, multiset{})
  {
    hide Layout, Session, Stock, DataSize, TrimRun.Joint, TrimRun.ActStep, TrimRun.Blks, FileSystem.Frees, FileSystem.Owns,
      Trim.TrimQueue.Valid;
    q := new Trim.TrimQueue(units);
    fs := NewSession(geo);
    live, addrs, trace := TrimRun.Recycle(fs, q, [], acts);
  }

  /** A file without blocks in what newfs makes. */
  method NewFile(geo: Geo, n: nat, unit: nat, grants: (nat, Balloc.Asked) -> bool, wants: (nat, Balloc.Asked) -> nat)
    returns (file: Balloc.File, ghost before: State)
    requires Layout(geo) && geo.Searchable() && n >= 3
    ensures file.Valid() && fresh(file) && fresh(file.space) && fresh(file.space.parts) && file.space.fs.geo == geo
    ensures file.n == n && file.grants == grants && file.call == 0 && file.Now().t == IndirTree.Tree([0, 0, 0], map[])
    ensures file.space.fs.nbfree == SuperBlocks(geo) && before.live == []
    ensures file.space.fs.Frees() == before.frees && file.space.fs.Owns() == before.owns
  {
    hide Layout, SuperBlocks, Balloc.File.Valid, Session, Stock, BlockPool.Pool, BlockPool.Space.Linked, FileSystem.Frees,
      FileSystem.Owns;
    LayoutFrag(geo);
    var fs := NewSession(geo);
    BlockPool.NoBlockZero(fs, []);
    BlockPool.PoolSize(fs, []);
    var space := new BlockPool.Space(fs, 0, []);
    before := space.base;
    NoPointers(n);
    file := new Balloc.File(n, unit, grants, wants, space, [0, 0, 0], map[], 0, BlockPool.Pool(geo, space.base));
    space.Untouched();
  }

  /**
    * newfs, and then one block of a new file, behind an indirect block: it is allocated with all the indirect blocks on its
    * way exactly if nothing is refused and newfs left enough free blocks; otherwise the filesystem is as newfs left it.
    */
  method NewfsAndBalloc(geo: Geo, n: nat, unit: nat, grants: (nat, Balloc.Asked) -> bool, wants: (nat, Balloc.Asked) -> nat,
                        lbn: int, metaonly: bool, clrbuf: bool)
    returns (file: Balloc.File, out: Balloc.Outcome, ghost o: seq<nat>, ghost before: State)
    requires Layout(geo) && geo.Searchable() && n >= 3 && Lbns.NDADDR <= lbn < Lbns.Base(n, Lbns.NIADDR)
    ensures out != Balloc.Panicked && file.Valid() && file.space.fs.geo == geo
    ensures Lbns.Place(n, o) && Lbns.Levels(o) == 0 && Lbns.Start(n, o) == lbn && |o| >= 2
    ensures out == Balloc.Done <==>
      && (forall q :: q in Balloc.Requests(Lbns.Steps(n, o), 1, lbn, metaonly, clrbuf) ==> grants(1, q))
      && Balloc.Last(o, metaonly) <= SuperBlocks(geo)
    ensures before.live == [] && (out == Balloc.Failed ==>
      file.space.fs.Frees() == before.frees && file.space.fs.Owns() == before.owns && BlockPool.Recapped(file.space.fs, before.frees))
  {
    hide Layout, SuperBlocks, Balloc.File.Valid, Lbns.Base, Lbns.Start, Session, Stock, BlockPool.Recapped, BlockPool.Lent,
      Balloc.Filled, Balloc.Books, Balloc.Missing, Balloc.Requests, BlockPool.Pool, BlockPool.Space.Linked, FileSystem.Frees,
      FileSystem.Owns;
    ghost var ns;
    file, before := NewFile(geo, n, unit, grants, wants);
    NoPointers(n);
    out, o, ns := file.Balloc(lbn, metaonly, clrbuf);
    AllMissing(n, o, Balloc.Last(o, metaonly));
    AllMissing(n, o, |o|);
    Balloc.DataPlace(n, o);
  }

  lemma NoPointers(n: nat)
    ensures IndirTree.Shaped(n, IndirTree.Tree([0, 0, 0], map[]))
  {}

  /** In a file without pointers all slots on the way are missing. */
  lemma AllMissing(n: nat, o: seq<nat>, last: nat)
    requires Lbns.Place(n, o) && last <= |o|
    ensures var t := IndirTree.Tree([0, 0, 0], map[]);
      IndirTree.Shaped(n, t) && Balloc.Missing(n, t, o, last) == last
  {
    hide Balloc.Missing;
    var t := IndirTree.Tree([0, 0, 0], map[]);
    Balloc.PlacePrefix(n, o, 1);
    assert Balloc.FirstEmpty(n, t, o, 1);
    Balloc.MissingIs(n, t, o, 1, last);
  }

  // ----- inodes -----

  /** The loop of mkfs over the inode halves of the groups. */
  method InodeGroups(ipg: nat, inopb: nat, ufs2: bool, size: nat, iusedoff: nat, ncg: nat) returns (groups: seq<InodeGroup>)
    requires inopb > 0 && inopb % 8 == 0 && ipg > 0 && ipg % inopb == 0 && ipg % 8 == 0
    requires size % 8 == 0 && iusedoff + ipg / 8 <= size
    ensures |groups| == ncg
    ensures forall c :: 0 <= c < ncg ==> fresh(groups[c]) && fresh(groups[c].buf) && NewGroup(groups[c], ipg, c)
    ensures forall c, d :: 0 <= c < d < ncg ==> groups[c] != groups[d] && groups[c].buf != groups[d].buf
  {
    hide InodeGroup.Valid, Bits;
    groups := [];
    for c := 0 to ncg
      invariant |groups| == c
      invariant forall d :: 0 <= d < c ==> fresh(groups[d]) && fresh(groups[d].buf) && NewGroup(groups[d], ipg, d)
      invariant forall d, e :: 0 <= d < e < c ==> groups[d] != groups[e] && groups[d].buf != groups[e].buf
    {
      var g := new InodeGroup(ipg, inopb, ufs2, size, iusedoff, c);
      groups := groups + [g];
    }
  }

  /** Group c with none of its inodes in use but, in group 0, those below the root. */
  ghost predicate NewGroup(g: InodeGroup, ipg: nat, c: int)
    reads g, g.buf
  {
    && g.Valid() && g.ipg == ipg && c >= 0 && g.ndir == 0 && g.nifree == InitInodes(ipg, c)
    && forall i :: 0 <= i < |g.Used()| ==> (g.Used()[i] <==> c == 0 && i < ROOTINO)
  }

  lemma {:induction false} InodeSums(ipg: nat, nis: seq<int>)
    requires forall c :: 0 <= c < |nis| ==> nis[c] == InitInodes(ipg, c)
    ensures Sum(nis) == InodesBelow(ipg, |nis|)
  {
    if nis != [] {
      InodeSums(ipg, nis[..|nis| - 1]);
    }
  }

  lemma {:induction false} ZeroSum(s: seq<int>)
    requires forall c :: 0 <= c < |s| ==> s[c] == 0
    ensures Sum(s) == 0
  {
    if s != [] {
      ZeroSum(s[..|s| - 1]);
    }
  }

  /** The superblock's copies of the groups' counts. */
  method CopyInodes(ipg: nat, groups: seq<InodeGroup>) returns (csNifree: array<int>, csNdir: array<int>)
    requires forall c :: 0 <= c < |groups| ==> NewGroup(groups[c], ipg, c)
    ensures fresh(csNifree) && fresh(csNdir) && csNifree != csNdir && csNifree.Length == csNdir.Length == |groups|
    ensures forall c :: 0 <= c < |groups| ==> csNifree[c] == InitInodes(ipg, c) && csNdir[c] == 0
  {
    hide NewGroup;
    csNifree, csNdir := new int[|groups|], new int[|groups|];
    for c := 0 to |groups|
      invariant forall d :: 0 <= d < c ==> csNifree[d] == InitInodes(ipg, d) && csNdir[d] == 0
    {
      NewCounts(groups[c], ipg, c);
      csNifree[c], csNdir[c] := groups[c].nifree, groups[c].ndir;
    }
  }

  lemma NewCounts(g: InodeGroup, ipg: nat, c: nat)
    requires NewGroup(g, ipg, c)
    ensures g.Valid() && g.Shape() && g.ipg == ipg && g.nifree == InitInodes(ipg, c) && g.ndir == 0
  {}

  /** What such groups make together. */
  lemma NewSystem(s: InodeSystem)
    requires s.Shape() && forall c :: 0 <= c < |s.groups| ==> NewGroup(s.groups[c], s.ipg, c)
    requires forall c :: 0 <= c < |s.groups| ==> s.csNifree[c] == InitInodes(s.ipg, c) && s.csNdir[c] == 0
    requires s.nifree == |s.groups| * s.ipg - ROOTINO && s.ndir == 0
    ensures s.Valid() && forall ino: nat :: s.InUse(ino) <==> ino < ROOTINO
  {
    hide InodeGroup.Valid, Sum, InodesBelow, InodeGroup.Used, InodeGroup.Shape, GroupOf, PlaceOf;
    InodeSums(s.ipg, s.csNifree[..]);
    ZeroSum(s.csNdir[..]);
    InodesAgree(s.ipg, |s.groups|);
    forall c: nat | c < |s.groups|
      ensures s.GroupOk(c)
    {
      assert NewGroup(s.groups[c], s.ipg, c);
    }
    forall ino: nat
      ensures s.InUse(ino) <==> ino < ROOTINO
    {
      NumberWhole(s.ipg, ino);
      s.groups[0].Large();
      var c, i := GroupOf(s.ipg, ino), PlaceOf(s.ipg, ino);
      if c > 0 {
        MulMono(1, c, s.ipg);
      }
      if c < |s.groups| {
        assert NewGroup(s.groups[c], s.ipg, c);
      }
    }
  }

  /** newfs leaves an inode system in order, with the closed-form total of free inodes; every inode from the root on is free. */
  method MkInodes(ipg: nat, inopb: nat, ufs2: bool, size: nat, iusedoff: nat, ncg: nat) returns (s: InodeSystem)
    requires inopb > 0 && inopb % 8 == 0 && ipg > 0 && ipg % inopb == 0 && ipg % 8 == 0
    requires size % 8 == 0 && iusedoff + ipg / 8 <= size && ncg > 0
    ensures fresh(s) && fresh(s.csNifree) && fresh(s.csNdir) && fresh(s.Objects())
    ensures s.Valid() && s.ipg == ipg && |s.groups| == ncg && s.nifree == ncg * ipg - ROOTINO && s.ndir == 0
    ensures forall ino: nat :: s.InUse(ino) <==> ino < ROOTINO
  {
    hide InodeGroup.Valid, InodeGroup.Shape, NewGroup;
    var groups := InodeGroups(ipg, inopb, ufs2, size, iusedoff, ncg);
    var csNifree, csNdir := CopyInodes(ipg, groups);
    forall c | 0 <= c < ncg
      ensures groups[c].Shape() && groups[c].ipg == ipg
    {
      NewCounts(groups[c], ipg, c);
    }
    label made:
    s := new InodeSystem(ipg, groups, csNifree, csNdir, ncg * ipg - ROOTINO, 0);
    assert csNifree[..] == old@made(csNifree[..]) && csNdir[..] == old@made(csNdir[..]);
    NewSystem(s);
  }

  // ----- the disk that libufs opens -----

  /** What newfs wrote, group by group. */
  method Images(fs: FileSystem) returns (disk: seq<Libufs.Image>)
    requires fs.Valid()
    ensures fs.Valid() && |disk| == |fs.groups| && forall c :: 0 <= c < |disk| ==> disk[c] == Libufs.ImageOf(fs.groups[c])
  {
    hide FileSystem.Valid;
    disk := [];
    for c := 0 to |fs.groups|
      invariant |disk| == c && forall d :: 0 <= d < c ==> disk[d] == Libufs.ImageOf(fs.groups[d])
    {
      var g := fs.groups[c];
      disk := disk + [Libufs.ImageOf(g)];
    }
  }

  lemma AllSound(fs: FileSystem)
    requires fs.Valid()
    ensures |fs.groups| == fs.geo.ncg && fs.csNbfree.Length == fs.csNffree.Length == fs.geo.ncg
    ensures forall c :: 0 <= c < fs.geo.ncg ==> Libufs.Sound(fs.geo, c, Libufs.Of(Libufs.ImageOf(fs.groups[c])))
  {
    hide CylGroup.Valid, Libufs.Sound;
    ValidShape(fs);
    forall c | 0 <= c < fs.geo.ncg
      ensures Libufs.Sound(fs.geo, c, Libufs.Of(Libufs.ImageOf(fs.groups[c])))
    {
      GroupValid(fs, c);
      Libufs.ValidSound(fs.groups[c]);
    }
  }

  lemma FirstGroup(fs: FileSystem)
    requires fs.Valid()
    ensures |fs.groups| > 0 && Libufs.Of(Libufs.ImageOf(fs.groups[0])).nbfree == fs.groups[0].nbfree
  {
    hide CylGroup.Valid, Repr;
  }

  /** The disk of a filesystem in order, opened by libufs with its first group loaded. */
  method Open(fs: FileSystem) returns (d: Libufs.Uufsd)
    requires fs.Valid()
    ensures fresh(d) && fresh(d.blksfree) && fresh(d.clustersfree) && fresh(d.frsum) && fresh(d.clustersum)
    ensures fresh(d.csNbfree) && fresh(d.csNffree)
    ensures d.Shape() && d.geo == fs.geo && d.cgx == 0 && d.Loaded() == Libufs.Of(d.disk[0])
    ensures forall c :: 0 <= c < d.geo.ncg ==> Libufs.Sound(d.geo, c, Libufs.Of(d.disk[c]))
    ensures |fs.groups| > 0 && d.nbfree == fs.groups[0].nbfree
    ensures d.csNbfree[..] == fs.csNbfree[..] && d.csNffree[..] == fs.csNffree[..]
    ensures d.totNbfree == fs.nbfree && d.totNffree == fs.nffree
  {
    hide FileSystem.Valid, Libufs.Sound, Libufs.Of, Libufs.ImageOf, CylGroup.Valid, Repr, Geo.Wf;
    var disk := Images(fs);
    AllSound(fs);
    ValidShape(fs);
    FirstGroup(fs);
    forall c | 0 <= c < fs.geo.ncg
      ensures Libufs.Sized(fs.geo, c, Libufs.Of(disk[c]))
    {
      Libufs.SoundSizes(fs.geo, c, Libufs.Of(disk[c]));
    }
    d := new Libufs.Uufsd(fs.geo, disk, fs.csNbfree[..], fs.csNffree[..], seq(fs.geo.ncg, c => 0), fs.nbfree, fs.nffree);
  }

  /** newfs, and then cgballoc, a cgwrite or none, and cgbfree on its disk: with the write everything is as newfs left
      it; without, unless the group was full, the group counts one free block too many. */
  method NewfsAndLibufs(geo: Geo, write: bool) returns (d: Libufs.Uufsd, addr: nat, ghost before: Libufs.Cg)
    requires Layout(geo)
    ensures d.Shape() && d.geo == geo && d.totNbfree == SuperBlocks(geo) && d.totNffree == SuperFrags(geo)
    ensures Libufs.Sound(geo, 0, before) && before.nbfree == InitBlocks(geo, 0) && (addr == 0 <==> InitBlocks(geo, 0) == 0)
    ensures addr == 0 || write ==> d.Loaded() == before
    ensures addr != 0 && !write ==> d.nbfree == InitBlocks(geo, 0) + 1 && !Libufs.Sound(geo, 0, d.Loaded())
  {
    hide Layout, FileSystem.Valid, Libufs.Sound, SuperBlocks, SuperFrags, InitBlocks;
    var fs := MkFs(geo);
    d := Open(fs);
    before := d.Loaded();
    ghost var h, asked, found;
    addr, h, asked, found := Libufs.AllocFree(d, write);
  }
}
