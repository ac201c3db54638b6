// Creating a file in a directory (fat_filelib.c:365-391, 444-542): the name is
// looked up, a cluster taken, a short name chosen and the entry added;
// afterwards the name is found, with that cluster.
module FileCreate {
  import opened Bytes
  import opened FatWindows
  import opened FatEntries
  import opened FatTable
  import opened FileLayout
  import opened DirSlots
  import opened Directory
  import opened DirSearch
  import opened ShortNames
  import C = Chains
  import ChainRuns
  import Lfn
  import CompareNames
  import ShortForms

  // ------------------------------------------------------------ the table

  lemma TableIsRaw(g: Volume, t: FatType, flat: seq<Sector>)
    requires g.fatBegin <= g.fatEnd <= |flat|
    ensures C.Raw(t, Table(g, t, flat))
  {
    var f := Table(g, t, flat);
    forall c: nat | c < |f|
      ensures f[c] < (if t.Fat16? then 0x1_0000 else 0x1_0000_0000)
    {
      assert f[c] == Entry(g, t, flat, c);
    }
  }

  // A cluster taken for a file lies in no chain, and leaves every chain whole.
  lemma TakenApart(t: FatType, f: seq<nat>, b: nat, cs: seq<nat>)
    requires C.Raw(t, f) && C.Chain(t, f, cs) && b < |f| && IsBlank(t, f[b])
    ensures b !in cs && C.Chain(t, f[b := Cut(t, LAST_CLUSTER)], cs)
  {
    forall i | 0 <= i < |cs|
      ensures cs[i] != b
    {
      C.ChainIsUsed(t, f, cs, i);
    }
    C.ChainFramed(t, f, f[b := Cut(t, LAST_CLUSTER)], cs);
  }

  lemma TakenChain(t: FatType, f: seq<nat>, b: nat)
    requires 2 <= b < |f| && C.InRange(t, f)
    ensures C.Chain(t, f[b := Cut(t, LAST_CLUSTER)], [b]) && C.InRange(t, f[b := Cut(t, LAST_CLUSTER)])
  {
    C.LinkOfCut(t, b);
  }

  // Releasing a chain of one cluster clears its entry alone.
  lemma FreedOne(t: FatType, f: seq<nat>, b: nat)
    requires C.InRange(t, f) && 2 <= b < |f| && b != LAST_CLUSTER && Link(t, f[b]) == LAST_CLUSTER
    ensures C.Freed(t, f, b) == f[b := 0]
  {
    C.LeftFalls(t, f, b);
    C.InRangeKept(t, f, b);
  }

  // No blank entry is counted exactly when the search finds none.
  lemma NoneLeft(t: FatType, f: seq<nat>, root: nat)
    ensures C.Blanks(t, f, root, |f|) == 0 <==> C.FirstBlank(t, f, root) >= |f|
    ensures var b := C.FirstBlank(t, f, root); b < |f| ==>
              C.Blanks(t, f[b := Cut(t, LAST_CLUSTER)], root, |f|) == C.Blanks(t, f, root, |f|) - 1
  {
    var b := C.FirstBlank(t, f, root);
    if b < |f| {
      CutIsUsed(t);
      C.BlanksUsed(t, f, f[b := Cut(t, LAST_CLUSTER)], root, |f|, b);
    } else if C.Blanks(t, f, root, |f|) > 0 {
      C.BlankExists(t, f, root, |f|);
    }
  }

  lemma CutIsUsed(t: FatType)
    ensures !IsBlank(t, Cut(t, LAST_CLUSTER))
  {
    C.LinkOfCut(t, LAST_CLUSTER - 1);
    C.BlankLinks(t, Cut(t, LAST_CLUSTER));
  }

  lemma {:induction false} BlanksFurther(t: FatType, f: seq<nat>, lo: nat, mid: nat, hi: nat)
    requires mid <= hi <= |f|
    ensures C.Blanks(t, f, lo, mid) <= C.Blanks(t, f, lo, hi)
    decreases hi
  {
    if mid < hi { BlanksFurther(t, f, lo, mid, hi - 1); }
  }

  // A blank entry taken and given back leaves the count as it was.
  lemma GivenBack(t: FatType, f: seq<nat>, root: nat, b: nat)
    requires b < |f| && !IsBlank(t, f[b]) && root <= b
    ensures C.Blanks(t, f[b := 0], root, |f|) == C.Blanks(t, f, root, |f|) + 1
  {
    C.BlanksUsed(t, f[b := 0], f, root, |f|, b);
  }

  // Growing a chain by one cluster uses one blank entry up.
  lemma GrownByOne(t: FatType, f: seq<nat>, h: seq<nat>, root: nat, limit: nat, before: seq<nat>, after: seq<nat>)
    requires C.Chain(t, f, before) && C.Extended(t, f, h, root, before, after) && |after| == |before| + 1
    requires C.Room(t, f, root, limit, 1)
    ensures |h| == |f| && C.Blanks(t, h, root, |h|) == C.Blanks(t, f, root, |f|) - 1
  {
    var n: nat :| C.GrewBy(t, f, h, root, before, after, n);
    var tail := before[|before| - 1];
    C.ChainIsUsed(t, f, before, |before| - 1);
    var b := C.FirstBlank(t, f, root);
    C.GrowOne(t, f, root, limit, 1, tail);
    assert n == |after[|before|..]| == 1;
    C.GrowNothing(t, C.Linked(t, f, tail, b), root, b);
    assert h == C.Linked(t, f, tail, b);
    C.BlanksUsed(t, f, h, root, |f|, b);
  }

  // A chain does not grow on a table without a blank entry.
  lemma FullStays(t: FatType, f: seq<nat>, h: seq<nat>, root: nat, before: seq<nat>, after: seq<nat>)
    requires C.Extended(t, f, h, root, before, after) && C.FirstBlank(t, f, root) >= |f|
    ensures after == before && h == f
  {
    var n: nat :| C.GrewBy(t, f, h, root, before, after, n);
    assert after == before + after[|before|..];
    assert n == 0;
    C.GrowNothing(t, f, root, before[|before| - 1]);
  }

  // What growing the directory's chain leaves of the new file's.
  lemma StillChain(t: FatType, f: seq<nat>, h: seq<nat>, root: nat, limit: nat, before: seq<nat>, after: seq<nat>, b: nat)
    requires C.Chain(t, f, before) && C.Chain(t, f, [b]) && b !in before && |f| < LAST_CLUSTER && C.InRange(t, f)
    requires C.Extended(t, f, h, root, before, after) && |after| <= |before| + 1
    requires after == before || C.Room(t, f, root, limit, 1)
    requires 2 < |f| && !IsBlank(t, f[0]) && !IsBlank(t, f[1])
    ensures |h| == |f| && C.Chain(t, h, after) && C.Chain(t, h, [b]) && b !in after && C.InRange(t, h)
    ensures !IsBlank(t, h[0]) && !IsBlank(t, h[1])
    ensures C.Blanks(t, h, root, |h|) == C.Blanks(t, f, root, |f|) - (|after| - |before|)
  {
    var n: nat :| C.GrewBy(t, f, h, root, before, after, n);
    ChainRuns.GrowInRange(t, f, root, before[|before| - 1], n);
    if after == before {
      assert after[|before|..] == [];
      C.GrowNothing(t, f, root, before[|before| - 1]);
      assert n == 0;
    } else {
      GrownByOne(t, f, h, root, limit, before, after);
      C.ChainIsUsed(t, f, before, |before| - 1);
      C.GrowLeavesRoom(t, f, root, limit, before[|before| - 1], n, 1);
      assert C.Disjoint(before, [b]);
      assert C.Family(t, f, [before, [b]]);
      C.FamilyAfter(t, f, h, root, limit, [before, [b]], 0, after, 1);
      assert [before, [b]][0 := after] == [after, [b]];
      assert C.Disjoint([after, [b]][0], [after, [b]][1]);
    }
  }

  // ------------------------------------------------------------ the directory meanwhile

  // The volume under a directory, as creating a file needs it: the reserved
  // entries are used and every link lies in the table.
  ghost predicate Sane(dir: Dir)
    reads dir`chain, dir.fs`flat, dir.fs`disk, dir.fs`views, dir.fs`nextFree, dir.fs, dir.fs.list
  {
    && dir.fs.Poised() && dir.fs.g.fatBegin <= dir.fs.g.fatEnd <= |dir.fs.flat|
    && 2 < |dir.fs.Fat()| < LAST_CLUSTER && C.InRange(dir.fs.fatType, dir.fs.Fat())
    && !IsBlank(dir.fs.fatType, dir.fs.Fat()[0]) && !IsBlank(dir.fs.fatType, dir.fs.Fat()[1])
  }

  // A cluster is a chain of its own, apart from the directory's.
  ghost predicate Taken(dir: Dir, start: nat)
    reads dir`chain, dir.fs`flat
  {
    && dir.fs.g.fatBegin <= dir.fs.g.fatEnd <= |dir.fs.flat| && 2 <= start < |dir.fs.Fat()|
    && C.Chain(dir.fs.fatType, dir.fs.Fat(), [start]) && (dir.InRoot() || start !in dir.chain)
  }

  lemma FirstBlankIsFile(t: FatType, f: seq<nat>, root: nat)
    requires 2 < |f| && !IsBlank(t, f[0]) && !IsBlank(t, f[1])
    ensures var b := C.FirstBlank(t, f, root); b < |f| ==> 2 <= b && IsBlank(t, f[b])
  {
  }

  lemma StillLaid(l: Layout, t: FatType, f: seq<nat>, chain: seq<nat>, first: nat, b: nat)
    requires Laid(l, t, f, chain, first, INVALID, 0) && C.Raw(t, f) && b < |f| && IsBlank(t, f[b])
    ensures Laid(l, t, f[b := Cut(t, LAST_CLUSTER)], chain, first, INVALID, 0) && b !in chain
  {
    TakenApart(t, f, b, chain);
  }

  // The first cluster of a new file.
  method StartFile(dir: Dir) returns (ok: bool, start: nat)
    requires dir.Valid() && Sane(dir)
    modifies dir.fs`head, dir.fs`disk, dir.fs`list, dir.fs`views, dir.fs`flat, dir.fs`nextFree, dir.fs.buffers
    ensures dir.Valid() && Sane(dir) && dir.AllSlots() == old(dir.AllSlots()) && SameData(dir.fs.g, old(dir.fs.disk), dir.fs.disk)
    ensures ok ==> Taken(dir, start)
    ensures ok <==> C.FirstBlank(dir.fs.fatType, old(dir.fs.Fat()), dir.fs.rootCluster) < |old(dir.fs.Fat())|
    ensures ok ==> start == C.FirstBlank(dir.fs.fatType, old(dir.fs.Fat()), dir.fs.rootCluster)
    ensures dir.fs.Fat() == if ok then old(dir.fs.Fat())[start := Cut(dir.fs.fatType, LAST_CLUSTER)] else old(dir.fs.Fat())
  {
    hide FatFs.Valid, Settled, Table, SameData, OnDisk, Below, Slots, Sound, IsBlank, C.FirstBlank, FatEntries.Cut;
    hide Laid, C.InRange;
    hide FatFs.Spare, C.Chain;
    dir.Opened();
    ghost var t, f := dir.fs.fatType, dir.fs.Fat();
    FirstBlankIsFile(t, f, dir.fs.rootCluster);
    TableIsRaw(dir.fs.g, t, dir.fs.flat);
    SameDataSame(dir.fs.g, dir.fs.disk);
    ok, start := dir.fs.StartChain();
    SameDataLength(dir.fs.g, old(dir.fs.disk), dir.fs.disk);
    if ok {
      TakenChain(t, f, start);
      if !dir.InRoot() {
        StillLaid(dir.l, t, f, dir.chain, dir.start, start);
      }
      NotReserved(t, f, start);
    }
    OnDiskFramed(dir.l, dir.fs.g, old(dir.fs.disk), dir.fs.disk, dir.chain);
    FreshFramed(dir.fs.g, old(dir.fs.disk), dir.fs.disk, dir.address, dir.sector);
  }

  lemma NotReserved(t: FatType, f: seq<nat>, b: nat)
    requires 2 <= b < |f|
    ensures var h := f[b := Cut(t, LAST_CLUSTER)]; h[0] == f[0] && h[1] == f[1]
  {
  }

  // The cluster goes back.
  method DropFile(dir: Dir, start: nat)
    requires dir.Valid() && Sane(dir) && Taken(dir, start)
    modifies dir.fs`head, dir.fs`disk, dir.fs`list, dir.fs`views, dir.fs`flat, dir.fs.buffers
    ensures dir.Valid() && Sane(dir) && dir.AllSlots() == old(dir.AllSlots()) && SameData(dir.fs.g, old(dir.fs.disk), dir.fs.disk)
    ensures dir.fs.Fat() == old(dir.fs.Fat())[start := 0]
    ensures dir.fs.rootCluster <= start ==> Left(dir) == old(Left(dir)) + 1
  {
    hide C.Blanks;
    hide FatFs.Valid, Settled, Table, SameData, SameOutside, OnDisk, Below, Slots, Sound, IsBlank, Laid, C.InRange;
    hide FatFs.Spare, C.Chain;
    dir.Opened();
    ghost var t, f := dir.fs.fatType, dir.fs.Fat();
    LastIs(t, f, start);
    FreedOne(t, f, start);
    TableIsRaw(dir.fs.g, t, dir.fs.flat);
    Given(t, f, dir.fs.rootCluster, start);
    dir.fs.FreeClusterChain(start);
    SameOutsideIsSameData(dir.fs.g, old(dir.fs.disk), dir.fs.disk);
    SameDataLength(dir.fs.g, old(dir.fs.disk), dir.fs.disk);
    C.InRangeKept(t, f, start);
    if !dir.InRoot() {
      StillLaidWithout(dir.l, t, f, dir.chain, dir.start, start);
    }
    OnDiskFramed(dir.l, dir.fs.g, old(dir.fs.disk), dir.fs.disk, dir.chain);
    FreshFramed(dir.fs.g, old(dir.fs.disk), dir.fs.disk, dir.address, dir.sector);
  }

  lemma Given(t: FatType, f: seq<nat>, root: nat, b: nat)
    requires C.Raw(t, f) && C.Chain(t, f, [b]) && b < |f|
    ensures root <= b ==> C.Blanks(t, f[b := 0], root, |f|) == C.Blanks(t, f, root, |f|) + 1
  {
    C.ChainIsUsed(t, f, [b], 0);
    if root <= b {
      GivenBack(t, f, root, b);
    }
  }

  lemma LastIs(t: FatType, f: seq<nat>, b: nat)
    requires C.Chain(t, f, [b])
    ensures b < |f| && Link(t, f[b]) == LAST_CLUSTER
  {
    assert [b][|[b]| - 1] == b;
  }

  lemma StillLaidWithout(l: Layout, t: FatType, f: seq<nat>, chain: seq<nat>, first: nat, b: nat)
    requires Laid(l, t, f, chain, first, INVALID, 0) && b < |f| && b !in chain
    ensures Laid(l, t, f[b := 0], chain, first, INVALID, 0)
  {
    C.ChainFramed(t, f, f[b := 0], chain);
  }

  // fatfs_fat_purge.
  method PurgeFile(dir: Dir)
    requires dir.Valid() && Sane(dir)
    modifies dir.fs`disk, dir.fs`views, dir.fs.buffers`dirty
    ensures dir.Valid() && Sane(dir) && dir.AllSlots() == old(dir.AllSlots()) && dir.fs.disk == dir.fs.flat
  {
    hide FatFs.Valid, Settled, Table, SameData, SameOutside, OnDisk, Below, Slots, Sound, IsBlank, Laid, C.InRange;
    hide FatFs.Spare;
    dir.Opened();
    dir.fs.Purge();
    SameOutsideIsSameData(dir.fs.g, old(dir.fs.disk), dir.fs.disk);
    SameDataLength(dir.fs.g, old(dir.fs.disk), dir.fs.disk);
    OnDiskFramed(dir.l, dir.fs.g, old(dir.fs.disk), dir.fs.disk, dir.chain);
    FreshFramed(dir.fs.g, old(dir.fs.disk), dir.fs.disk, dir.address, dir.sector);
  }

  // ------------------------------------------------------------ the entry

  // The blank entries from the root cluster on.
  ghost function Left(dir: Dir): nat
    requires dir.fs.g.fatBegin <= dir.fs.g.fatEnd <= |dir.fs.flat|
    reads dir.fs`flat
  {
    C.Blanks(dir.fs.fatType, dir.fs.Fat(), dir.fs.rootCluster, |dir.fs.Fat()|)
  }

  // Whether the directory takes a file's entry is decided by the slots it has,
  // or by n blank entries of the volume being left or not.
  ghost predicate Ready(dir: Dir, name: seq<byte>, n: nat)
    requires FileLayout.Fits(dir.l, dir.fs.g, dir.fs.disk) && Below(dir.l, dir.chain)
    requires dir.fs.g.fatBegin <= dir.fs.g.fatEnd <= |dir.fs.flat|
    reads dir`chain, dir.fs`disk, dir.fs`flat
  {
    || Fit(dir.AllSlots(), Lfn.EntriesRequired(|name|) + 1, |dir.AllSlots()|) || Left(dir) < n
    || (!dir.InRoot() && C.Room(dir.fs.fatType, dir.fs.Fat(), dir.fs.rootCluster, dir.l.limit, n))
  }

  // The slots the directory has hold the entry, or with a cluster more of n
  // blank entries left.
  ghost predicate Takes(dir: Dir, name: seq<byte>, n: nat)
    requires FileLayout.Fits(dir.l, dir.fs.g, dir.fs.disk) && Below(dir.l, dir.chain)
    requires dir.fs.g.fatBegin <= dir.fs.g.fatEnd <= |dir.fs.flat|
    reads dir`chain, dir.fs`disk, dir.fs`flat
  {
    && Holdable(dir.AllSlots(), dir.l.spc, Lfn.EntriesRequired(|name|) + 1)
    && (Fit(dir.AllSlots(), Lfn.EntriesRequired(|name|) + 1, |dir.AllSlots()|) || Left(dir) >= n)
  }

  // Taking one cluster of two leaves one.
  lemma OneOfTwo(t: FatType, f: seq<nat>, root: nat, limit: nat, b: nat)
    requires b == C.FirstBlank(t, f, root) && b < |f|
    ensures var h := f[b := Cut(t, LAST_CLUSTER)];
            && C.Blanks(t, h, root, |h|) == C.Blanks(t, f, root, |f|) - 1
            && (C.Room(t, f, root, limit, 2) ==> C.Room(t, h, root, limit, 1))
  {
    NoneLeft(t, f, root);
    if C.Room(t, f, root, limit, 2) {
      C.BlankExists(t, f, root, limit);
      CutIsUsed(t);
      C.BlanksUsed(t, f, f[b := Cut(t, LAST_CLUSTER)], root, limit, b);
    }
  }

  // The entry of a new file of one cluster, which keeps its chain.
  method AddEntry(dir: Dir, name: seq<byte>, shortName: seq<byte>, start: nat, buffer: array<byte>)
    returns (ok: bool, ghost long: seq<Slot>)
    requires dir.Valid() && Sane(dir) && Taken(dir, start) && Lfn.Name(name) && |shortName| == FULL && buffer.Length == SLOT
    requires Ready(dir, name, 1)
    modifies dir`chain, dir`address, dir`sector
    modifies dir.fs`head, dir.fs`disk, dir.fs`list, dir.fs`views, dir.fs`flat, dir.fs.buffers, buffer
    ensures dir.Valid() && Sane(dir) && Taken(dir, start)
    ensures ok <==> old(Takes(dir, name, 1))
    ensures ok ==> |long| == Lfn.EntriesRequired(|name|) && LongSlots(long, name, Checksum(shortName), |long|)
    ensures ok ==> NewEntryIn(old(dir.AllSlots()), dir.AllSlots(), long, ShortEntry(shortName, start, 0, false))
    ensures !ok ==> Listing(dir.AllSlots(), []) == old(Listing(dir.AllSlots(), []))
    ensures old(dir.chain) <= dir.chain && Left(dir) == old(Left(dir)) - (|dir.chain| - |old(dir.chain)|)
  {
    dir.Opened();
    Entering(dir, name, start);
    hide *;
    ghost var f, before := dir.fs.Fat(), dir.chain;
    ghost var lines, rest;
    ok, long, lines, rest := dir.AddFileEntry(name, shortName, start, 0, false, buffer);
    Entered(dir, old(dir.fs.disk), f, before, start);
  }

  // What adding the entry needs, taken apart.
  lemma Entering(dir: Dir, name: seq<byte>, start: nat)
    requires dir.Valid() && Sane(dir) && Taken(dir, start) && Lfn.Name(name) && Ready(dir, name, 1)
    ensures var n := Lfn.EntriesRequired(|name|) + 1;
            && dir.fs.Poised() && name != [] && dir.Placeable(n)
            && (dir.Extensible(n) && Holdable(dir.AllSlots(), dir.l.spc, n) <==> Takes(dir, name, 1))
    ensures dir.fs.g.fatBegin <= dir.fs.g.fatEnd <= |dir.fs.flat|
    ensures var t, f := dir.fs.fatType, dir.fs.Fat();
            && 2 < |f| < LAST_CLUSTER && C.InRange(t, f) && !IsBlank(t, f[0]) && !IsBlank(t, f[1])
            && 2 <= start < |f| && start < RANGE && C.Chain(t, f, [start])
            && (!dir.InRoot() ==> C.Chain(t, f, dir.chain) && start !in dir.chain)
            && (dir.InRoot() ==> dir.chain == [2])
            && (Fit(dir.AllSlots(), Lfn.EntriesRequired(|name|) + 1, |dir.AllSlots()|)
                || C.FirstBlank(t, f, dir.fs.rootCluster) >= |f|
                || C.Room(t, f, dir.fs.rootCluster, dir.l.limit, 1))
  {
    dir.Opened();
    NoneLeft(dir.fs.fatType, dir.fs.Fat(), dir.fs.rootCluster);
    dir.fs.StaysScannable(dir.fs.rootCluster);
    hide Fit, C.FirstBlank, C.Blanks, Holdable, C.Room, Table, Settled, FatFs.Scannable, Laid, Lfn.EntriesRequired;
    hide Slots, OnDisk;
  }

  // The directory's table when its chain has not grown.
  lemma NotGrown(t: FatType, f: seq<nat>, h: seq<nat>, root: nat, chain: seq<nat>)
    requires C.Extended(t, f, h, root, chain, chain)
    ensures h == f
  {
    var n: nat :| C.GrewBy(t, f, h, root, chain, chain, n);
    assert chain[|chain|..] == [];
    C.GrowNothing(t, f, root, chain[|chain| - 1]);
  }

  // The volume is sane, and the file's cluster a chain, after the entry.
  lemma Entered(dir: Dir, d: seq<Sector>, f: seq<nat>, before: seq<nat>, start: nat)
    requires dir.Valid() && dir.fs.Poised() && dir.Grew(d, f, before) && before <= dir.chain && |dir.chain| <= |before| + 1
    requires 2 < |f| < LAST_CLUSTER && C.InRange(dir.fs.fatType, f)
    requires !IsBlank(dir.fs.fatType, f[0]) && !IsBlank(dir.fs.fatType, f[1])
    requires 2 <= start < |f| && C.Chain(dir.fs.fatType, f, [start])
    requires dir.InRoot() ==> before == [2]
    requires !dir.InRoot() ==> C.Chain(dir.fs.fatType, f, before) && start !in before
    requires dir.chain == before || C.FirstBlank(dir.fs.fatType, f, dir.fs.rootCluster) >= |f|
             || C.Room(dir.fs.fatType, f, dir.fs.rootCluster, dir.l.limit, 1)
    ensures Sane(dir) && Taken(dir, start)
    ensures Left(dir) == C.Blanks(dir.fs.fatType, f, dir.fs.rootCluster, |f|) - (|dir.chain| - |before|)
  {
    var t, root := dir.fs.fatType, dir.fs.rootCluster;
    dir.Opened();
    if dir.InRoot() {
      NotGrown(t, f, dir.fs.Fat(), root, before);
    } else {
      if C.FirstBlank(t, f, root) >= |f| {
        FullStays(t, f, dir.fs.Fat(), root, before, dir.chain);
      }
      StillChain(t, f, dir.fs.Fat(), root, dir.l.limit, before, dir.chain, start);
    }
  }

  // ------------------------------------------------------------ the file

  lemma NameIsText(name: seq<byte>)
    requires Lfn.Name(name)
    ensures CompareNames.Text(name)
  {
  }

  // StartFile's cluster is one of those counted.
  method StartCounted(dir: Dir, ghost name: seq<byte>) returns (ok: bool, start: nat)
    requires dir.Valid() && Sane(dir) && Ready(dir, name, 2)
    modifies dir.fs`head, dir.fs`disk, dir.fs`list, dir.fs`views, dir.fs`flat, dir.fs`nextFree, dir.fs.buffers
    ensures dir.Valid() && Sane(dir) && dir.AllSlots() == old(dir.AllSlots()) && SameData(dir.fs.g, old(dir.fs.disk), dir.fs.disk)
    ensures ok <==> old(Left(dir)) > 0
    ensures ok ==> Taken(dir, start) && dir.fs.rootCluster <= start && Ready(dir, name, 1)
    ensures ok ==> (Takes(dir, name, 1) <==> old(Takes(dir, name, 2)))
    ensures Left(dir) == old(Left(dir)) - (if ok then 1 else 0)
  {
    hide Dir.Valid, OnDisk, Slots, Fit, C.Room, C.Blanks, C.FirstBlank, Table, Holdable, Lfn.EntriesRequired;
    hide SameData, Below, FatFs.Poised, IsBlank, C.InRange, FatEntries.Cut;
    ghost var t, f, root := dir.fs.fatType, dir.fs.Fat(), dir.fs.rootCluster;
    NoneLeft(t, f, root);
    ok, start := StartFile(dir);
    if ok {
      OneOfTwo(t, f, root, dir.l.limit, start);
      FirstFrom(t, f, root);
    }
  }

  lemma FirstFrom(t: FatType, f: seq<nat>, root: nat)
    ensures var b := C.FirstBlank(t, f, root); b < |f| ==> root <= b
  {
  }

  // fatfs_entry_is_file, and the fields that _open_file reads.
  predicate IsFile(s: Slot) {
    s[11] / 0x20 % 2 == 1
  }

  function StartOf(s: Slot): nat {
    Get16(s, 20) * 0x1_0000 + Get16(s, 26)
  }

  function LengthOf(s: Slot): nat {
    Get32(s, 28)
  }

  // The entry of an empty file that starts at a cluster.
  predicate NewFile(short: Slot, start: nat) {
    IsFile(short) && StartOf(short) == start && LengthOf(short) == 0
  }

  lemma TakenInRange(dir: Dir, start: nat)
    requires Sane(dir) && Taken(dir, start)
    ensures start < RANGE
  {
  }

  // The short name written is that of the entry, which no entry had before.
  lemma EntryUnique(was: seq<Slot>, now: seq<Slot>, long: seq<Slot>, shortName: seq<byte>, start: nat, name: seq<byte>)
    requires |shortName| == FULL && start < RANGE && Lfn.CString(shortName) !in Names(was)
    requires |long| == Lfn.EntriesRequired(|name|) && LongSlots(long, name, Checksum(shortName), |long|)
    requires NewEntryIn(was, now, long, ShortEntry(shortName, start, 0, false))
    ensures shortName[0] != BLANK && shortName[0] != DELETED ==> Lfn.CString(shortName) in Names(now)
    ensures ShortForms.Unique(was) ==> ShortForms.Unique(now)
  {
    ShortEntryReads(shortName, start, 0, false);
    ShortEntryHead(shortName, start, 0, false);
    LongSlotsAreLong(long, name, Checksum(shortName), |long|);
    hide ShortEntry, LfnText, DirSlots.Shown, NewEntryIn, LongSlots, Names, ShortForms.Unique, Lfn.CString, Checksum;
    ShortForms.StillUnique(was, now, long, ShortEntry(shortName, start, 0, false));
  }

  lemma EntryFound(was: seq<Slot>, now: seq<Slot>, long: seq<Slot>, shortName: seq<byte>, start: nat, name: seq<byte>)
    requires Lfn.Name(name) && |shortName| == FULL && start < RANGE && Found(was, name) == CompareNames.None
    requires |long| == Lfn.EntriesRequired(|name|) && LongSlots(long, name, Checksum(shortName), |long|)
    requires NewEntryIn(was, now, long, ShortEntry(shortName, start, 0, false))
    ensures NewFile(ShortEntry(shortName, start, 0, false), start)
    ensures
      && shortName[0] != BLANK && shortName[0] != DELETED
      && CompareNames.NormalForm(Lfn.Spaced(name)) == CompareNames.NormalForm(name)
      ==> Found(now, name) == CompareNames.Some(ShortEntry(shortName, start, 0, false))
  {
    ShortEntryReads(shortName, start, 0, false);
    ShortEntryHead(shortName, start, 0, false);
    var short := ShortEntry(shortName, start, 0, false);
    ShownIsTheRest(short);
    hide ShortEntry, LfnText, Invalid, DirSlots.Shown, FindIn, NewEntryIn, LongSlots, CompareNames.NormalForm;
    hide Lfn.Name, Lfn.EntriesRequired;
    hide Checksum;
    if shortName[0] != BLANK && shortName[0] != DELETED
       && CompareNames.NormalForm(Lfn.Spaced(name)) == CompareNames.NormalForm(name) {
      AddedIsFound(was, now, long, short, Wiped(), name, Checksum(shortName));
    }
  }

  // The short name is chosen and the entry added, or the cluster goes back.
  method EnterFile(dir: Dir, name: seq<byte>, start: nat, base: array<byte>, output: array<byte>, buffer: array<byte>)
    returns (ok: bool, ghost long: seq<Slot>)
    requires dir.Valid() && Sane(dir) && Taken(dir, start) && dir.fs.rootCluster <= start && Lfn.Name(name) && Ready(dir, name, 1)
    requires base.Length == FULL && output.Length == FULL && base != output && buffer.Length == SLOT && buffer != output
    modifies dir`chain, dir`address, dir`sector
    modifies dir.fs`head, dir.fs`disk, dir.fs`list, dir.fs`views, dir.fs`flat, dir.fs.buffers, base, output, buffer
    ensures dir.Valid() && Sane(dir) && old(dir.chain) <= dir.chain
    ensures ok <==> !AllHeld(BaseOf(name, old(base[..])), Names(old(dir.AllSlots()))) && old(Takes(dir, name, 1))
    ensures ok ==> Taken(dir, start)
    ensures ok ==> |long| == Lfn.EntriesRequired(|name|) && LongSlots(long, name, Checksum(output[..]), |long|)
    ensures ok ==> NewEntryIn(old(dir.AllSlots()), dir.AllSlots(), long, ShortEntry(output[..], start, 0, false))
    ensures ok ==> Lfn.CString(output[..]) !in Names(old(dir.AllSlots()))
    ensures old(ShortForms.Unique(dir.AllSlots())) ==> ShortForms.Unique(dir.AllSlots())
    ensures ok && output[0] != BLANK && output[0] != DELETED ==> Lfn.CString(output[..]) in Names(dir.AllSlots())
    ensures !ok ==> Listing(dir.AllSlots(), []) == old(Listing(dir.AllSlots(), []))
    ensures Left(dir) == old(Left(dir)) + (if ok then 0 else 1) - (|dir.chain| - |old(dir.chain)|)
  {
    hide Dir.Open, Fresh, OnDisk, Slots, Fits, Below, SameData, Fit, C.Room, C.Blanks, Table, Listing, Taken, Holdable;
    hide Lfn.Name, Lfn.EntriesRequired, LongSlots, NewEntryIn, ShortEntry, Checksum, AllHeld, BaseOf, Names;
    hide FatFs.Poised, C.InRange, IsBlank, Candidate, Lfn.CString, Compared, FirstTelling, CompareNames.Text;
    hide ShortForms.Unique;
    NameIsText(name);
    dir.Opened();
    ghost var was := dir.AllSlots();
    long := [];
    ghost var tailNum, b;
    ok, tailNum, b := ChooseShortName(dir, name, base, output);
    if ok {
      dir.Opened();
      ok, long := AddEntry(dir, name, output[..], start, buffer);
      dir.Opened();
      if ok {
        TakenInRange(dir, start);
        EntryUnique(was, dir.AllSlots(), long, output[..], start, name);
      }
    }
    if !ok {
      DropFile(dir, start);
      dir.Opened();
      ShortForms.SameUnique(was, dir.AllSlots());
    }
  }

  // _create_file from the look-up on: it succeeds exactly when the name is not
  // there, a cluster and a short name are free and the directory takes the
  // entry. The name is then found, with that cluster; otherwise the directory
  // lists what it did and the cluster is blank again.
  method CreateFile(dir: Dir, name: seq<byte>, cache: Lfn.LfnCache, base: array<byte>, output: array<byte>, buffer: array<byte>)
    returns (ok: bool, start: nat, ghost short: Slot)
    requires dir.Valid() && Sane(dir) && cache.Valid() && Lfn.Name(name) && Ready(dir, name, 2)
    requires base.Length == FULL && output.Length == FULL && base != output && buffer.Length == SLOT && buffer != output
    modifies dir`chain, dir`address, dir`sector
    modifies dir.fs`head, dir.fs`disk, dir.fs`list, dir.fs`views, dir.fs`flat, dir.fs`nextFree, dir.fs.buffers
    modifies cache, cache.text, base, output, buffer
    ensures dir.Valid() && Sane(dir) && cache.Valid() && old(dir.chain) <= dir.chain
    ensures ok <==>
              && old(Found(dir.AllSlots(), name)) == CompareNames.None && old(Left(dir)) > 0
              && !AllHeld(BaseOf(name, old(base[..])), Names(old(dir.AllSlots()))) && old(Takes(dir, name, 2))
    ensures ok ==> Taken(dir, start) && dir.fs.disk == dir.fs.flat && NewFile(short, start)
    ensures ok && output[0] != BLANK && output[0] != DELETED
            && CompareNames.NormalForm(Lfn.Spaced(name)) == CompareNames.NormalForm(name)
            ==> Found(dir.AllSlots(), name) == CompareNames.Some(short)
    ensures ok ==> short[..FULL] == output[..] && Lfn.CString(output[..]) !in Names(old(dir.AllSlots()))
    ensures ok && output[0] != BLANK && output[0] != DELETED ==> Lfn.CString(output[..]) in Names(dir.AllSlots())
    ensures old(ShortForms.Unique(dir.AllSlots())) ==> ShortForms.Unique(dir.AllSlots())
    ensures !ok ==> Listing(dir.AllSlots(), []) == old(Listing(dir.AllSlots(), []))
    ensures Left(dir) == old(Left(dir)) - (if ok then 1 else 0) - (|dir.chain| - |old(dir.chain)|)
  {
    hide Dir.Open, Fresh, OnDisk, Slots, Fits, Below, SameData, Fit, C.Room, C.Blanks, Table, Listing, Taken, Holdable;
    hide Lfn.Name, Lfn.EntriesRequired, LongSlots, NewEntryIn, ShortEntry, Checksum, NewFile, FindIn, AllHeld;
    hide BaseOf, Names;
    hide FatFs.Poised, C.InRange, IsBlank, CompareNames.NormalForm, CompareNames.Text, ShortForms.Unique, Lfn.CString;
    NameIsText(name);
    dir.Opened();
    ghost var was := dir.AllSlots();
    short := seq(SLOT, _ => 0);
    ok, start := false, 0;
    var found := GetFileEntry(dir, name, cache);
    if found.Some? {
      return;
    }
    dir.Opened();
    ok, start := StartCounted(dir, name);
    if !ok {
      return;
    }
    ghost var long;
    ok, long := EnterFile(dir, name, start, base, output, buffer);
    if ok {
      dir.Opened();
      TakenInRange(dir, start);
      short := ShortEntry(output[..], start, 0, false);
      EntryFound(was, dir.AllSlots(), long, output[..], start, name);
      ShortEntryHead(output[..], start, 0, false);
      PurgeFile(dir);
    }
  }

  // _open_file from the look-up on.
  method OpenFile(dir: Dir, name: seq<byte>, cache: Lfn.LfnCache) returns (ok: bool, start: nat, length: nat)
    requires dir.Valid() && Sane(dir) && cache.Valid() && CompareNames.Text(name)
    modifies dir`address, dir`sector, dir.fs`head, dir.fs`disk, dir.fs`list, dir.fs`views, dir.fs.buffers, cache, cache.text
    ensures dir.Valid() && Sane(dir) && dir.AllSlots() == old(dir.AllSlots()) && dir.fs.flat == old(dir.fs.flat)
    ensures ok <==> Found(dir.AllSlots(), name).Some? && IsFile(Found(dir.AllSlots(), name).value)
    ensures ok ==> start == StartOf(Found(dir.AllSlots(), name).value) && length == LengthOf(Found(dir.AllSlots(), name).value)
    ensures ok ==> dir.fs.disk == dir.fs.flat
  {
    hide Dir.Open, Fresh, OnDisk, Slots, Fits, Below, SameData, Table, FindIn, Get16, Get32;
    hide FatFs.Poised, C.InRange, IsBlank, CompareNames.NormalForm, CompareNames.Text;
    dir.Opened();
    ok, start, length := false, 0, 0;
    var found := GetFileEntry(dir, name, cache);
    if found.Some? {
      if IsFile(found.value) {
        ok, start, length := true, StartOf(found.value), LengthOf(found.value);
        PurgeFile(dir);
      }
    }
    dir.Opened();
  }

  // A file just created opens, empty, at the cluster taken for it, unless its
  // entry is marked free or the spaces put for its padding bytes tell.
  method CreateThenOpen(dir: Dir, name: seq<byte>, cache: Lfn.LfnCache, base: array<byte>, output: array<byte>, buffer: array<byte>)
    returns (created: bool, reopened: bool, ghost start: nat, cluster: nat, length: nat)
    requires dir.Valid() && Sane(dir) && cache.Valid() && Lfn.Name(name) && Ready(dir, name, 2)
    requires base.Length == FULL && output.Length == FULL && base != output && buffer.Length == SLOT && buffer != output
    modifies dir`chain, dir`address, dir`sector
    modifies dir.fs`head, dir.fs`disk, dir.fs`list, dir.fs`views, dir.fs`flat, dir.fs`nextFree, dir.fs.buffers
    modifies cache, cache.text, base, output, buffer
    ensures created && output[0] != BLANK && output[0] != DELETED
            && CompareNames.NormalForm(Lfn.Spaced(name)) == CompareNames.NormalForm(name)
            ==> reopened && cluster == start && length == 0 && Taken(dir, start)
  {
    hide Dir.Valid, Sane, Taken, FindIn, IsFile, StartOf, LengthOf, CompareNames.NormalForm, CompareNames.Text;
    hide Ready, Takes;
    NameIsText(name);
    var first;
    ghost var short;
    created, first, short := CreateFile(dir, name, cache, base, output, buffer);
    start := first;
    reopened, cluster, length := OpenFile(dir, name, cache);
  }
}
