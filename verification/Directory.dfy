// Adding an entry to a directory (fat_write.c:130-372; fat_access.c:220-269,
// 329-382), over the cluster chain that holds its sectors.
module Directory {
  import opened Arith
  import opened Bytes
  import opened Sequences
  import opened FatWindows
  import opened FatEntries
  import opened FatTable
  import opened FileLayout
  import opened DirSlots
  import C = Chains
  import Lfn

  // The working sector is the disk's copy of the sector it names.
  predicate Fresh(g: Volume, disk: seq<Sector>, address: nat, sector: Sector) {
    address == INVALID || (g.fatEnd <= address < |disk| && disk[address] == sector)
  }

  lemma ManyEntries(g: Volume, t: FatType)
    requires g.fatBegin < g.fatEnd
    ensures 2 < Count(g, t)
  {
    MulMonotone(1, g.fatEnd - g.fatBegin, PerSector(t));
  }

  // Sector offset of a directory that is one cluster.
  lemma InOneCluster(l: Layout, offset: nat)
    requires l.spc > 0 && offset <= Capacity(l, 1)
    ensures Capacity(l, 1) == l.spc && (offset < l.spc ==> Index(l, offset) == 0 && Within(l, offset) == offset)
    ensures Lba(l, 2, offset) == l.dataBegin + offset
  {
  }

  lemma FreshFramed(g: Volume, disk: seq<Sector>, e: seq<Sector>, address: nat, sector: Sector)
    requires Fresh(g, disk, address, sector) && SameData(g, disk, e)
    ensures Fresh(g, e, address, sector)
  {
    if address != INVALID {
      assert disk[address] == disk[g.fatEnd..][address - g.fatEnd] && e[address] == e[g.fatEnd..][address - g.fatEnd];
    }
  }

  // A directory that starts at a cluster, with the file system's working
  // sector (currentsector). The FAT16 root has a place of its own: l then gives
  // it as one cluster, number 2, of as many sectors as it has.
  class Dir {
    const fs: FatFs
    const l: Layout
    const start: nat
    var address: nat
    var sector: Sector
    ghost var chain: seq<nat>

    constructor (fs: FatFs, l: Layout, start: nat, ghost chain: seq<nat>)
      ensures this.fs == fs && this.l == l && this.start == start && this.chain == chain && address == INVALID
    {
      this.fs, this.l, this.start, this.chain := fs, l, start, chain;
      address, sector := INVALID, Blank();
    }

    ghost predicate Open()
      reads this`chain, fs, fs.list
    {
      && fs.Valid() && |fs.flat| == |fs.disk| < INVALID && fs.g.fatBegin < fs.g.fatEnd <= |fs.flat|
      && Fits(l, fs.g, fs.disk) && Below(l, chain)
      && if InRoot() then chain == [2] else OnChain()
    }

    // The test of fatfs_sector_reader.
    predicate InRoot() {
      fs.fatType.Fat16? && start == 0
    }

    ghost predicate OnChain()
      reads this`chain, fs`disk, fs`views, fs`flat
      requires fs.g.fatBegin <= fs.g.fatEnd <= |fs.flat|
    {
      && Settled(fs.g, fs.views) && Sound(l, fs.g, fs.fatType, |fs.disk|)
      && Laid(l, fs.fatType, fs.Fat(), chain, start, INVALID, 0)
    }

    ghost predicate Valid()
      reads this, fs, fs.list
    {
      Open() && Fresh(fs.g, fs.disk, address, sector)
    }

    lemma Opened()
      requires Open()
      ensures 0 < |chain| < LAST_CLUSTER && (!InRoot() ==> chain[0] == start)
      ensures fs.g.fatBegin <= fs.g.fatEnd <= |fs.flat| == |fs.disk|
      ensures l.spc > 0 && Fits(l, fs.g, fs.disk) && Below(l, chain) && (!InRoot() ==> |fs.Fat()| < LAST_CLUSTER)
      ensures forall i | 0 <= i < |chain| :: 2 <= chain[i] < |fs.Fat()|
      ensures C.NoRepeats(chain) && (InRoot() ==> chain == [2])
    {
      if InRoot() {
        ManyEntries(fs.g, fs.fatType);
      } else {
        LaidStart(l, fs.fatType, fs.Fat(), chain, start, INVALID, 0);
      }
    }

    lemma OpenedOnChain()
      requires Open() && !InRoot()
      ensures fs.Steady() && fs.g.fatBegin <= fs.g.fatEnd <= |fs.flat| == |fs.disk| && Sound(l, fs.g, fs.fatType, |fs.disk|)
      ensures Laid(l, fs.fatType, fs.Fat(), chain, start, INVALID, 0)
    {
    }

    // One step of the walk of fatfs_sector_reader.
    method StepAlong(from: nat, ghost i: nat) returns (cluster: nat)
      requires Open() && !InRoot() && i < |chain| && from == chain[i]
      modifies fs`head, fs`disk, fs`list, fs`views, fs.buffers
      ensures Open() && SameData(fs.g, old(fs.disk), fs.disk) && fs.flat == old(fs.flat)
      ensures if i + 1 < |chain| then cluster == chain[i + 1] != LAST_CLUSTER else cluster == LAST_CLUSTER
      ensures old(fs.Poised()) ==> fs.Poised()
    {
      hide FatFs.Valid, Settled, Table, Laid, SameData, SameOutside, Below, Sound, FatFs.Poised;
      Opened();
      OpenedOnChain();
      LaidAt(l, fs.fatType, fs.Fat(), chain, start, INVALID, 0, i);
      if i + 1 < |chain| {
        LaidAt(l, fs.fatType, fs.Fat(), chain, start, INVALID, 0, i + 1);
      }
      cluster := fs.NextSteady(from);
      SameOutsideIsSameData(fs.g, old(fs.disk), fs.disk);
      SameDataLength(fs.g, old(fs.disk), fs.disk);
    }

    // fatfs_sector_reader with no target: sector offset of the directory comes
    // into the working sector, unless the chain ends before it.
    method SectorReader(offset: nat) returns (ok: bool)
      requires Valid() && offset <= Capacity(l, |chain|)
      modifies this`address, this`sector, fs`head, fs`disk, fs`list, fs`views, fs.buffers
      ensures Valid() && SameData(fs.g, old(fs.disk), fs.disk) && fs.flat == old(fs.flat)
      ensures OnDisk(l, fs.g, fs.disk, chain) == old(OnDisk(l, fs.g, fs.disk, chain))
      ensures ok <==> offset < Capacity(l, |chain|)
      ensures ok ==> AtSector(offset) && sector == OnDisk(l, fs.g, fs.disk, chain)[offset]
      ensures InRoot() ==> fs.views == old(fs.views)
      ensures old(fs.Poised()) ==> fs.Poised()
    {
      hide Open, SameData, OnDisk, Below, Fits, Capacity, Lba, FatFs.Poised;
      Opened();
      InChainIff(offset);
      SameDataSame(fs.g, fs.disk);
      var lba: nat;
      if InRoot() {
        ok := offset < l.spc;
        InOneCluster(l, offset);
        lba := l.dataBegin + offset;
      } else {
        var cluster: nat := start;
        var clusterToRead := offset / l.spc;
        var sectorToRead := offset - clusterToRead * l.spc;
        var i := 0;
        while i < clusterToRead
          invariant old(fs.Poised()) ==> fs.Poised()
          invariant 0 <= i <= clusterToRead && Open() && fs.flat == old(fs.flat)
          invariant address == old(address) && sector == old(sector)
          invariant SameData(fs.g, old(fs.disk), fs.disk)
          invariant cluster == if i < |chain| then chain[i] else LAST_CLUSTER
        {
          label before:
          cluster := StepAlong(cluster, i);
          SameDataChain(fs.g, old(fs.disk), old@before(fs.disk), fs.disk);
          i := i + 1;
        }
        ok := cluster != LAST_CLUSTER;
        lba := if ok then Lba(l, cluster, sectorToRead) else 0;
      }
      Opened();
      FreshFramed(fs.g, old(fs.disk), fs.disk, address, sector);
      OnDiskFramed(l, fs.g, old(fs.disk), fs.disk, chain);
      if ok {
        Reading(offset);
        if lba != address {
          address := lba;
          sector := fs.disk[address];
        }
      }
    }

    // The working sector is sector offset of the directory.
    ghost predicate AtSector(offset: nat)
      reads this`chain, this`address
    {
      && l.spc > 0 && Index(l, offset) < |chain| && chain[Index(l, offset)] >= 2
      && address == Lba(l, chain[Index(l, offset)], Within(l, offset))
    }

    lemma InChainIff(offset: nat)
      requires l.spc > 0 && offset <= Capacity(l, |chain|)
      ensures Index(l, offset) == offset / l.spc && Within(l, offset) == offset - offset / l.spc * l.spc
      ensures Index(l, offset) <= |chain| && (Index(l, offset) < |chain| <==> offset < Capacity(l, |chain|))
    {
      IndexBelow(l, offset, |chain|);
      IndexParts(l, offset);
    }

    lemma Reading(offset: nat)
      requires Open() && offset < Capacity(l, |chain|)
      ensures fs.g.fatBegin <= fs.g.fatEnd <= |fs.flat| && Fits(l, fs.g, fs.disk) && Below(l, chain)
      ensures Index(l, offset) < |chain| && chain[Index(l, offset)] >= 2
      ensures var x := Lba(l, chain[Index(l, offset)], Within(l, offset));
              fs.g.fatEnd <= x < |fs.disk| < INVALID && OnDisk(l, fs.g, fs.disk, chain)[offset] == fs.disk[x]
    {
      IndexBelow(l, offset, |chain|);
      LbaInside(l, fs.g, fs.disk, chain[Index(l, offset)], Within(l, offset));
    }

    // ---------------------------------------------------------- writing

    // The working sector goes back to its place in the directory.
    method WriteBack(ghost offset: nat)
      requires Open() && offset < Capacity(l, |chain|) && AtSector(offset)
      modifies fs`disk, fs`flat
      ensures Valid() && fs.g.fatBegin <= fs.g.fatEnd <= |fs.flat| && fs.Fat() == old(fs.Fat())
      ensures OnDisk(l, fs.g, fs.disk, chain) == old(OnDisk(l, fs.g, fs.disk, chain))[offset := sector]
      ensures OnlyIn(l, fs.g, old(fs.disk), fs.disk, chain)
      ensures old(fs.Poised()) ==> fs.Poised()
    {
      hide FatFs.Valid, Settled, Table, Laid, OnDisk, Below, OnlyIn, Sound, FatFs.Poised;
      Opened();
      Writing(offset);
      fs.SectorWrite(address, [sector]);
    }

    lemma Writing(offset: nat)
      requires Open() && offset < Capacity(l, |chain|) && AtSector(offset)
      ensures fs.g.fatEnd <= address < |fs.disk| && Fits(l, fs.g, Overlaid(fs.disk, address, [sector]))
      ensures Below(l, chain) && Overlaid(fs.disk, address, [sector])[address] == sector
      ensures offset < |OnDisk(l, fs.g, fs.disk, chain)|
      ensures OnDisk(l, fs.g, Overlaid(fs.disk, address, [sector]), chain) == OnDisk(l, fs.g, fs.disk, chain)[offset := sector]
      ensures OnlyIn(l, fs.g, fs.disk, Overlaid(fs.disk, address, [sector]), chain)
    {
      Opened();
      WriteReplaces(l, fs.g, fs.disk, chain, offset, [sector]);
      SameDataSame(fs.g, fs.disk);
      OnlyInWrite(l, fs.g, fs.disk, fs.disk, chain, offset, [sector]);
      hide Open, OnDisk, OnlyIn, Below, Index, Within, Lba, Capacity;
      OverlaidOne(OnDisk(l, fs.g, fs.disk, chain), offset, sector);
      OverlaidOne(fs.disk, address, sector);
    }

    ghost predicate Roomy()
      reads fs`flat
    {
      fs.g.fatBegin <= fs.g.fatEnd <= |fs.flat| && C.Room(fs.fatType, fs.Fat(), fs.rootCluster, l.limit, 1)
    }

    // No blank entry is left from the root cluster on.
    ghost predicate Full()
      reads fs`flat
    {
      && fs.g.fatBegin <= fs.g.fatEnd <= |fs.flat|
      && C.FirstBlank(fs.fatType, fs.Fat(), fs.rootCluster) >= |fs.Fat()|
    }

    // The directory can grow by a cluster, or the search for one finds none.
    ghost predicate Decided()
      reads fs`flat, fs`views
    {
      (!InRoot() && Roomy()) || (Full() && (InRoot() ==> fs.Scannable(fs.Home(fs.rootCluster))))
    }

    lemma RoomyIsNotFull()
      requires Roomy()
      ensures !Full()
    {
      C.BlankExists(fs.fatType, fs.Fat(), fs.rootCluster, l.limit);
    }

    // What an operation on the directory has done to disk and table.
    ghost predicate Grew(d: seq<Sector>, f: seq<nat>, before: seq<nat>)
      reads this`chain, fs`flat, fs`disk
    {
      && fs.g.fatBegin <= fs.g.fatEnd <= |fs.flat|
      && Moved(l, fs.g, fs.fatType, fs.rootCluster, d, fs.disk, f, fs.Fat(), before, chain)
    }

    lemma GrewOn(d: seq<Sector>, f: seq<nat>, before: seq<nat>, e: seq<Sector>, h: seq<nat>, mid: seq<nat>)
      requires Moved(l, fs.g, fs.fatType, fs.rootCluster, d, e, f, h, before, mid) && Grew(e, h, mid)
      ensures Grew(d, f, before)
    {
      MovedTwice(l, fs.g, fs.fatType, fs.rootCluster, d, e, fs.disk, f, h, fs.Fat(), before, mid, chain);
    }

    lemma GrewRead(d: seq<Sector>, f: seq<nat>, before: seq<nat>, e: seq<Sector>)
      requires Open() && Moved(l, fs.g, fs.fatType, fs.rootCluster, d, e, f, fs.Fat(), before, chain)
      requires SameData(fs.g, e, fs.disk)
      ensures Grew(d, f, before)
    {
      Opened();
      MovedSame(l, fs.g, fs.fatType, fs.rootCluster, e, fs.disk, fs.Fat(), chain);
      GrewOn(d, f, before, e, fs.Fat(), chain);
    }

    lemma GrewWritten(d: seq<Sector>, f: seq<nat>, before: seq<nat>, e: seq<Sector>)
      requires Open() && Moved(l, fs.g, fs.fatType, fs.rootCluster, d, e, f, fs.Fat(), before, chain)
      requires OnlyIn(l, fs.g, e, fs.disk, chain)
      ensures Grew(d, f, before)
    {
      Opened();
      C.NotExtended(fs.fatType, fs.Fat(), fs.rootCluster, chain);
      GrewOn(d, f, before, e, fs.Fat(), chain);
    }

    lemma GrewNot()
      requires Open()
      ensures Grew(fs.disk, fs.Fat(), chain)
    {
      Opened();
      SameDataSame(fs.g, fs.disk);
      MovedSame(l, fs.g, fs.fatType, fs.rootCluster, fs.disk, fs.disk, fs.Fat(), chain);
    }

    // The search for a blank cluster.
    method FindNew() returns (ok: bool, cluster: nat)
      requires Valid() && Decided()
      modifies fs`head, fs`disk, fs`list, fs`views, fs.buffers
      ensures Valid() && SameData(fs.g, old(fs.disk), fs.disk) && fs.flat == old(fs.flat) && ok == !Full()
      ensures ok ==> !InRoot() && Roomy() && cluster == C.FirstBlank(fs.fatType, fs.Fat(), fs.rootCluster)
      ensures old(fs.Poised()) ==> fs.Poised()
    {
      hide FatFs.Valid, Settled, Table, Laid, SameData, SameOutside, C.Room, C.FirstBlank, Below, Fresh, Sound;
      hide FatFs.Poised;
      Opened();
      if Roomy() {
        RoomyIsNotFull();
      }
      Searchable();
      ok, cluster := fs.FindBlankCluster(fs.rootCluster);
      SameOutsideIsSameData(fs.g, old(fs.disk), fs.disk);
      SameDataLength(fs.g, old(fs.disk), fs.disk);
      FreshFramed(fs.g, old(fs.disk), fs.disk, address, sector);
    }

    lemma Searchable()
      requires Open() && Decided()
      ensures fs.Scannable(fs.Home(fs.rootCluster))
    {
      if !InRoot() {
        OpenedOnChain();
        fs.StaysScannable(fs.rootCluster);
      }
    }

    // The cluster found is linked to the end of the chain.
    method LinkNew(cluster: nat)
      requires Valid() && !InRoot() && Roomy() && cluster == C.FirstBlank(fs.fatType, fs.Fat(), fs.rootCluster)
      modifies this`chain, fs`head, fs`disk, fs`list, fs`views, fs`flat, fs.buffers
      ensures Valid() && chain == old(chain) + [cluster]
      ensures SameData(fs.g, old(fs.disk), fs.disk) && Grew(old(fs.disk), old(fs.Fat()), old(chain))
      ensures old(fs.Poised()) ==> fs.Poised()
    {
      hide FatFs.Valid, Settled, Table, Laid, SameData, SameOutside, C.Room, C.Grow, C.FirstBlank, Below, Moved;
      hide Fresh, Sound, FatFs.Poised;
      Opened();
      OpenedOnChain();
      Linking();
      ghost var f := fs.Fat();
      var linked := fs.AddClusterToChain(start, cluster, chain);
      SameOutsideIsSameData(fs.g, old(fs.disk), fs.disk);
      SameDataLength(fs.g, old(fs.disk), fs.disk);
      FreshFramed(fs.g, old(fs.disk), fs.disk, address, sector);
      MovedLinked(l, fs.g, fs.fatType, fs.rootCluster, old(fs.disk), fs.disk, f, old(chain), cluster);
      chain := chain + [cluster];
    }

    lemma Linking()
      requires Open() && !InRoot() && Roomy()
      ensures var f, b := fs.Fat(), C.FirstBlank(fs.fatType, fs.Fat(), fs.rootCluster);
              && |chain| > 0 && C.Trail(fs.fatType, f, chain) && chain[|chain| - 1] < |f|
              && Link(fs.fatType, f[chain[|chain| - 1]]) == LAST_CLUSTER && b < |f|
              && C.Grow(fs.fatType, f, fs.rootCluster, chain[|chain| - 1], 1)
                 == C.Grown(true, C.Linked(fs.fatType, f, chain[|chain| - 1], b), [b])
              && Laid(l, fs.fatType, C.Linked(fs.fatType, f, chain[|chain| - 1], b), chain + [b], start, INVALID, 0)
              && Below(l, chain + [b])
    {
      var f, b := fs.Fat(), C.FirstBlank(fs.fatType, fs.Fat(), fs.rootCluster);
      Opened();
      OpenedOnChain();
      LaidAt(l, fs.fatType, f, chain, start, INVALID, 0, |chain| - 1);
      LaidGrows(l, fs.fatType, f, chain, start, INVALID, 0, fs.rootCluster, 1, 1);
      C.GrowUnfolds(fs.fatType, f, fs.rootCluster, chain[|chain| - 1], 1);
      C.GrowNothing(fs.fatType, C.Linked(fs.fatType, f, chain[|chain| - 1], b), fs.rootCluster, b);
      assert [b] + [] == [b];
      LaidStart(l, fs.fatType, C.Linked(fs.fatType, f, chain[|chain| - 1], b), chain + [b], start, INVALID, 0);
    }

    // The new last cluster is erased sector by sector.
    method Erase(cluster: nat, ghost before: seq<nat>)
      requires Valid() && chain == before + [cluster]
      modifies this`address, this`sector, fs`disk, fs`flat
      ensures Valid() && fs.g.fatBegin <= fs.g.fatEnd <= |fs.flat| && fs.Fat() == old(fs.Fat())
      ensures Capacity(l, |before|) <= |old(OnDisk(l, fs.g, fs.disk, chain))|
      ensures OnDisk(l, fs.g, fs.disk, chain)
           == old(OnDisk(l, fs.g, fs.disk, chain))[..Capacity(l, |before|)] + seq(l.spc, _ => Blank())
      ensures OnlyIn(l, fs.g, old(fs.disk), fs.disk, chain)
      ensures old(fs.Poised()) ==> fs.Poised()
    {
      hide Open, OnDisk, Below, Fits, Capacity, OnlyIn, SameData, FatFs.Poised, Table, Lba;
      Opened();
      SameDataSame(fs.g, fs.disk);
      OnlyInSame(l, fs.g, fs.disk, fs.disk, chain);
      sector := Blank();
      address := INVALID;
      var i := 0;
      ghost var k := Capacity(l, |before|);
      IndexTail(l, |before|, 0);
      ghost var front := OnDisk(l, fs.g, fs.disk, chain)[..k];
      while i < l.spc
        invariant old(fs.Poised()) ==> fs.Poised()
        invariant 0 <= i <= l.spc && Valid() && sector == Blank() && Fits(l, fs.g, fs.disk) && Below(l, chain)
        invariant fs.g.fatBegin <= fs.g.fatEnd <= |fs.flat| && fs.Fat() == old(fs.Fat())
        invariant |OnDisk(l, fs.g, fs.disk, chain)| == k + l.spc
        invariant OnDisk(l, fs.g, fs.disk, chain)[..k + i] == front + seq(i, _ => Blank())
        invariant OnlyIn(l, fs.g, old(fs.disk), fs.disk, chain)
      {
        label before_:
        BlankNext(OnDisk(l, fs.g, fs.disk, chain), front, i);
        EraseSector(cluster, before, i);
        OnlyInChain(l, fs.g, old(fs.disk), old@before_(fs.disk), fs.disk, chain, chain);
        i := i + 1;
      }
      assert OnDisk(l, fs.g, fs.disk, chain)[..k + i] == OnDisk(l, fs.g, fs.disk, chain);
    }

    // Sector i of the cluster.
    method EraseSector(cluster: nat, ghost before: seq<nat>, i: nat)
      requires Valid() && chain == before + [cluster] && i < l.spc && sector == Blank()
      requires Fits(l, fs.g, fs.disk) && Below(l, chain)
      modifies this`address, fs`disk, fs`flat
      ensures Valid() && fs.g.fatBegin <= fs.g.fatEnd <= |fs.flat| && fs.Fat() == old(fs.Fat())
      ensures Fits(l, fs.g, fs.disk) && Below(l, chain)
      ensures Capacity(l, |before|) + i < |old(OnDisk(l, fs.g, fs.disk, chain))|
      ensures OnDisk(l, fs.g, fs.disk, chain)
           == old(OnDisk(l, fs.g, fs.disk, chain))[Capacity(l, |before|) + i := Blank()]
      ensures OnlyIn(l, fs.g, old(fs.disk), fs.disk, chain)
      ensures old(fs.Poised()) ==> fs.Poised()
    {
      hide Open, OnDisk, Below, Fits, Capacity, OnlyIn, SameData, FatFs.Poised, Table;
      IndexTail(l, |before|, i);
      Opened();
      assert cluster == chain[|before|];
      address := Lba(l, cluster, i);
      WriteBack(Capacity(l, |before|) + i);
      Opened();
    }

    // A blank cluster more, if there is one.
    method Extend() returns (ok: bool)
      requires Valid() && Decided()
      modifies this`chain, this`address, this`sector, fs`head, fs`disk, fs`list, fs`views, fs`flat, fs.buffers
      ensures ok == !old(Full()) && Valid() && old(chain) <= chain && |chain| <= |old(chain)| + 1
      ensures Grew(old(fs.disk), old(fs.Fat()), old(chain))
      ensures OnDisk(l, fs.g, fs.disk, chain)
           == old(OnDisk(l, fs.g, fs.disk, chain)) + (if ok then seq(l.spc, _ => Blank()) else [])
      ensures old(fs.Poised()) ==> fs.Poised()
    {
      hide Open, OnDisk, Below, Fits, Capacity, SameData, OnlyIn, Moved, Roomy, Full, FatFs.Poised;
      Opened();
      GrewNot();
      var cluster: nat;
      ok, cluster := FindNew();
      Opened();
      GrewRead(old(fs.disk), old(fs.Fat()), old(chain), old(fs.disk));
      OnDiskFramed(l, fs.g, old(fs.disk), fs.disk, chain);
      if ok {
        label found:
        LinkNew(cluster);
        Opened();
        GrewOn(old(fs.disk), old(fs.Fat()), old(chain), old@found(fs.disk), old@found(fs.Fat()), old@found(chain));
        OnDiskFramed(l, fs.g, old@found(fs.disk), fs.disk, old(chain));
        OnDiskPrefix(l, fs.g, fs.disk, old(chain), [cluster]);
        label linked:
        Erase(cluster, old(chain));
        GrewWritten(old(fs.disk), old(fs.Fat()), old(chain), old@linked(fs.disk));
      } else {
        assert OnDisk(l, fs.g, fs.disk, chain) + [] == OnDisk(l, fs.g, fs.disk, chain);
      }
    }

    // A run holds n slots already, or it is decided whether the directory grows.
    ghost predicate Placeable(n: nat)
      requires Fits(l, fs.g, fs.disk) && Below(l, chain)
      reads this`chain, fs`disk, fs`flat, fs`views
    {
      Fit(AllSlots(), n, |AllSlots()|) || Decided()
    }

    // There is or will be a run for n slots to start in.
    ghost predicate Extensible(n: nat)
      requires Fits(l, fs.g, fs.disk) && Below(l, chain)
      reads this`chain, fs`disk, fs`flat
    {
      Fit(AllSlots(), n, |AllSlots()|) || !Full()
    }

    // fatfs_find_free_dir_offset: a free run for entryCount slots, or one that
    // ends with a cluster of blank slots just added to the directory; none when
    // no run fits and no cluster is blank.
    method FindFreeDirOffset(entryCount: nat) returns (ok: bool, pSector: nat, pOffset: nat, ghost end: nat)
      requires Valid() && (entryCount > 0 ==> Placeable(entryCount))
      modifies this`chain, this`address, this`sector, fs`head, fs`disk, fs`list, fs`views, fs`flat, fs.buffers
      ensures Valid() && old(chain) <= chain && Grew(old(fs.disk), old(fs.Fat()), old(chain))
      ensures |chain| <= |old(chain)| + 1 && (old(Fit(AllSlots(), entryCount, |AllSlots()|)) ==> chain == old(chain))
      ensures ok <==> entryCount > 0 && old(Extensible(entryCount))
      ensures Outcome(old(OnDisk(l, fs.g, fs.disk, chain)), OnDisk(l, fs.g, fs.disk, chain), l.spc)
      ensures ok ==> pOffset < PER_SECTOR && pSector * PER_SECTOR + pOffset <= end
      ensures ok ==> FreeRun(Slots(OnDisk(l, fs.g, fs.disk, chain)), pSector * PER_SECTOR + pOffset, end)
      ensures ok ==>
                Chosen(old(Slots(OnDisk(l, fs.g, fs.disk, chain))), |OnDisk(l, fs.g, fs.disk, chain)| * PER_SECTOR, l.spc,
                       pSector * PER_SECTOR + pOffset, end, entryCount)
      ensures old(fs.Poised()) ==> fs.Poised()
    {
      hide Open, OnDisk, Below, Fits, Capacity, SameData, Moved, Scan, FreeRun, Slots, Fresh, Fit, Full, Roomy;
      hide FatFs.Scannable, FatFs.Poised;
      Opened();
      GrewNot();
      ghost var secs := OnDisk(l, fs.g, fs.disk, chain);
      pSector, pOffset, end := 0, 0, 0;
      if entryCount == 0 {
        return false, 0, 0, 0;
      }
      var x := 0;
      var spaces := 0;
      SameDataSame(fs.g, fs.disk);
      ScanStart(secs);
      NoFitYet(Slots(secs), entryCount);
      while true
        invariant old(fs.Poised()) ==> fs.Poised()
        invariant Valid() && Fits(l, fs.g, fs.disk) && Below(l, chain) && chain == old(chain) && fs.flat == old(fs.flat)
        invariant OnDisk(l, fs.g, fs.disk, chain) == secs && SameData(fs.g, old(fs.disk), fs.disk)
        invariant x <= |secs| && Scan(Slots(secs), x * PER_SECTOR, spaces, pSector, pOffset)
        invariant !Fit(Slots(secs), entryCount, x * PER_SECTOR) && (InRoot() ==> fs.views == old(fs.views))
        decreases |secs| - x
      {
        Opened();
        label before:
        var read := SectorReader(x);
        Opened();
        SameDataChain(fs.g, old(fs.disk), old@before(fs.disk), fs.disk);
        x := x + 1;
        if read {
          var found;
          found, spaces, pSector, pOffset, end := ScanSector(sector, x - 1, entryCount, spaces, pSector, pOffset, secs);
          if found {
            GrewRead(old(fs.disk), old(fs.Fat()), old(chain), old(fs.disk));
            return true, pSector, pOffset, end;
          }
        } else {
          GrewRead(old(fs.disk), old(fs.Fat()), old(chain), old(fs.disk));
          label full:
          ok := Extend();
          Opened();
          GrewOn(old(fs.disk), old(fs.Fat()), old(chain), old@full(fs.disk), old@full(fs.Fat()), old@full(chain));
          if !ok {
            assert secs + [] == secs;
            return;
          }
          ScanOut(secs, l.spc, spaces, pSector, pOffset);
          if spaces == 0 {
            pSector := x - 1;
            pOffset := 0;
          }
          end := |OnDisk(l, fs.g, fs.disk, chain)| * PER_SECTOR;
          return;
        }
      }
    }

    // The loop of fatfs_add_file_entry: the slots fill the run from its start,
    // over as many sectors as it takes, unless the directory ends first.
    method WriteEntry(name: seq<byte>, checksum: byte, short: Slot, dirSector: nat, dirOffset: nat,
                      entryCount: nat, buffer: array<byte>)
      returns (ok: bool, ghost news: seq<Slot>)
      requires Valid() && Lfn.Name(name) && entryCount == Lfn.EntriesRequired(|name|)
      requires buffer.Length == SLOT && dirOffset < PER_SECTOR && dirSector < |OnDisk(l, fs.g, fs.disk, chain)|
      modifies this`address, this`sector, fs`head, fs`disk, fs`list, fs`views, fs`flat, fs.buffers, buffer
      ensures Valid() && Grew(old(fs.disk), old(fs.Fat()), chain)
      ensures dirSector * PER_SECTOR + dirOffset + |news| <= |old(Slots(OnDisk(l, fs.g, fs.disk, chain)))|
      ensures Slots(OnDisk(l, fs.g, fs.disk, chain))
           == Overlaid(old(Slots(OnDisk(l, fs.g, fs.disk, chain))), dirSector * PER_SECTOR + dirOffset, news)
      ensures ok ==> |news| == entryCount + 1 && news[entryCount] == short && LongSlots(news[..entryCount], name, checksum, entryCount)
      ensures !ok ==> LongSlots(news, name, checksum, entryCount)
                      && dirSector * PER_SECTOR + dirOffset + |news| == |old(Slots(OnDisk(l, fs.g, fs.disk, chain)))|
      ensures old(fs.Poised()) ==> fs.Poised()
    {
      hide Open, OnDisk, Below, Fits, Capacity, SameData, Moved, Slots, Overlaid, LongSlots, OnlyIn, Fresh;
      hide AtSector, FatFs.Poised;
      hide Lfn.EntriesRequired, Lfn.Name;
      Opened();
      GrewNot();
      ghost var secs0 := OnDisk(l, fs.g, fs.disk, chain);
      ghost var slots, secs := Slots(secs0), secs0;
      news := [];
      NothingYet(slots, dirSector * PER_SECTOR + dirOffset, name, checksum, entryCount);
      var x: nat, foundEnd, remaining: nat := dirSector, false, entryCount;
      while true
        invariant old(fs.Poised()) ==> fs.Poised()
        invariant Valid() && Fits(l, fs.g, fs.disk) && Below(l, chain) && Grew(old(fs.disk), old(fs.Fat()), chain)
        invariant OnDisk(l, fs.g, fs.disk, chain) == secs && |secs| == |secs0| && dirSector <= x <= |secs|
        invariant dirSector * PER_SECTOR + dirOffset + |news| <= |slots|
        invariant Slots(secs) == Overlaid(slots, dirSector * PER_SECTOR + dirOffset, news)
        invariant LongSlots(news, name, checksum, entryCount) && remaining + |news| == entryCount
        invariant if foundEnd then dirSector * PER_SECTOR + dirOffset + |news| == x * PER_SECTOR else news == [] && dirSector == x
        decreases |secs0| - x
      {
        Opened();
        label before:
        var read := SectorReader(x);
        Opened();
        GrewRead(old(fs.disk), old(fs.Fat()), chain, old@before(fs.disk));
        x := x + 1;
        if !read {
          ok := false;
          return;
        }
        var done, dirty;
        sector, remaining, foundEnd, done, dirty, news :=
          FillSector(sector, x - 1, dirSector, dirOffset, foundEnd, remaining, name, checksum, short, buffer, secs, slots, news);
        label filled:
        if done || dirty {
          WriteBack(x - 1);
        }
        Opened();
        GrewWritten(old(fs.disk), old(fs.Fat()), chain, old@filled(fs.disk));
        secs := secs[x - 1 := sector];
        if done {
          ok := true;
          return;
        }
      }
    }

    // fatfs_add_file_entry: a later listing shows the old lines and, in their
    // midst, exactly the new one; when the entry does not fit, or its short
    // name starts with a byte that marks a free slot, the old lines alone.
    method AddFileEntry(name: seq<byte>, shortName: seq<byte>, startCluster: nat, size: nat, dir: bool, buffer: array<byte>)
      returns (ok: bool, ghost long: seq<Slot>, ghost before: seq<Listed>, ghost after: seq<Listed>)
      requires Valid() && (name == [] || Lfn.Name(name)) && buffer.Length == SLOT
      requires name != [] ==> Placeable(Lfn.EntriesRequired(|name|) + 1)
      requires |shortName| == 11
      requires startCluster < RANGE && size < RANGE
      modifies this`chain, this`address, this`sector
      modifies fs`head, fs`disk, fs`list, fs`views, fs`flat, fs.buffers, buffer
      ensures Valid() && old(chain) <= chain && Grew(old(fs.disk), old(fs.Fat()), old(chain))
      ensures |chain| <= |old(chain)| + 1
      ensures old(Fit(AllSlots(), Lfn.EntriesRequired(|name|) + 1, |AllSlots()|)) ==> chain == old(chain)
      ensures ok ==>
                && |long| == Lfn.EntriesRequired(|name|)
                && NewEntryIn(old(AllSlots()), AllSlots(), long, ShortEntry(shortName, startCluster, size, dir))
      ensures ok <==>
                && name != [] && old(Extensible(Lfn.EntriesRequired(|name|) + 1))
                && old(Holdable(AllSlots(), l.spc, Lfn.EntriesRequired(|name|) + 1))
      ensures ok ==>
                && LongSlots(long, name, Checksum(shortName), Lfn.EntriesRequired(|name|))
                && |long| == Lfn.EntriesRequired(|name|)
                && old(Listing(Slots(OnDisk(l, fs.g, fs.disk, chain)), [])) == before + after
                && Listing(Slots(OnDisk(l, fs.g, fs.disk, chain)), [])
                   == before + NewLine(long, shortName, startCluster, size, dir) + after
      ensures !ok ==> Listing(Slots(OnDisk(l, fs.g, fs.disk, chain)), []) == old(Listing(Slots(OnDisk(l, fs.g, fs.disk, chain)), []))
      ensures old(fs.Poised()) ==> fs.Poised()
    {
      hide Open, OnDisk, Below, Fits, Capacity, SameData, Moved, Slots, Overlaid, LongSlots, OnlyIn, Fresh, FreeRun;
      hide Outcome, Listing, Chosen, Holdable, Extensible, Placeable, FatFs.Poised;
      hide Lfn.EntriesRequired, Lfn.Name, Checksum, ShortEntry;
      Opened();
      GrewNot();
      var entryCount := Lfn.EntriesRequired(|name|);
      SomeEntries(|name|);
      long, before, after := [], [], [];
      if entryCount == 0 {
        return false, [], [], [];
      }
      ghost var secs0 := OnDisk(l, fs.g, fs.disk, chain);
      var found, dirSector, dirOffset;
      ghost var end;
      found, dirSector, dirOffset, end := FindFreeDirOffset(entryCount + 1);
      Opened();
      ghost var secs, start := OnDisk(l, fs.g, fs.disk, chain), dirSector * PER_SECTOR + dirOffset;
      OutcomeLists(secs0, secs, l.spc);
      if !found {
        return false, [], [], [];
      }
      RunFacts(Slots(secs0), Slots(secs), start, end, l.spc, entryCount + 1);
      var checksum := Checksum(shortName);
      var short := ShortEntry(shortName, startCluster, size, dir);
      label placed:
      ghost var news;
      ok, news := WriteEntry(name, checksum, short, dirSector, dirOffset, entryCount, buffer);
      GrewOn(old(fs.disk), old(fs.Fat()), old(chain), old@placed(fs.disk), old@placed(fs.Fat()), chain);
      Opened();
      long := if ok then news[..entryCount] else [];
      before, after := Listing(Slots(secs)[..start], []), Listing(Slots(secs)[end..], []);
      if ok {
        assert news == long + [short];
        LongSlotsAreLong(long, name, checksum, entryCount);
        EntryLists(Slots(secs), start, end, long, shortName, startCluster, size, dir);
        EntryPlaced(secs0, secs, l.spc, start, end, entryCount + 1, long, short);
      } else {
        LongSlotsAreLong(news, name, checksum, entryCount);
        SilentLists(Slots(secs), start, end, news);
      }
    }

    ghost function AllSlots(): seq<Slot>
      requires Fits(l, fs.g, fs.disk) && Below(l, chain)
      reads this`chain, fs`disk
    {
      Slots(OnDisk(l, fs.g, fs.disk, chain))
    }

    // fatfs_sfn_exists.
    method SfnExists(shortName: seq<byte>) returns (found: bool)
      requires Valid() && |shortName| == 11
      modifies this`address, this`sector, fs`head, fs`disk, fs`list, fs`views, fs.buffers
      ensures Valid() && SameData(fs.g, old(fs.disk), fs.disk) && fs.flat == old(fs.flat)
      ensures AllSlots() == old(AllSlots())
      ensures found <==> HasName(AllSlots(), |AllSlots()|, shortName)
      ensures old(fs.Poised()) ==> fs.Poised()
    {
      hide Open, OnDisk, Below, Fits, Capacity, SameData, Slots, Fresh, HasName, FatFs.Poised;
      Opened();
      SameDataSame(fs.g, fs.disk);
      ghost var secs := OnDisk(l, fs.g, fs.disk, chain);
      NoNameYet(Slots(secs), shortName);
      var x := 0;
      while true
        invariant old(fs.Poised()) ==> fs.Poised()
        invariant Valid() && Fits(l, fs.g, fs.disk) && Below(l, chain) && fs.flat == old(fs.flat)
        invariant OnDisk(l, fs.g, fs.disk, chain) == secs && SameData(fs.g, old(fs.disk), fs.disk)
        invariant x <= |secs| && !HasName(Slots(secs), x * PER_SECTOR, shortName)
        decreases |secs| - x
      {
        Opened();
        label before:
        var read := SectorReader(x);
        Opened();
        SameDataChain(fs.g, old(fs.disk), old@before(fs.disk), fs.disk);
        x := x + 1;
        if !read {
          break;
        }
        found := SectorHasName(sector, x - 1, shortName, secs);
        if found {
          return;
        }
      }
      found := false;
    }
  }

  lemma NoNameYet(slots: seq<Slot>, name: seq<byte>)
    ensures !HasName(slots, 0, name)
  {
  }

  // The line that a new entry adds to a listing.
  function NewLine(long: seq<Slot>, shortName: seq<byte>, cluster: nat, size: nat, dir: bool): seq<Listed>
    requires |shortName| == 11
  {
    if shortName[0] == BLANK || shortName[0] == DELETED then []
    else [Listed(long, ShortEntry(shortName, cluster, size, dir))]
  }

  // One entry's slots have been laid over a free run of old, or of old and free
  // slots behind it.
  ghost predicate NewEntryIn(was: seq<Slot>, now: seq<Slot>, long: seq<Slot>, short: Slot) {
    exists more: seq<Slot>, start: nat, end: nat :: NewEntryAt(was, now, long, short, more, start, end)
  }

  ghost predicate NewEntryAt(was: seq<Slot>, now: seq<Slot>, long: seq<Slot>, short: Slot, more: seq<Slot>, start: nat,
                             end: nat)
  {
    && NoneTaken(more) && FreeRun(was + more, start, end) && start <= |was| && start + |long| + 1 <= end
    && now == Overlaid(was + more, start, long + [short])
  }

  lemma EntryPlaced(secs0: seq<Sector>, secs: seq<Sector>, spc: nat, start: nat, end: nat, n: nat, long: seq<Slot>, short: Slot)
    requires Outcome(secs0, secs, spc) && FreeRun(Slots(secs), start, end) && start + n <= end && n == |long| + 1
    requires Chosen(Slots(secs0), |Slots(secs)|, spc, start, end, n)
    ensures start + |long| + 1 <= |Slots(secs)|
    ensures NewEntryIn(Slots(secs0), Overlaid(Slots(secs), start, long + [short]), long, short)
  {
    var blanks := seq(spc, _ => Blank());
    if secs == secs0 {
      assert Slots(secs0) + [] == Slots(secs);
      assert NewEntryAt(Slots(secs0), Overlaid(Slots(secs), start, long + [short]), long, short, [], start, end);
    } else {
      SlotsConcat(secs0, blanks);
      BlankSlots(spc);
      assert NewEntryAt(Slots(secs0), Overlaid(Slots(secs), start, long + [short]), long, short, Slots(blanks), start, end);
    }
  }

  lemma EntryLists(slots: seq<Slot>, start: nat, end: nat, long: seq<Slot>, shortName: seq<byte>, cluster: nat, size: nat,
                   dir: bool)
    requires FreeRun(slots, start, end) && start + |long| + 1 <= end && |shortName| == 11
    requires cluster < RANGE && size < RANGE && forall i | 0 <= i < |long| :: LfnText(long[i])
    ensures var before, after := Listing(slots[..start], []), Listing(slots[end..], []);
            && Listing(slots, []) == before + after
            && Listing(Overlaid(slots, start, long + [ShortEntry(shortName, cluster, size, dir)]), [])
               == before + NewLine(long, shortName, cluster, size, dir) + after
  {
    var short := ShortEntry(shortName, cluster, size, dir);
    ShortEntryReads(shortName, cluster, size, dir);
    ShortEntryHead(shortName, cluster, size, dir);
    hide Listing, Overlaid, FreeRun, ShortEntry;
    RunParts(slots, start, end);
    if DirSlots.Shown(short) {
      PlacedLists(slots, start, end, long, short);
    } else {
      var before := Listing(slots[..start], []);
      assert before + [] == before;
      SilentLists(slots, start, end, long + [short]);
    }
  }

  lemma RunFacts(before: seq<Slot>, slots: seq<Slot>, start: nat, end: nat, spc: nat, n: nat)
    requires FreeRun(slots, start, end) && Chosen(before, |slots|, spc, start, end, n) && n > 0 && spc > 0
    ensures start < end <= |slots| && (start + n <= end || end == |slots|)
    ensures start + n <= end <==> Holdable(before, spc, n)
  {
  }

  lemma SomeEntries(n: nat)
    ensures Lfn.EntriesRequired(n) == 0 <==> n == 0
  {
  }

  // Blank sectors at the end of a directory list nothing.
  lemma OutcomeLists(before: seq<Sector>, after: seq<Sector>, n: nat)
    requires Outcome(before, after, n)
    ensures Listing(Slots(after), []) == Listing(Slots(before), [])
  {
    var more := seq(n, _ => Blank());
    if after != before {
      SlotsConcat(before, more);
      BlankSlots(n);
      BlanksListNothing(Slots(before), Slots(more), []);
    }
  }

  lemma NothingYet(slots: seq<Slot>, start: nat, name: seq<byte>, checksum: byte, n: nat)
    requires start <= |slots|
    ensures Overlaid(slots, start, []) == slots && LongSlots([], name, checksum, n)
  {
  }

  // Where the search puts n slots, given the slots before it: in a run that
  // holds them, or else after the last entry, a blank cluster being added.
  ghost predicate Chosen(before: seq<Slot>, total: nat, spc: nat, start: nat, end: nat, n: nat) {
    if Fit(before, n, |before|) then start + n <= end && total == |before|
    else start == |before| - Spare(before) && end == total == |before| + spc * PER_SECTOR
  }

  // n slots fit in a free run, or at the end with a cluster more.
  ghost predicate Holdable(slots: seq<Slot>, spc: nat, n: nat) {
    Fit(slots, n, |slots|) || n <= Spare(slots) + spc * PER_SECTOR
  }

  lemma ScanStart(secs: seq<Sector>)
    ensures Scan(Slots(secs), 0, 0, 0, 0)
  {
  }

  // The directory is as before, or has n blank sectors more.
  predicate Outcome(before: seq<Sector>, after: seq<Sector>, n: nat) {
    after == before || after == before + seq(n, _ => Blank())
  }

  lemma ScanOut(secs: seq<Sector>, n: nat, spaces: nat, sector: nat, offset: nat)
    requires Scan(Slots(secs), |secs| * PER_SECTOR, spaces, sector, offset)
    ensures var after := secs + seq(n, _ => Blank());
            var start := if spaces == 0 then |secs| * PER_SECTOR else sector * PER_SECTOR + offset;
            && (spaces > 0 ==> offset < PER_SECTOR)
            && start <= |secs| * PER_SECTOR && FreeRun(Slots(after), start, |after| * PER_SECTOR)
            && start == |Slots(secs)| - Spare(Slots(secs)) && |after| * PER_SECTOR == |Slots(secs)| + n * PER_SECTOR
  {
    hide Slots, Scan, FreeRun, NoneTaken, Spare;
    SpareScanned(Slots(secs), spaces, sector, offset);
    var more := seq(n, _ => Blank());
    SlotsConcat(secs, more);
    BlankSlots(n);
    ScanEnd(Slots(secs), spaces, sector, offset, Slots(more));
    if spaces > 0 {
      ScanFacts(Slots(secs), |secs| * PER_SECTOR, spaces, sector, offset);
    }
  }

  lemma BlankNext(d: seq<Sector>, front: seq<Sector>, i: nat)
    requires |front| + i < |d| && d[..|front| + i] == front + seq(i, _ => Blank())
    ensures d[|front| + i := Blank()][..|front| + i + 1] == front + seq(i + 1, _ => Blank())
  {
    var n := |front| + i;
    assert d[n := Blank()][..n + 1] == d[..n] + [Blank()];
  }

  // The slots written for a name, highest first, so far.
  ghost predicate LongSlots(news: seq<Slot>, name: seq<byte>, checksum: byte, n: nat) {
    |news| <= n && forall i | 0 <= i < |news| :: Lfn.IsSlot(news[i], name, n - 1 - i, checksum)
  }

  // The slots written count down to 1, and the first of them alone carries the
  // mark of the last part.
  lemma FirstIsMarked(news: seq<Slot>, name: seq<byte>, checksum: byte)
    requires Lfn.Name(name) && LongSlots(news, name, checksum, |news|) && |news| == Lfn.EntriesRequired(|name|)
    ensures forall i | 0 <= i < |news| ::
              && news[i][0] == |news| - i + (if i == 0 then 0x40 else 0) && |news| - i <= 20
              && news[i][11] == 0x0F && news[i][13] == checksum
  {
    forall i | 0 <= i < |news|
      ensures news[i][0] == |news| - i + (if i == 0 then 0x40 else 0) && |news| - i <= 20
      ensures news[i][11] == 0x0F && news[i][13] == checksum
    {
      assert Lfn.IsSlot(news[i], name, |news| - 1 - i, checksum);
    }
  }

  lemma LongSlotsNext(news: seq<Slot>, b: Slot, name: seq<byte>, checksum: byte, n: nat)
    requires LongSlots(news, name, checksum, n) && |news| < n && Lfn.IsSlot(b, name, n - 1 - |news|, checksum)
    ensures LongSlots(news + [b], name, checksum, n)
  {
  }

  lemma LongSlotsAreLong(news: seq<Slot>, name: seq<byte>, checksum: byte, n: nat)
    requires LongSlots(news, name, checksum, n)
    ensures |news| <= n && forall i | 0 <= i < |news| :: LfnText(news[i])
  {
  }

  lemma PutSlot(secs: seq<Sector>, x: nat, sector: Sector, item: nat, b: Slot, slots: seq<Slot>, start: nat, news: seq<Slot>)
    requires x < |secs| && item < PER_SECTOR && start + |news| == x * PER_SECTOR + item < |slots|
    requires Slots(secs[x := sector]) == Overlaid(slots, start, news)
    ensures Slots(secs[x := WithSlot(sector, item, b)]) == Overlaid(slots, start, news + [b])
  {
    var now := secs[x := sector];
    SlotsUpdated(now, x, item, b);
    PlacedNext(slots, start, news, b);
    assert now[x := WithSlot(now[x], item, b)] == secs[x := WithSlot(sector, item, b)];
  }

  // One sector's turn of the loop of fatfs_add_file_entry: slots from the
  // start position on take the long-name slots and then the short entry.
  method FillSector(sector0: Sector, x: nat, dirSector: nat, dirOffset: nat, foundEnd0: bool, remaining0: nat,
                    name: seq<byte>, checksum: byte, short: Slot, buffer: array<byte>,
                    ghost secs: seq<Sector>, ghost slots: seq<Slot>, ghost news0: seq<Slot>)
    returns (sector: Sector, remaining: nat, foundEnd: bool, done: bool, dirty: bool, ghost news: seq<Slot>)
    requires buffer.Length == SLOT && Lfn.Name(name) && dirOffset < PER_SECTOR && |slots| == |secs| * PER_SECTOR
    requires x < |secs| && secs[x] == sector0 && dirSector * PER_SECTOR + dirOffset + |news0| <= |slots|
    requires Slots(secs) == Overlaid(slots, dirSector * PER_SECTOR + dirOffset, news0)
    requires LongSlots(news0, name, checksum, Lfn.EntriesRequired(|name|))
    requires remaining0 + |news0| == Lfn.EntriesRequired(|name|)
    requires if foundEnd0 then dirSector * PER_SECTOR + dirOffset + |news0| == x * PER_SECTOR else news0 == [] && dirSector == x
    modifies buffer
    ensures dirSector * PER_SECTOR + dirOffset + |news| <= |slots|
    ensures Slots(secs[x := sector]) == Overlaid(slots, dirSector * PER_SECTOR + dirOffset, news)
    ensures done ==> |news| > 0 && news[|news| - 1] == short && |news| == Lfn.EntriesRequired(|name|) + 1
                     && LongSlots(news[..|news| - 1], name, checksum, Lfn.EntriesRequired(|name|))
    ensures !done ==> foundEnd && dirty && LongSlots(news, name, checksum, Lfn.EntriesRequired(|name|))
                      && remaining + |news| == Lfn.EntriesRequired(|name|)
                      && dirSector * PER_SECTOR + dirOffset + |news| == (x + 1) * PER_SECTOR
  {
    hide Slots, Overlaid, LongSlots, Lfn.IsSlot, Lfn.Name, Lfn.EntriesRequired, WithSlot;
    sector, remaining, foundEnd, done, dirty, news := sector0, remaining0, foundEnd0, false, false, news0;
    ghost var start, n := dirSector * PER_SECTOR + dirOffset, Lfn.EntriesRequired(|name|);
    assert secs[x := sector] == secs;
    var item := 0;
    while item < PER_SECTOR
      invariant 0 <= item <= PER_SECTOR && !done
      invariant start + |news| <= |slots| && Slots(secs[x := sector]) == Overlaid(slots, start, news)
      invariant LongSlots(news, name, checksum, n) && remaining + |news| == n
      invariant if foundEnd then start + |news| == x * PER_SECTOR + item else news == [] && dirSector == x && item <= dirOffset
      invariant dirty <==> remaining < remaining0
      invariant foundEnd && item > 0 ==> dirty
    {
      if !foundEnd {
        if dirSector == x && dirOffset == item {
          foundEnd := true;
        }
      }
      if foundEnd {
        if remaining == 0 {
          PutSlot(secs, x, sector, item, short, slots, start, news);
          sector := WithSlot(sector, item, short);
          assert (news + [short])[..|news|] == news;
          news := news + [short];
          done := true;
          return;
        }
        remaining := remaining - 1;
        Lfn.FilenameToLfn(name, buffer, remaining, checksum);
        ghost var b := buffer[..];
        PutSlot(secs, x, sector, item, b, slots, start, news);
        LongSlotsNext(news, b, name, checksum, n);
        sector := WithSlot(sector, item, buffer[..]);
        news := news + [b];
        dirty := true;
      }
      item := item + 1;
    }
  }

  lemma MovedLinked(l: Layout, g: Volume, t: FatType, root: nat, d: seq<Sector>, e: seq<Sector>, f: seq<nat>,
                    chain: seq<nat>, b: nat)
    requires SameData(g, d, e) && l.spc > 0 && |chain| > 0 && chain[|chain| - 1] < |f| && b < |f|
    requires C.Grow(t, f, root, chain[|chain| - 1], 1) == C.Grown(true, C.Linked(t, f, chain[|chain| - 1], b), [b])
    ensures Moved(l, g, t, root, d, e, f, C.Linked(t, f, chain[|chain| - 1], b), chain, chain + [b])
  {
    C.ExtendedOnce(t, f, root, chain, 1);
    OnlyInSame(l, g, d, e, chain + [b]);
  }
}
