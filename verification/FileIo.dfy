// Byte input and output on an open file (fat_filelib.c:548-622, 806-918,
// 1011-1392), proved to refine a byte array with a cursor.
module FileIo {
  import opened Arith
  import opened Bytes
  import opened Sequences
  import opened FatWindows
  import opened FatEntries
  import opened FatTable
  import opened FileLayout
  import C = Chains

  // The fields of FL_FILE that reading and writing use. The chain of clusters
  // and the file's sectors, with the buffered one in place, are ghosts.
  class FlFile {
    const fs: FatFs
    const l: Layout
    var startCluster: nat
    var byteNum: nat
    var fileLength: nat
    var lengthChanged: bool
    var lookupIdx: nat
    var lookupCluster: nat
    var sector: Sector
    var address: nat
    var dirty: bool
    var canRead: bool
    var canWrite: bool
    var append: bool
    ghost var chain: seq<nat>
    ghost var secs: seq<Sector>

    // What _open_file leaves in the handle.
    constructor (fs: FatFs, l: Layout, start: nat, length: nat, canRead: bool, canWrite: bool, append: bool,
                 ghost chain: seq<nat>, ghost secs: seq<Sector>)
      ensures this.fs == fs && this.l == l && startCluster == start && fileLength == length && byteNum == 0
      ensures this.canRead == canRead && this.canWrite == canWrite && this.append == append
      ensures address == INVALID && !dirty && lookupIdx == INVALID && !lengthChanged
      ensures this.chain == chain && this.secs == secs
    {
      this.fs, this.l, startCluster, fileLength, byteNum := fs, l, start, length, 0;
      this.canRead, this.canWrite, this.append := canRead, canWrite, append;
      address, dirty, lengthChanged, sector := INVALID, false, false, Blank();
      lookupIdx, lookupCluster := INVALID, INVALID;
      this.chain, this.secs := chain, secs;
    }

    // The volume is mounted and holds the file's chain.
    ghost predicate Open()
      reads this`chain, this`startCluster, this`lookupIdx, this`lookupCluster, fs, fs.list
    {
      && fs.Poised() && |fs.flat| == |fs.disk| && Sound(l, fs.g, fs.fatType, |fs.disk|)
      && Fits(l, fs.g, fs.disk) && Below(l, chain)
      && Laid(l, fs.fatType, fs.Fat(), chain, startCluster, lookupIdx, lookupCluster)
    }

    // One step of a walk: fatfs_find_next_cluster of cluster i of the chain.
    method StepAlong(from: nat, ghost i: nat) returns (cluster: nat)
      requires Open() && i < |chain| && from == chain[i]
      modifies fs`head, fs`disk, fs`list, fs`views, fs.buffers
      ensures Open() && SameData(fs.g, old(fs.disk), fs.disk) && fs.flat == old(fs.flat)
      ensures if i + 1 < |chain| then cluster == chain[i + 1] != LAST_CLUSTER else cluster == LAST_CLUSTER
    {
      hide FatFs.Valid, Settled, Table, Laid, SameData, SameOutside, Below, Sound, FatFs.Spare;
      SoundSize();
      LaidAt(l, fs.fatType, fs.Fat(), chain, startCluster, lookupIdx, lookupCluster, i);
      if i + 1 < |chain| {
        LaidAt(l, fs.fatType, fs.Fat(), chain, startCluster, lookupIdx, lookupCluster, i + 1);
      }
      cluster := fs.NextSteady(from);
      SameOutsideIsSameData(fs.g, old(fs.disk), fs.disk);
      SameDataLength(fs.g, old(fs.disk), fs.disk);
    }

    lemma OpenStart()
      requires Open()
      ensures 0 < |chain| < LAST_CLUSTER && chain[0] == startCluster && fs.g.fatEnd <= |fs.disk|
      ensures lookupIdx == INVALID || (lookupIdx < |chain| && lookupCluster == chain[lookupIdx])
    {
      LaidStart(l, fs.fatType, fs.Fat(), chain, startCluster, lookupIdx, lookupCluster);
    }

    lemma SoundSize()
      requires Sound(l, fs.g, fs.fatType, |fs.disk|) && |fs.flat| == |fs.disk|
      ensures fs.g.fatBegin <= fs.g.fatEnd <= |fs.flat| && |fs.Fat()| < LAST_CLUSTER
    {
    }

    // The walk of _read_sectors: cluster idx of the chain, from the remembered
    // one when it is the one before.
    method FollowTo(idx: nat) returns (cluster: nat)
      requires Open() && idx <= |chain| && idx != lookupIdx
      modifies fs`head, fs`disk, fs`list, fs`views, fs.buffers
      ensures Open() && SameData(fs.g, old(fs.disk), fs.disk)
      ensures fs.flat == old(fs.flat)
      ensures cluster == if idx < |chain| then chain[idx] else LAST_CLUSTER
    {
      hide SameData, Open;
      OpenStart();
      SameDataSame(fs.g, fs.disk);
      var i: nat;
      if idx != 0 && idx == (lookupIdx + 1) % RANGE {
        i, cluster := lookupIdx, lookupCluster;
      } else {
        i, cluster := 0, startCluster;
      }
      while i < idx
        invariant i <= idx <= |chain| && Open() && fs.flat == old(fs.flat)
        invariant SameData(fs.g, old(fs.disk), fs.disk)
        invariant cluster == if i < |chain| then chain[i] else LAST_CLUSTER
      {
        label before:
        cluster := StepAlong(cluster, i);
        SameDataChain(fs.g, old(fs.disk), old@before(fs.disk), fs.disk);
        i := i + 1;
      }
    }

    // _read_sectors: sectors from offset on, no more than are left in its
    // cluster, none past the end of the chain.
    method ReadSectors(offset: nat, want: nat) returns (data: seq<Sector>)
      requires Open() && want >= 1 && offset <= Capacity(l, |chain|)
      modifies this`lookupIdx, this`lookupCluster, fs`head, fs`disk, fs`list, fs`views, fs.buffers
      ensures Open() && SameData(fs.g, old(fs.disk), fs.disk) && fs.flat == old(fs.flat)
      ensures OnDisk(l, fs.g, fs.disk, chain) == old(OnDisk(l, fs.g, fs.disk, chain))
      ensures offset == Capacity(l, |chain|) ==> data == []
      ensures offset < Capacity(l, |chain|) ==>
                && |data| == Min(want, l.spc - Within(l, offset))
                && offset + |data| <= Capacity(l, |chain|)
                && data == OnDisk(l, fs.g, fs.disk, chain)[offset..offset + |data|]
    {
      hide FatFs.Valid, Settled, Table, Laid, SameData, SameOutside, OnDisk, Below, Fits, Capacity, Lba;
      StartRead(offset);
      SameDataSame(fs.g, fs.disk);
      var idx := offset / l.spc;
      var s := offset - idx * l.spc;
      var count := if s + want > l.spc then l.spc - s else want;
      var cluster: nat;
      if idx == lookupIdx {
        cluster := lookupCluster;
      } else {
        cluster := FollowTo(idx);
        if cluster != LAST_CLUSTER {
          LaidLookup(l, fs.fatType, fs.Fat(), chain, startCluster, lookupIdx, lookupCluster, idx);
          lookupCluster := cluster;
          lookupIdx := idx;
        }
      }
      OnDiskFramed(l, fs.g, old(fs.disk), fs.disk, chain);
      if cluster == LAST_CLUSTER {
        return [];
      }
      ReadRun(l, fs.g, fs.disk, chain, offset, count);
      data := fs.SectorRead(Lba(l, cluster, s), count);
    }

    // What the operations since d, f and before have done to disk and table.
    ghost predicate Grew(d: seq<Sector>, f: seq<nat>, before: seq<nat>)
      reads this`chain, fs`flat, fs`disk
    {
      && fs.g.fatBegin <= fs.g.fatEnd <= |fs.flat|
      && Moved(l, fs.g, fs.fatType, fs.rootCluster, d, fs.disk, f, fs.Fat(), before, chain)
    }

    lemma GrewNot()
      requires Open()
      ensures Grew(fs.disk, fs.Fat(), chain)
    {
      OpenSize();
      SameDataSame(fs.g, fs.disk);
      MovedSame(l, fs.g, fs.fatType, fs.rootCluster, fs.disk, fs.disk, fs.Fat(), chain);
    }

    // Grew up to e, h and mid, and from there to now.
    lemma GrewOn(d: seq<Sector>, f: seq<nat>, before: seq<nat>, e: seq<Sector>, h: seq<nat>, mid: seq<nat>)
      requires Moved(l, fs.g, fs.fatType, fs.rootCluster, d, e, f, h, before, mid) && Grew(e, h, mid)
      ensures Grew(d, f, before)
    {
      MovedTwice(l, fs.g, fs.fatType, fs.rootCluster, d, e, fs.disk, f, h, fs.Fat(), before, mid, chain);
    }

    lemma GrewRead(d: seq<Sector>, f: seq<nat>, before: seq<nat>, e: seq<Sector>)
      requires Open() && Moved(l, fs.g, fs.fatType, fs.rootCluster, d, e, f, fs.Fat(), before, chain)
      requires SameData(fs.g, e, fs.disk)
      ensures Grew(d, f, before)
    {
      OpenSize();
      MovedSame(l, fs.g, fs.fatType, fs.rootCluster, e, fs.disk, fs.Fat(), chain);
      GrewOn(d, f, before, e, fs.Fat(), chain);
    }

    // Room for the file to reach total sectors.
    ghost predicate Reserve(total: nat)
      reads this`chain, fs`flat
    {
      && l.spc > 0 && fs.g.fatBegin <= fs.g.fatEnd <= |fs.flat|
      && C.Room(fs.fatType, fs.Fat(), fs.rootCluster, l.limit, Need(l, |chain|, total))
    }

    // The walk of _write_sectors, which also remembers the last good cluster.
    method FollowToEnd(idx: nat) returns (cluster: nat, last: nat)
      requires Open() && idx <= |chain| && idx != lookupIdx
      modifies fs`head, fs`disk, fs`list, fs`views, fs.buffers
      ensures Open() && SameData(fs.g, old(fs.disk), fs.disk)
      ensures fs.flat == old(fs.flat)
      ensures cluster == if idx < |chain| then chain[idx] else LAST_CLUSTER
      ensures idx == |chain| ==> last == chain[idx - 1]
    {
      hide SameData, Open;
      OpenStart();
      SameDataSame(fs.g, fs.disk);
      var i: nat;
      last := LAST_CLUSTER;
      if idx != 0 && idx == (lookupIdx + 1) % RANGE {
        i, cluster := lookupIdx, lookupCluster;
      } else {
        i, cluster := 0, startCluster;
      }
      while i < idx
        invariant i <= idx <= |chain| && Open() && fs.flat == old(fs.flat)
        invariant SameData(fs.g, old(fs.disk), fs.disk)
        invariant cluster == if i < |chain| then chain[i] else LAST_CLUSTER
        invariant i == |chain| ==> last == chain[i - 1]
      {
        label before:
        last := cluster;
        cluster := StepAlong(cluster, i);
        SameDataChain(fs.g, old(fs.disk), old@before(fs.disk), fs.disk);
        i := i + 1;
        if cluster == LAST_CLUSTER {
          break;
        }
      }
    }

    // Allocate the clusters that a run of want sectors at the end of the chain
    // asks for.
    method Extend(last: nat, want: nat, ghost total: nat) returns (ok: bool, first: nat)
      requires Open() && Reserve(total) && want > 0 && Capacity(l, |chain|) + want <= total
      requires |chain| > 0 && last == chain[|chain| - 1]
      modifies this`chain, fs`head, fs`disk, fs`list, fs`views, fs`flat, fs`nextFree, fs.buffers
      ensures ok && Open() && Reserve(total) && SameData(fs.g, old(fs.disk), fs.disk)
      ensures |old(chain)| < |chain| && chain[..|old(chain)|] == old(chain) && first == chain[|old(chain)|]
      ensures fs.g.fatBegin <= fs.g.fatEnd <= old(|fs.flat|) == |fs.flat|
      ensures C.Extended(fs.fatType, old(fs.Fat()), fs.Fat(), fs.rootCluster, old(chain), chain)
    {
      hide FatFs.Valid, Settled, Table, Laid, SameData, SameOutside, C.Grow, C.Room, C.Extended, Need, Capacity;
      ghost var f, n := fs.Fat(), Clusters(l, want);
      LaidAt(l, fs.fatType, f, chain, startCluster, lookupIdx, lookupCluster, |chain| - 1);
      ClustersSome(l, want);
      NeedFalls(l, |chain|, want, total);
      LaidGrows(l, fs.fatType, f, chain, startCluster, lookupIdx, lookupCluster, fs.rootCluster, n, Need(l, |chain|, total));
      C.ExtendedOnce(fs.fatType, f, fs.rootCluster, chain, n);
      ok, first := fs.AddFreeSpace(last, (want + l.spc - 1) / l.spc);
      SameDataLength(fs.g, old(fs.disk), fs.disk);
      chain := chain + C.Grow(fs.fatType, f, fs.rootCluster, last, n).added;
      LaidStart(l, fs.fatType, fs.Fat(), chain, startCluster, lookupIdx, lookupCluster);
    }

    // The first part of _write_sectors: find the cluster, growing the chain
    // when it ends there, and remember it.
    method Locate(idx: nat, offset: nat, want: nat, ghost total: nat) returns (ok: bool, cluster: nat)
      requires Open() && Reserve(total) && want > 0 && offset <= Capacity(l, |chain|) && offset + want <= total
      requires l.spc > 0 && idx == Index(l, offset)
      modifies this`lookupIdx, this`lookupCluster, this`chain
      modifies fs`head, fs`disk, fs`list, fs`views, fs`flat, fs`nextFree, fs.buffers
      ensures Open() && Reserve(total) && SameData(fs.g, old(fs.disk), fs.disk)
      ensures ok && old(chain) <= chain && idx < |chain| && cluster == chain[idx]
      ensures C.Extended(fs.fatType, old(fs.Fat()), fs.Fat(), fs.rootCluster, old(chain), chain)
    {
      hide FatFs.Valid, Settled, Table, Laid, SameData, SameOutside, Below, Fits, C.Room, C.Grow, C.Extended, Need;
      StartRead(offset);
      IndexParts(l, offset);
      hide Capacity, Within;
      C.NotExtended(fs.fatType, fs.Fat(), fs.rootCluster, chain);
      SameDataSame(fs.g, fs.disk);
      ok, cluster := true, lookupCluster;
      if idx != lookupIdx {
        var last: nat;
        cluster, last := FollowToEnd(idx);
        if cluster == LAST_CLUSTER {
          label walked:
          ok, cluster := Extend(last, want, total);
          SameDataChain(fs.g, old(fs.disk), old@walked(fs.disk), fs.disk);
        }
        if ok {
          LaidLookup(l, fs.fatType, fs.Fat(), chain, startCluster, lookupIdx, lookupCluster, idx);
          lookupCluster := cluster;
          lookupIdx := idx;
        }
      }
    }

    // _write_sectors: sectors from offset on, no more than are left in its
    // cluster, the chain growing first when offset is its end.
    method WriteSectors(offset: nat, data: seq<Sector>, ghost total: nat) returns (n: nat, ghost grown: seq<Sector>)
      requires Open() && Reserve(total) && |data| > 0 && offset <= Capacity(l, |chain|) && offset + |data| <= total
      modifies this`lookupIdx, this`lookupCluster, this`chain
      modifies fs`head, fs`disk, fs`list, fs`views, fs`flat, fs`nextFree, fs.buffers
      ensures Open() && Reserve(total)
      ensures n == Min(|data|, l.spc - Within(l, offset)) && n > 0
      ensures old(chain) <= chain
      ensures |grown| == Capacity(l, |chain|) && offset + n <= |grown|
      ensures old(OnDisk(l, fs.g, fs.disk, chain)) <= grown
      ensures OnDisk(l, fs.g, fs.disk, chain) == Overlaid(grown, offset, data[..n])
      ensures Grew(old(fs.disk), old(fs.Fat()), old(chain))
    {
      hide FatFs.Valid, Settled, Table, Laid, SameData, Below, Fits, Lba, C.Room, C.Extended, Need;
      StartRead(offset);
      var idx := offset / l.spc;
      var s := offset - idx * l.spc;
      var count := if s + |data| > l.spc then l.spc - s else |data|;
      var ok, cluster := Locate(idx, offset, |data|, total);
      n := 0;
      if ok {
        InsideNow(offset);
        Grown(old(fs.disk), old(chain), offset, data[..count]);
        grown := OnDisk(l, fs.g, fs.disk, chain);
        hide OnDisk, Capacity, OnlyIn, Overlaid;
        fs.SectorWrite(Lba(l, cluster, s), data[..count]);
        n := count;
      }
    }

    lemma InsideNow(offset: nat)
      requires l.spc > 0 && Index(l, offset) < |chain|
      ensures offset < Capacity(l, |chain|)
    {
      IndexBelow(l, offset, |chain|);
    }

    // What the sectors of the chain become when data is written at offset.
    lemma Grown(d: seq<Sector>, before: seq<nat>, offset: nat, data: seq<Sector>)
      requires Open() && SameData(fs.g, d, fs.disk) && before <= chain && Below(l, before) && Fits(l, fs.g, d)
      requires offset < Capacity(l, |chain|) && |data| > 0 && Within(l, offset) + |data| <= l.spc
      ensures OnDisk(l, fs.g, d, before) <= OnDisk(l, fs.g, fs.disk, chain)
      ensures Index(l, offset) < |chain| && offset + |data| <= Capacity(l, |chain|) && chain[Index(l, offset)] >= 2
      ensures var lba := Lba(l, chain[Index(l, offset)], Within(l, offset));
              && fs.g.fatEnd <= lba && lba + |data| <= |fs.disk|
              && Fits(l, fs.g, Overlaid(fs.disk, lba, data))
              && OnDisk(l, fs.g, Overlaid(fs.disk, lba, data), chain)
                 == Overlaid(OnDisk(l, fs.g, fs.disk, chain), offset, data)
              && OnlyIn(l, fs.g, d, Overlaid(fs.disk, lba, data), chain)
    {
      LaidStart(l, fs.fatType, fs.Fat(), chain, startCluster, lookupIdx, lookupCluster);
      assert chain == before + chain[|before|..];
      OnDiskFramed(l, fs.g, d, fs.disk, before);
      OnDiskPrefix(l, fs.g, fs.disk, before, chain[|before|..]);
      WriteReplaces(l, fs.g, fs.disk, chain, offset, data);
      OnlyInWrite(l, fs.g, fs.disk, d, chain, offset, data);
    }

    lemma StartRead(offset: nat)
      requires Open() && offset <= Capacity(l, |chain|)
      ensures l.spc > 0 && Index(l, offset) == offset / l.spc && Within(l, offset) == offset - offset / l.spc * l.spc
      ensures 0 < |chain| < LAST_CLUSTER && Index(l, offset) <= |chain|
      ensures lookupIdx == INVALID || (lookupIdx < |chain| && lookupCluster == chain[lookupIdx])
      ensures Index(l, offset) < |chain| <==> offset < Capacity(l, |chain|)
      ensures forall i | 0 <= i < |chain| :: 2 <= chain[i] < LAST_CLUSTER && chain[i] < |fs.Fat()|
      ensures fs.g.fatEnd <= |fs.disk|
    {
      IndexBelow(l, offset, |chain|);
      IndexParts(l, offset);
      LaidStart(l, fs.fatType, fs.Fat(), chain, startCluster, lookupIdx, lookupCluster);
    }

    // The handle's invariant: the user's view is the disk overlaid by the
    // dirty sector, it covers the length, and a dirty sector lies before the
    // cursor.
    ghost predicate Valid()
      reads this, fs, fs.list
    {
      && Open() && Cached(OnDisk(l, fs.g, fs.disk, chain), secs, sector, address, dirty)
      && Max(fileLength, byteNum) <= |secs| * SECTOR && Max(fileLength, byteNum) < RANGE
      && (dirty ==> address * SECTOR < byteNum)
    }

    // What the file says to its user.
    ghost function Bytes(): (b: seq<byte>)
      requires Max(fileLength, byteNum) <= |secs| * SECTOR
      reads this`fileLength, this`byteNum, this`secs
    {
      Contents(secs, Max(fileLength, byteNum))
    }

    // Room to reach total sectors, which is enough to flush.
    ghost predicate Ample(total: nat)
      reads this`chain, this`dirty, this`address, fs`flat
    {
      Reserve(total) && (dirty ==> address < total)
    }

    lemma OpenSize()
      requires Open()
      ensures fs.g.fatBegin <= fs.g.fatEnd <= |fs.flat| == |fs.disk|
      ensures l.spc > 0 && Fits(l, fs.g, fs.disk) && Below(l, chain) && |chain| > 0 && chain[|chain| - 1] < |fs.Fat()|
      ensures |OnDisk(l, fs.g, fs.disk, chain)| == Capacity(l, |chain|)
    {
      LaidStart(l, fs.fatType, fs.Fat(), chain, startCluster, lookupIdx, lookupCluster);
    }

    // fl_fflush.
    method Flush(ghost total: nat)
      requires Valid() && Ample(total)
      modifies this`lookupIdx, this`lookupCluster, this`chain, this`dirty, this`secs
      modifies fs`head, fs`disk, fs`list, fs`views, fs`flat, fs`nextFree, fs.buffers
      ensures Valid() && !dirty && Reserve(total) && old(secs) <= secs
      ensures Grew(old(fs.disk), old(fs.Fat()), old(chain))
    {
      hide Open, Reserve, OnDisk, Moved, Fits, Below, Capacity, SameData;
      OpenSize();
      GrewNot();
      if dirty {
        ghost var d := OnDisk(l, fs.g, fs.disk, chain);
        var n, grown := WriteSectors(address, [sector], total);
        if n != 0 {
          dirty := false;
        }
        assert [sector][..n] == [sector];
        FlushedCached(d, secs, sector, address, grown);
        OpenSize();
        secs := OnDisk(l, fs.g, fs.disk, chain);
      }
    }

    // The whole-sector branch of fl_fread: from the media, past the buffer.
    method ReadWholeStep(sectorNo: nat, want: nat) returns (got: nat, data: seq<byte>)
      requires Valid() && byteNum == sectorNo * SECTOR && want >= SECTOR && byteNum + want <= fileLength
      modifies this`lookupIdx, this`lookupCluster, this`byteNum, fs`head, fs`disk, fs`list, fs`views, fs.buffers
      ensures Valid() && SameData(fs.g, old(fs.disk), fs.disk) && fs.flat == old(fs.flat)
      ensures 0 < |data| == got * SECTOR <= want && byteNum == old(byteNum) + |data|
      ensures data == old(Bytes())[old(byteNum)..byteNum] && Bytes() == old(Bytes())
    {
      hide Open, OnDisk, Fits, Below, Capacity, SameData, Contents, Joined;
      OpenSize();
      ghost var d := OnDisk(l, fs.g, fs.disk, chain);
      CachedAt(d, secs, sector, address, dirty);
      var sectors := ReadSectors(sectorNo, want / SECTOR);
      got := |sectors|;
      data := Joined(sectors);
      assert sectors == secs[sectorNo..sectorNo + got];
      ReadWhole(secs, fileLength, sectorNo, got);
      byteNum := byteNum + got * SECTOR;
    }

    // The buffered branch of fl_fread and the same lines of fl_fwrite: make the
    // buffer hold sector sectorNo of the file.
    method Load(sectorNo: nat, ghost total: nat) returns (ok: bool)
      requires Valid() && Ample(total) && sectorNo * SECTOR < fileLength
      requires sectorNo * SECTOR <= byteNum <= fileLength
      modifies this`lookupIdx, this`lookupCluster, this`chain, this`dirty, this`secs, this`address, this`sector
      modifies fs`head, fs`disk, fs`list, fs`views, fs`flat, fs`nextFree, fs.buffers
      ensures ok && Valid() && Reserve(total) && old(secs) <= secs
      ensures address == sectorNo < |secs| && secs[sectorNo] == sector && (dirty ==> address < total)
      ensures !old(dirty) ==> !dirty
      ensures Grew(old(fs.disk), old(fs.Fat()), old(chain))
    {
      hide Open, Reserve, OnDisk, Moved, Fits, Below, Capacity, SameData;
      OpenSize();
      GrewNot();
      CachedAt(OnDisk(l, fs.g, fs.disk, chain), secs, sector, address, dirty);
      ok := true;
      if address != sectorNo {
        if dirty {
          Flush(total);
        }
        OpenSize();
        label flushed:
        var r := ReadSectors(sectorNo, 1);
        GrewRead(old(fs.disk), old(fs.Fat()), old(chain), old@flushed(fs.disk));
        ok := |r| != 0;
        if ok {
          sector := r[0];
          address := sectorNo;
          dirty := false;
        }
      }
    }

    // One turn of the buffered branch of fl_fread.
    method ReadPartStep(sectorNo: nat, offset: nat, want: nat, ghost total: nat) returns (ok: bool, data: seq<byte>)
      requires Valid() && Ample(total) && byteNum == sectorNo * SECTOR + offset && offset < SECTOR
      requires 0 < want && byteNum + want <= fileLength
      modifies this`lookupIdx, this`lookupCluster, this`chain, this`dirty, this`secs, this`address, this`sector, this`byteNum
      modifies fs`head, fs`disk, fs`list, fs`views, fs`flat, fs`nextFree, fs.buffers
      ensures ok && Valid() && Ample(total) && Grew(old(fs.disk), old(fs.Fat()), old(chain))
      ensures |data| == Min(SECTOR - offset, want) && byteNum == old(byteNum) + |data| && (!old(dirty) ==> !dirty)
      ensures Bytes() == old(Bytes()) && data == Bytes()[old(byteNum)..byteNum]
    {
      hide Open, Reserve, OnDisk, Grew, Contents;
      ok := Load(sectorNo, total);
      data := [];
      if ok {
        var copyCount := SECTOR - offset;
        if copyCount > want {
          copyCount := want;
        }
        data := sector[offset..offset + copyCount];
        ContentsPrefix(old(secs), secs, fileLength);
        ReadSlices(secs, fileLength, sectorNo, offset, copyCount);
        byteNum := byteNum + copyCount;
      }
    }

    // One turn of the loop of fl_fread.
    method ReadTurn(sectorNo: nat, offset: nat, want: nat, ghost total: nat) returns (ok: bool, data: seq<byte>, next: nat)
      requires Valid() && Ample(total) && byteNum == sectorNo * SECTOR + offset && offset < SECTOR
      requires 0 < want && byteNum + want <= fileLength
      modifies this`lookupIdx, this`lookupCluster, this`chain, this`dirty, this`secs, this`address, this`sector, this`byteNum
      modifies fs`head, fs`disk, fs`list, fs`views, fs`flat, fs`nextFree, fs.buffers
      ensures ok && Valid() && Ample(total) && Grew(old(fs.disk), old(fs.Fat()), old(chain)) && (!old(dirty) ==> !dirty)
      ensures 0 < |data| <= want && byteNum == old(byteNum) + |data| && (|data| < want ==> byteNum == next * SECTOR)
      ensures Bytes() == old(Bytes()) && data == Bytes()[old(byteNum)..byteNum]
    {
      hide Open, Ample, Reserve, Moved, Contents, Cached, OnDisk, Valid;
      Opened();
      GrewNot();
      ok := true;
      if offset == 0 && want >= SECTOR {
        var got;
        got, data := ReadWholeStep(sectorNo, want);
        Opened();
        GrewRead(old(fs.disk), old(fs.Fat()), old(chain), old(fs.disk));
        next := sectorNo + got;
      } else {
        ok, data := ReadPartStep(sectorNo, offset, want, total);
        next := sectorNo + 1;
      }
      Opened();
    }

    // The loop of fl_fread.
    method ReadLoop(n: nat, ghost total: nat) returns (data: seq<byte>)
      requires Valid() && Ample(total) && byteNum + n <= fileLength
      modifies this`lookupIdx, this`lookupCluster, this`chain, this`dirty, this`secs, this`address, this`sector, this`byteNum
      modifies fs`head, fs`disk, fs`list, fs`views, fs`flat, fs`nextFree, fs.buffers
      ensures Valid() && Ample(total) && Grew(old(fs.disk), old(fs.Fat()), old(chain)) && (!old(dirty) ==> !dirty)
      ensures byteNum == old(byteNum) + n && Bytes() == old(Bytes()) && data == Bytes()[old(byteNum)..byteNum]
    {
      hide Open, Ample, Reserve, Moved, Contents, Cached, OnDisk, Valid;
      Opened();
      data := [];
      GrewNot();
      var sectorNo: nat, offset: nat := byteNum / SECTOR, byteNum % SECTOR;
      ghost var b, pos := Bytes(), byteNum;
      while |data| < n
        invariant Valid() && Ample(total) && Grew(old(fs.disk), old(fs.Fat()), old(chain))
        invariant Max(fileLength, byteNum) <= |secs| * SECTOR && Bytes() == b && (!old(dirty) ==> !dirty)
        invariant |data| <= n && byteNum == pos + |data| && pos + n <= fileLength && data == b[pos..byteNum]
        invariant |data| < n ==> byteNum == sectorNo * SECTOR + offset && offset < SECTOR
        decreases n - |data|
      {
        label before:
        var ok, more;
        ok, more, sectorNo := ReadTurn(sectorNo, offset, n - |data|, total);
        offset := 0;
        Opened();
        GrewOn(old(fs.disk), old(fs.Fat()), old(chain), old@before(fs.disk), old@before(fs.Fat()), old@before(chain));
        if !ok {
          break;
        }
        data := data + more;
      }
    }

    // fl_fread of count bytes.
    method FRead(count: nat, ghost total: nat) returns (res: int, data: seq<byte>)
      requires Valid() && Ample(total) && byteNum <= fileLength && byteNum + count < RANGE
      modifies this`lookupIdx, this`lookupCluster, this`chain, this`dirty, this`secs, this`address, this`sector, this`byteNum
      modifies fs`head, fs`disk, fs`list, fs`views, fs`flat, fs`nextFree, fs.buffers
      ensures Valid() && Ample(total) && Grew(old(fs.disk), old(fs.Fat()), old(chain))
      ensures byteNum <= fileLength && Bytes() == old(Bytes()) && (!old(dirty) ==> !dirty)
      ensures (res, data, byteNum) == ReadAt(Bytes(), old(byteNum), canRead, count)
      ensures canRead && count > 0 && old(byteNum) < fileLength ==>
                && res == |data| == (if count <= fileLength - old(byteNum) then count else fileLength - old(byteNum))
                && byteNum == old(byteNum) + |data| && data == Bytes()[old(byteNum)..byteNum]
      ensures !canRead || count == 0 || old(byteNum) == fileLength ==>
                res == (if canRead && count == 0 then 0 else -1) && data == [] && byteNum == old(byteNum)
    {
      hide Open, Ample, Reserve, Moved, Contents, Cached, OnDisk, Valid;
      Opened();
      GrewNot();
      if !canRead {
        return -1, [];
      }
      if count == 0 {
        return 0, [];
      }
      if byteNum >= fileLength {
        return -1, [];
      }
      var n := if byteNum + count > fileLength then fileLength - byteNum else count;
      data := ReadLoop(n, total);
      Opened();
      res := |data|;
    }

    // Flush the buffer and forget what it holds.
    method Drop(ghost total: nat)
      requires Valid() && Ample(total)
      modifies this`lookupIdx, this`lookupCluster, this`chain, this`dirty, this`secs, this`address
      modifies fs`head, fs`disk, fs`list, fs`views, fs`flat, fs`nextFree, fs.buffers
      ensures Valid() && Reserve(total) && address == INVALID && !dirty && old(secs) <= secs
      ensures Grew(old(fs.disk), old(fs.Fat()), old(chain))
    {
      hide Open, Reserve, OnDisk, Moved;
      GrewNot();
      if dirty {
        Flush(total);
      }
      address := INVALID;
      dirty := false;
    }

    // Whole sectors straight to the media, the buffer being empty.
    method Direct(sectorNo: nat, data: seq<byte>, ghost total: nat) returns (wrote: nat)
      requires Valid() && Reserve(total) && address == INVALID && !dirty && byteNum == sectorNo * SECTOR
      requires |data| >= SECTOR && sectorNo + |data| / SECTOR <= total && byteNum + |data| < RANGE
      modifies this`lookupIdx, this`lookupCluster, this`chain, this`secs, this`byteNum
      modifies fs`head, fs`disk, fs`list, fs`views, fs`flat, fs`nextFree, fs.buffers
      ensures Valid() && Reserve(total) && Grew(old(fs.disk), old(fs.Fat()), old(chain))
      ensures 0 < wrote * SECTOR <= |data| && byteNum == old(byteNum) + wrote * SECTOR
      ensures Bytes() == Splice(old(Bytes()), old(byteNum), data[..wrote * SECTOR])
    {
      hide Open, Reserve, OnDisk, Grew, Contents, Fits, Below, Capacity, Splice, Overlaid, AsSectors, Cached;
      OpenSize();
      CachedAt(OnDisk(l, fs.g, fs.disk, chain), secs, sector, address, dirty);
      var count := |data| / SECTOR;
      ghost var n, grown := Max(fileLength, byteNum), [];
      wrote, grown := WriteSectors(sectorNo, AsSectors(data, count), total);
      WholeSplices(secs, grown, n, sectorNo, data, count, wrote);
      OpenSize();
      secs := OnDisk(l, fs.g, fs.disk, chain);
      LoadedCached(secs, 0, sector);
      byteNum := byteNum + SECTOR * wrote;
    }

    // The whole-sector branch of fl_fwrite: the buffer is flushed and dropped,
    // and sectors go straight to the media.
    method WriteWholeStep(sectorNo: nat, data: seq<byte>, ghost total: nat) returns (wrote: nat)
      requires Valid() && Ample(total) && byteNum == sectorNo * SECTOR && |data| >= SECTOR
      requires sectorNo + |data| / SECTOR <= total && byteNum + |data| < RANGE
      modifies this`lookupIdx, this`lookupCluster, this`chain, this`dirty, this`secs, this`address, this`byteNum
      modifies fs`head, fs`disk, fs`list, fs`views, fs`flat, fs`nextFree, fs.buffers
      ensures Valid() && Ample(total) && Grew(old(fs.disk), old(fs.Fat()), old(chain))
      ensures 0 < wrote * SECTOR <= |data| && byteNum == old(byteNum) + wrote * SECTOR
      ensures Bytes() == Splice(old(Bytes()), old(byteNum), data[..wrote * SECTOR])
    {
      hide Reserve, Moved, Contents, Splice, Valid;
      Opened();
      GrewNot();
      if address != INVALID {
        Drop(total);
      }
      ContentsPrefix(old(secs), secs, Max(fileLength, byteNum));
      label flushed:
      wrote := Direct(sectorNo, data, total);
      GrewOn(old(fs.disk), old(fs.Fat()), old(chain), old@flushed(fs.disk), old@flushed(fs.Fat()), old@flushed(chain));
    }

    lemma Opened()
      requires Valid()
      ensures Open() && Max(fileLength, byteNum) <= |secs| * SECTOR && Max(fileLength, byteNum) < RANGE
      ensures dirty ==> address * SECTOR < byteNum
      ensures address == INVALID ==> !dirty
    {
    }

    // Make the buffer ready for bytes at sector sectorNo: flush what it holds,
    // and read the sector unless it is the one past the end.
    method Prepare(sectorNo: nat, copyCount: nat, ghost total: nat)
      requires Valid() && Ample(total) && sectorNo * SECTOR <= byteNum && copyCount < SECTOR
      requires address != sectorNo && byteNum < sectorNo * SECTOR + SECTOR
      modifies this`lookupIdx, this`lookupCluster, this`chain, this`dirty, this`secs, this`address, this`sector
      modifies fs`head, fs`disk, fs`list, fs`views, fs`flat, fs`nextFree, fs.buffers
      ensures Open() && Reserve(total) && Grew(old(fs.disk), old(fs.Fat()), old(chain))
      ensures address == sectorNo <= |secs| && !dirty && (sectorNo < |secs| ==> secs[sectorNo] == sector)
      ensures old(secs) <= secs && secs == OnDisk(l, fs.g, fs.disk, chain)
    {
      hide Open, Reserve, OnDisk, Moved, Fits, Below, Capacity, SameData;
      GrewNot();
      OpenSize();
      CachedAt(OnDisk(l, fs.g, fs.disk, chain), secs, sector, address, dirty);
      if dirty {
        Flush(total);
      }
      OpenSize();
      label flushed:
      if copyCount != SECTOR {
        var r := ReadSectors(sectorNo, 1);
        GrewRead(old(fs.disk), old(fs.Fat()), old(chain), old@flushed(fs.disk));
        if |r| == 0 {
          sector := Blank();
        } else {
          sector := r[0];
        }
      }
      address := sectorNo;
      dirty := false;
    }

    // memcpy into the buffer, which holds sector sectorNo or stands just past
    // the end.
    method Patch(sectorNo: nat, offset: nat, data: seq<byte>)
      requires Open() && address == sectorNo <= |secs| && (sectorNo < |secs| ==> secs[sectorNo] == sector)
      requires Cached(OnDisk(l, fs.g, fs.disk, chain), secs, sector, sectorNo, dirty)
            || (!dirty && secs == OnDisk(l, fs.g, fs.disk, chain))
      requires byteNum == sectorNo * SECTOR + offset && 0 < |data| && offset + |data| <= SECTOR
      requires Max(fileLength, byteNum) <= |secs| * SECTOR && Max(fileLength, byteNum + |data|) < RANGE
      modifies this`sector, this`dirty, this`secs, this`byteNum
      ensures Valid() && dirty && address == sectorNo && byteNum == old(byteNum) + |data|
      ensures Bytes() == Splice(old(Bytes()), old(byteNum), data)
    {
      hide Open, OnDisk, Contents, Splice, Touched, Patched, Cached;
      OpenSize();
      ghost var n, s := Max(fileLength, byteNum), Patched(sector, offset, data);
      PatchCached(OnDisk(l, fs.g, fs.disk, chain), secs, sector, sectorNo, dirty, s);
      TouchedSplices(secs, n, sectorNo, sector, offset, data);
      secs := Touched(secs, sectorNo, s);
      sector := Patched(sector, offset, data);
      dirty := true;
      byteNum := byteNum + |data|;
    }

    lemma PatchCached(d: seq<Sector>, secs: seq<Sector>, sector: Sector, k: nat, dirty: bool, s: Sector)
      requires k <= |secs| && k < INVALID
      requires Cached(d, secs, sector, k, dirty) || (!dirty && secs == d)
      ensures Cached(d, Touched(secs, k, s), s, k, true)
    {
    }

    // The buffered branch of fl_fwrite.
    method WritePartStep(sectorNo: nat, offset: nat, data: seq<byte>, ghost total: nat) returns (copyCount: nat)
      requires Valid() && Ample(total) && byteNum == sectorNo * SECTOR + offset && offset < SECTOR
      requires |data| > 0 && (offset > 0 || |data| < SECTOR) && byteNum + |data| < RANGE && sectorNo < total
      modifies this`lookupIdx, this`lookupCluster, this`chain, this`dirty, this`secs, this`address, this`sector, this`byteNum
      modifies fs`head, fs`disk, fs`list, fs`views, fs`flat, fs`nextFree, fs.buffers
      ensures Valid() && Ample(total) && Grew(old(fs.disk), old(fs.Fat()), old(chain))
      ensures copyCount == Min(SECTOR - offset, |data|) && byteNum == old(byteNum) + copyCount
      ensures Bytes() == Splice(old(Bytes()), old(byteNum), data[..copyCount])
    {
      hide Reserve, Grew, Contents, Splice, Valid, Open, Cached, OnDisk;
      Opened();
      Holding();
      GrewNot();
      copyCount := SECTOR - offset;
      if copyCount > |data| {
        copyCount := |data|;
      }
      if address != sectorNo {
        Prepare(sectorNo, copyCount, total);
        ContentsPrefix(old(secs), secs, Max(fileLength, byteNum));
      }
      Patch(sectorNo, offset, data[..copyCount]);
    }

    lemma Holding()
      requires Valid()
      ensures Open() && fs.g.fatBegin <= fs.g.fatEnd <= |fs.flat| && Fits(l, fs.g, fs.disk) && Below(l, chain)
      ensures Cached(OnDisk(l, fs.g, fs.disk, chain), secs, sector, address, dirty)
      ensures dirty || address != INVALID ==> address < |secs| && secs[address] == sector
    {
      OpenSize();
      CachedAt(OnDisk(l, fs.g, fs.disk, chain), secs, sector, address, dirty);
    }

    // One turn of the loop of fl_fwrite.
    method WriteTurn(sectorNo: nat, offset: nat, rest: seq<byte>, ghost total: nat) returns (n: nat, next: nat)
      requires Valid() && Ample(total) && byteNum == sectorNo * SECTOR + offset && offset < SECTOR
      requires |rest| > 0 && byteNum + |rest| < RANGE && byteNum + |rest| <= total * SECTOR
      modifies this`lookupIdx, this`lookupCluster, this`chain, this`dirty, this`secs, this`address, this`sector, this`byteNum
      modifies fs`head, fs`disk, fs`list, fs`views, fs`flat, fs`nextFree, fs.buffers
      ensures Valid() && Ample(total) && Grew(old(fs.disk), old(fs.Fat()), old(chain))
      ensures 0 < n <= |rest| && byteNum == old(byteNum) + n && (n < |rest| ==> byteNum == next * SECTOR)
      ensures Bytes() == Splice(old(Bytes()), old(byteNum), rest[..n])
    {
      hide Open, Ample, Reserve, Moved, Grew, Contents, Splice, Cached, OnDisk, Valid;
      Opened();
      if offset == 0 && |rest| >= SECTOR {
        var wrote := WriteWholeStep(sectorNo, rest, total);
        n := wrote * SECTOR;
        next := sectorNo + wrote;
      } else {
        n := WritePartStep(sectorNo, offset, rest, total);
        next := sectorNo + 1;
      }
    }

    // The loop of fl_fwrite.
    method WriteLoop(data: seq<byte>, ghost total: nat)
      requires Valid() && Ample(total) && byteNum <= fileLength
      requires fileLength + |data| < RANGE && fileLength + |data| <= total * SECTOR
      modifies this`lookupIdx, this`lookupCluster, this`chain, this`dirty, this`secs, this`address, this`sector, this`byteNum
      modifies fs`head, fs`disk, fs`list, fs`views, fs`flat, fs`nextFree, fs.buffers
      ensures Valid() && Ample(total) && Grew(old(fs.disk), old(fs.Fat()), old(chain))
      ensures byteNum == old(byteNum) + |data| && Bytes() == Splice(old(Bytes()), old(byteNum), data)
    {
      hide Open, Reserve, Ample, Moved, Contents, Splice, Cached, OnDisk, Valid;
      Opened();
      GrewNot();
      var written: nat := 0;
      var sectorNo: nat, offset: nat := byteNum / SECTOR, byteNum % SECTOR;
      ghost var b, pos := Bytes(), byteNum;
      SpliceNothing(b, pos);
      while written < |data|
        invariant Valid() && Ample(total) && Grew(old(fs.disk), old(fs.Fat()), old(chain))
        invariant Max(fileLength, byteNum) <= |secs| * SECTOR
        invariant written <= |data| && byteNum == pos + written && pos <= |b|
        invariant Bytes() == Splice(b, pos, data[..written])
        invariant written < |data| ==> byteNum == sectorNo * SECTOR + offset && offset < SECTOR
        decreases |data| - written
      {
        label before:
        var n;
        n, sectorNo := WriteTurn(sectorNo, offset, data[written..], total);
        offset := 0;
        Opened();
        SpliceOn(b, pos, data, written, n);
        GrewOn(old(fs.disk), old(fs.Fat()), old(chain), old@before(fs.disk), old@before(fs.Fat()), old@before(chain));
        written := written + n;
        if n == 0 {
          break;
        }
      }
      assert data[..written] == data;
    }

    // fl_fwrite of data.
    method FWrite(data: seq<byte>, ghost total: nat) returns (res: int)
      requires Valid() && Ample(total) && byteNum <= fileLength
      requires fileLength + |data| < RANGE && fileLength + |data| <= total * SECTOR
      modifies this`lookupIdx, this`lookupCluster, this`chain, this`dirty, this`secs, this`address, this`sector
      modifies this`byteNum, this`fileLength, this`lengthChanged
      modifies fs`head, fs`disk, fs`list, fs`views, fs`flat, fs`nextFree, fs.buffers
      ensures Valid() && Ample(total) && Grew(old(fs.disk), old(fs.Fat()), old(chain)) && byteNum <= fileLength
      ensures (res, Bytes(), byteNum) == WriteAt(old(Bytes()), old(byteNum), canWrite, append, data)
      ensures !canWrite ==> res == -1 && Bytes() == old(Bytes()) && byteNum == old(byteNum)
      ensures canWrite ==> res == |data|
      ensures canWrite && append ==> Bytes() == old(Bytes()) + data && byteNum == fileLength
      ensures canWrite && !append ==> Replaces(old(Bytes()), old(byteNum), data, Bytes(), byteNum)
      ensures lengthChanged == (old(lengthChanged) || fileLength > old(fileLength))
    {
      hide Open, Reserve, Ample, Moved, Contents, Splice, Cached, OnDisk, Valid, Replaces;
      Opened();
      GrewNot();
      Written(Bytes(), byteNum, canWrite, append, data);
      if !canWrite {
        return -1;
      }
      if append {
        MoveToEnd();
      }
      WriteLoop(data, total);
      Lengthen();
      res := |data|;
    }

    // Append writes to the end of the file.
    method MoveToEnd()
      requires Valid() && byteNum <= fileLength
      modifies this`byteNum
      ensures Valid() && byteNum == fileLength && Bytes() == old(Bytes())
    {
      hide Open, OnDisk, Cached, Contents, Fits, Below;
      byteNum := fileLength;
    }

    // The length follows the cursor past the old end.
    method Lengthen()
      requires Valid()
      modifies this`fileLength, this`lengthChanged
      ensures Valid() && Bytes() == old(Bytes()) && fileLength == Max(old(fileLength), byteNum)
      ensures lengthChanged == (old(lengthChanged) || fileLength > old(fileLength))
    {
      hide Open, OnDisk, Cached, Contents, Fits, Below;
      if byteNum > fileLength {
        fileLength := byteNum;
        lengthChanged := true;
      }
    }

    lemma SpliceNothing(b: seq<byte>, pos: nat)
      requires pos <= |b|
      ensures Splice(b, pos, []) == b
    {
    }

    lemma SpliceOn(b: seq<byte>, pos: nat, data: seq<byte>, k: nat, n: nat)
      requires pos <= |b| && k + n <= |data|
      ensures pos + k <= |Splice(b, pos, data[..k])| && n <= |data[k..]|
      ensures Splice(Splice(b, pos, data[..k]), pos + k, data[k..][..n]) == Splice(b, pos, data[..k + n])
    {
      SpliceTwice(b, pos, data[..k], data[k..][..n]);
      assert data[..k] + data[k..][..n] == data[..k + n];
    }

    // The file's sectors on disk, without the buffer.
    ghost function Stored(): seq<Sector>
      requires Fits(l, fs.g, fs.disk) && Below(l, chain)
      reads this`chain, fs`disk
    {
      OnDisk(l, fs.g, fs.disk, chain)
    }

    lemma Dropped()
      requires Valid()
      ensures fs.g.fatBegin <= fs.g.fatEnd <= |fs.flat| && Fits(l, fs.g, fs.disk) && Below(l, chain)
      ensures Cached(OnDisk(l, fs.g, fs.disk, chain), OnDisk(l, fs.g, fs.disk, chain), sector, INVALID, false)
      ensures !dirty ==> secs == OnDisk(l, fs.g, fs.disk, chain)
    {
      OpenSize();
    }

    // fl_fseek: the cursor moves inside the file and the buffer is dropped,
    // dirty or not. What is left is the file as it is on disk: with a clean
    // buffer the same contents, with a dirty one those without its bytes, and
    // no longer a whole file when they were past the end of the chain.
    method FSeek(offset: int, origin: nat) returns (res: int)
      requires Valid() && byteNum <= fileLength && -0x8000_0000 <= offset < 0x8000_0000
      modifies this`address, this`dirty, this`byteNum, this`secs
      ensures byteNum <= fileLength && (res, byteNum) == SeekTo(fileLength, old(byteNum), offset, origin)
      ensures origin == SEEK_SET && 0 <= offset <= fileLength ==> res == 0 && byteNum == offset
      ensures origin == SEEK_CUR && 0 <= old(byteNum) + offset <= fileLength ==> res == 0 && byteNum == old(byteNum) + offset
      ensures origin == SEEK_END && offset == 0 ==> res == 0 && byteNum == fileLength
      ensures origin == SEEK_END && offset != 0 ==> res == -1 && byteNum == old(byteNum)
      ensures origin == SEEK_END && offset != 0 ==> Valid() && dirty == old(dirty) && secs == old(secs)
      ensures !(origin == SEEK_END && offset != 0) ==> !dirty && secs == old(Stored())
      ensures !(origin == SEEK_END && offset != 0) ==> (Valid() <==> fileLength <= |old(Stored())| * SECTOR)
      ensures !old(dirty) ==> Valid() && !dirty && Bytes() == old(Bytes())
    {
      hide Open, Contents, Cached, OnDisk, Fits, Below, SeekTo;
      Dropped();
      SeekLands(fileLength, byteNum, offset, origin);
      if origin == SEEK_END && offset != 0 {
        RefusedSeek(fileLength, byteNum, offset);
        return -1;
      }
      address := INVALID;
      dirty := false;
      secs := Stored();
      res := MoveCursor(offset, origin);
    }

    lemma RefusedSeek(n: nat, pos: nat, offset: int)
      requires pos <= n && offset != 0
      ensures SeekTo(n, pos, offset, SEEK_END) == (-1, pos)
    {
    }

    // The three origins of fl_fseek.
    method MoveCursor(offset: int, origin: nat) returns (res: int)
      requires byteNum <= fileLength < RANGE && -0x8000_0000 <= offset < 0x8000_0000
      requires !(origin == SEEK_END && offset != 0)
      modifies this`byteNum
      ensures byteNum <= fileLength && (res, byteNum) == SeekTo(fileLength, old(byteNum), offset, origin)
    {
      res := -1;
      if origin == SEEK_SET {
        byteNum := offset % RANGE;
        if byteNum > fileLength {
          byteNum := fileLength;
        }
        res := 0;
      } else if origin == SEEK_CUR {
        if offset >= 0 {
          byteNum := (byteNum + offset) % RANGE;
          if byteNum > fileLength {
            byteNum := fileLength;
          }
        } else {
          if -offset > byteNum {
            byteNum := 0;
          } else {
            byteNum := byteNum + offset;
          }
        }
        res := 0;
      } else if origin == SEEK_END {
        byteNum := fileLength;
        res := 0;
      }
    }

    // ---------------------------------------------------------- whole runs

    ghost function State(): (s: FileState)
      requires Max(fileLength, byteNum) <= |secs| * SECTOR && byteNum <= fileLength
      reads this`fileLength, this`byteNum, this`secs
      ensures s.pos <= |s.bytes|
    {
      FileState(Bytes(), byteNum)
    }

    // One call.
    method Call(op: Op, ghost total: nat) returns (reply: Reply)
      requires Valid() && Ample(total) && byteNum <= fileLength && Allowed(op, fileLength, !dirty)
      requires LengthAfter(fileLength, op) <= total * SECTOR
      modifies this`lookupIdx, this`lookupCluster, this`chain, this`dirty, this`secs, this`address, this`sector
      modifies this`byteNum, this`fileLength, this`lengthChanged
      modifies fs`head, fs`disk, fs`list, fs`views, fs`flat, fs`nextFree, fs.buffers
      ensures Valid() && Ample(total) && byteNum <= fileLength
      ensures Grew(old(fs.disk), old(fs.Fat()), old(chain))
      ensures (State(), reply) == Step(old(State()), op, canRead, canWrite, append)
      ensures CleanAfter(op, !old(dirty)) ==> !dirty
    {
      hide Open, Reserve, Moved, Contents, Splice, Cached, OnDisk, Valid;
      Opened();
      GrewNot();
      match op
      case Read(count) =>
        var res, data := FRead(count, total);
        reply := Reply(res, data);
      case Write(data) =>
        var res := FWrite(data, total);
        reply := Reply(res, []);
      case Flush =>
        Flush(total);
        Opened();
        ContentsPrefix(old(secs), secs, fileLength);
        reply := Reply(0, []);
      case Seek(offset, origin) =>
        var res := FSeek(offset, origin);
        reply := Reply(res, []);
      Opened();
    }

    // Every run of reads, writes, flushes and seeks behaves as the same calls
    // on a byte array with a cursor, and touches no other file.
    method Run(ops: seq<Op>, ghost total: nat) returns (replies: seq<Reply>)
      requires Valid() && Ample(total) && byteNum <= fileLength && Polite(ops, fileLength, !dirty, total)
      modifies this`lookupIdx, this`lookupCluster, this`chain, this`dirty, this`secs, this`address, this`sector
      modifies this`byteNum, this`fileLength, this`lengthChanged
      modifies fs`head, fs`disk, fs`list, fs`views, fs`flat, fs`nextFree, fs.buffers
      ensures Valid() && Ample(total) && byteNum <= fileLength
      ensures Grew(old(fs.disk), old(fs.Fat()), old(chain))
      ensures (State(), replies) == Replay(old(State()), ops, canRead, canWrite, append)
      decreases |ops|
    {
      hide Open, Ample, Reserve, Moved, Contents, Splice, Cached, OnDisk, Valid, Step;
      Opened();
      GrewNot();
      if ops == [] {
        return [];
      }
      var first := Call(ops[0], total);
      Opened();
      StepLength(old(State()), ops[0], canRead, canWrite, append);
      PoliteMonotone(ops[1..], LengthAfter(old(fileLength), ops[0]), fileLength, CleanAfter(ops[0], !old(dirty)), !dirty, total);
      label called:
      var rest := Run(ops[1..], total);
      GrewOn(old(fs.disk), old(fs.Fat()), old(chain), old@called(fs.disk), old@called(fs.Fat()), old@called(chain));
      replies := [first] + rest;
    }
  }

  datatype Op = Read(count: nat) | Write(data: seq<byte>) | Flush | Seek(offset: int, origin: nat)

  datatype Reply = Reply(res: int, data: seq<byte>)

  // A byte array with a cursor.
  datatype FileState = FileState(bytes: seq<byte>, pos: nat)

  function Step(s: FileState, op: Op, canRead: bool, canWrite: bool, append: bool): (r: (FileState, Reply))
    requires s.pos <= |s.bytes|
    ensures r.0.pos <= |r.0.bytes|
  {
    match op
    case Read(count) =>
      var (res, data, pos) := ReadAt(s.bytes, s.pos, canRead, count);
      (FileState(s.bytes, pos), Reply(res, data))
    case Write(data) =>
      var (res, bytes, pos) := WriteAt(s.bytes, s.pos, canWrite, append, data);
      (FileState(bytes, pos), Reply(res, []))
    case Flush => (s, Reply(0, []))
    case Seek(offset, origin) =>
      var (res, pos) := SeekTo(|s.bytes|, s.pos, offset, origin);
      (FileState(s.bytes, pos), Reply(res, []))
  }

  // The most a call can make of a length.
  function LengthAfter(n: nat, op: Op): nat {
    match op
    case Write(data) => n + |data|
    case _ => n
  }

  lemma StepLength(s: FileState, op: Op, canRead: bool, canWrite: bool, append: bool)
    requires s.pos <= |s.bytes|
    ensures |Step(s, op, canRead, canWrite, append).0.bytes| <= LengthAfter(|s.bytes|, op)
  {
  }

  // Lengths and positions stay below 2^32, and a seek needs a clean buffer.
  predicate Allowed(op: Op, n: nat, clean: bool) {
    match op
    case Read(count) => n + count < RANGE
    case Write(data) => n + |data| < RANGE
    case Flush => true
    case Seek(offset, origin) => clean && -0x8000_0000 <= offset < 0x8000_0000
  }

  // Whether the buffer is known clean after a call: a flush cleans it, and
  // only a write makes it dirty.
  predicate CleanAfter(op: Op, clean: bool) {
    match op
    case Write(data) => false
    case Flush => true
    case _ => clean
  }

  // Every call of the run is allowed, starting from length n at most.
  predicate Polite(ops: seq<Op>, n: nat, clean: bool, total: nat) {
    n <= total * SECTOR && n < RANGE
    && (ops != [] ==>
      Allowed(ops[0], n, clean) && Polite(ops[1..], LengthAfter(n, ops[0]), CleanAfter(ops[0], clean), total))
  }

  lemma {:induction false} PoliteMonotone(ops: seq<Op>, n: nat, m: nat, clean: bool, cleaner: bool, total: nat)
    requires Polite(ops, n, clean, total) && m <= n && (clean ==> cleaner)
    ensures Polite(ops, m, cleaner, total)
  {
    if ops != [] {
      PoliteMonotone(ops[1..], LengthAfter(n, ops[0]), LengthAfter(m, ops[0]), CleanAfter(ops[0], clean),
                     CleanAfter(ops[0], cleaner), total);
    }
  }

  function Replay(s: FileState, ops: seq<Op>, canRead: bool, canWrite: bool, append: bool): (FileState, seq<Reply>)
    requires s.pos <= |s.bytes|
    decreases |ops|
  {
    if ops == [] then (s, [])
    else
      var (t, first) := Step(s, ops[0], canRead, canWrite, append);
      var (u, rest) := Replay(t, ops[1..], canRead, canWrite, append);
      (u, [first] + rest)
  }

  const SEEK_SET := 0
  const SEEK_CUR := 1
  const SEEK_END := 2

  // A write to a byte array at a cursor, or at its end when appending.
  function WriteAt(b: seq<byte>, pos: nat, allowed: bool, append: bool, data: seq<byte>): (int, seq<byte>, nat)
    requires pos <= |b|
  {
    if !allowed then (-1, b, pos)
    else
      var p := if append then |b| else pos;
      (|data|, Splice(b, p, data), p + |data|)
  }

  // Where a seek leaves the cursor of a file of length n.
  function SeekTo(n: nat, pos: nat, offset: int, origin: nat): (int, nat)
    requires pos <= n
  {
    if origin == SEEK_END then (if offset == 0 then (0, n) else (-1, pos))
    else if origin == SEEK_SET then (0, Min(offset % RANGE, n))
    else if origin == SEEK_CUR then
      (0, if pos + offset < 0 then 0 else if offset < 0 then pos + offset else Min((pos + offset) % RANGE, n))
    else (-1, pos)
  }

  // A read of a byte array at a cursor: the result code, the bytes, the cursor.
  function ReadAt(b: seq<byte>, pos: nat, allowed: bool, count: nat): (int, seq<byte>, nat) {
    if !allowed then (-1, [], pos)
    else if count == 0 then (0, [], pos)
    else if pos >= |b| then (-1, [], pos)
    else
      var n := Min(count, |b| - pos);
      (n, b[pos..pos + n], pos + n)
  }

  // The bytes from pos on are data, all others are as they were, and the cursor
  // stands behind the data.
  predicate Replaces(b: seq<byte>, pos: nat, data: seq<byte>, after: seq<byte>, to: nat) {
    && to == pos + |data| && |after| == (if to < |b| then |b| else to)
    && forall i | 0 <= i < |after| ::
         if pos <= i < to then after[i] == data[i - pos] else i < |b| && after[i] == b[i]
  }

  // What a write does to a byte array, byte by byte.
  lemma Written(b: seq<byte>, pos: nat, allowed: bool, append: bool, data: seq<byte>)
    requires pos <= |b|
    ensures var (res, after, to) := WriteAt(b, pos, allowed, append, data);
            && (!allowed ==> res == -1 && after == b && to == pos)
            && (allowed ==> res == |data|)
            && (allowed && append ==> after == b + data && to == |after|)
            && (allowed && !append ==> Replaces(b, pos, data, after, to))
  {
    assert b[..|b|] == b;
  }

  // Where a seek lands: at the place asked for, clamped to the file; a negative
  // place counts from 2^32 down when it is set, and is the start when it is
  // reached from the cursor.
  lemma SeekLands(n: nat, pos: nat, offset: int, origin: nat)
    requires pos <= n < RANGE && -0x8000_0000 <= offset < 0x8000_0000
    ensures var (res, to) := SeekTo(n, pos, offset, origin);
            && to <= n
            && (origin == SEEK_SET && offset >= 0 ==> res == 0 && to == if offset <= n then offset else n)
            && (origin == SEEK_SET && offset < 0 ==> res == 0 && to == if RANGE + offset <= n then RANGE + offset else n)
            && (origin == SEEK_CUR && pos + offset < 0 ==> res == 0 && to == 0)
            && (origin == SEEK_CUR && 0 <= pos + offset <= n ==> res == 0 && to == pos + offset)
            && (origin == SEEK_END && offset == 0 ==> res == 0 && to == n)
            && (origin == SEEK_END && offset != 0 ==> res == -1 && to == pos)
            && (origin != SEEK_SET && origin != SEEK_CUR && origin != SEEK_END ==> res == -1 && to == pos)
  {
  }

  // Seeking from the cursor past the end stops at the end, as setting the
  // place does, exactly when the place is below 2^32: from there on it wraps.
  lemma SeekWraps(n: nat, pos: nat, offset: int)
    requires pos <= n < RANGE && -0x8000_0000 <= offset < 0x8000_0000 && n < pos + offset
    ensures SeekTo(n, pos, offset, SEEK_CUR) == (0, n) <==> pos + offset < RANGE
    ensures pos + offset < 0x8000_0000 ==> SeekTo(n, pos, offset, SEEK_CUR) == SeekTo(n, pos, pos + offset, SEEK_SET)
  {
  }

  // What was written is read back: written where the cursor stands, flushed,
  // sought and read, in any file that may be read and written.
  lemma WriteThenRead(s: FileState, data: seq<byte>)
    requires s.pos <= |s.bytes| < RANGE && s.pos < 0x8000_0000 && data != [] && s.pos + |data| < RANGE
    ensures var (t, replies) := Replay(s, [Write(data), Flush, Seek(s.pos, SEEK_SET), Read(|data|)], true, true, false);
            && |replies| == 4 && replies[3] == Reply(|data|, data)
            && Replaces(s.bytes, s.pos, data, t.bytes, t.pos)
  {
    Written(s.bytes, s.pos, true, false, data);
    var t := FileState(WriteAt(s.bytes, s.pos, true, false, data).1, s.pos + |data|);
    assert t.bytes[s.pos..t.pos] == data;
    SeekLands(|t.bytes|, t.pos, s.pos, SEEK_SET);
    hide WriteAt, SeekTo, Replaces, Replay;
    var u := FileState(t.bytes, s.pos);
    ReplaySteps([s, t, t, u, t], [Write(data), Flush, Seek(s.pos, SEEK_SET), Read(|data|)],
               [Reply(|data|, []), Reply(0, []), Reply(0, []), Reply(|data|, data)], true, true, false);
  }

  // Data appended by several calls stand one behind the other.
  lemma {:induction false} AppendsConcatenate(s: FileState, ops: seq<Op>, canRead: bool)
    requires s.pos <= |s.bytes| && forall i | 0 <= i < |ops| :: ops[i].Write?
    ensures Replay(s, ops, canRead, true, true).0.bytes == s.bytes + AllWritten(ops)
    ensures ops != [] ==> Replay(s, ops, canRead, true, true).0.pos == |s.bytes + AllWritten(ops)|
    decreases |ops|
  {
    if ops != [] {
      Written(s.bytes, s.pos, true, true, ops[0].data);
      var t := Step(s, ops[0], canRead, true, true).0;
      AppendsConcatenate(t, ops[1..], canRead);
      assert s.bytes + (ops[0].data + AllWritten(ops[1..])) == t.bytes + AllWritten(ops[1..]);
    }
  }

  function AllWritten(ops: seq<Op>): seq<byte>
    requires forall i | 0 <= i < |ops| :: ops[i].Write?
  {
    if ops == [] then [] else ops[0].data + AllWritten(ops[1..])
  }

  // A run is its steps.
  lemma {:induction false} ReplaySteps(states: seq<FileState>, ops: seq<Op>, replies: seq<Reply>, canRead: bool, canWrite: bool,
                                       append: bool)
    requires |states| == |ops| + 1 && |replies| == |ops| && forall i | 0 <= i < |states| :: states[i].pos <= |states[i].bytes|
    requires forall i | 0 <= i < |ops| :: Step(states[i], ops[i], canRead, canWrite, append) == (states[i + 1], replies[i])
    ensures Replay(states[0], ops, canRead, canWrite, append) == (states[|ops|], replies)
    decreases |ops|
  {
    hide Step;
    if ops != [] {
      ReplaySteps(states[1..], ops[1..], replies[1..], canRead, canWrite, append);
      assert [replies[0]] + replies[1..] == replies;
    }
  }

  function Min(a: nat, b: nat): (m: nat)
    ensures m <= a && m <= b && (m == a || m == b)
  {
    if a < b then a else b
  }
}
