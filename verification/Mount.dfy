// From a formatted volume to an allocator that can be trusted: mounting
// initialises the FAT buffers, and one count of the free clusters brings the
// whole FAT in (fat_access.c:43-190; fat_table.c:60-79, 445-478).
module Mount {
  import opened Arith
  import opened Bytes
  import opened FatEntries
  import opened FatWindows
  import opened FatScans
  import opened FatTable
  import opened Format
  import C = Chains

  // The FAT of a mounted volume, seen through count buffers of window sectors.
  method OpenTable(v: FileSystem, window: nat, count: nat) returns (fs: FatFs)
    requires v.fatBegin <= v.fatBegin + v.fatSectors <= |v.disk| && 1 <= count
    requires Volume(window, v.fatBegin, v.fatBegin + v.fatSectors).Fits(v.disk)
    requires v.fatType.Fat32? ==> v.lbaBegin + v.fsInfo < v.fatBegin
    ensures fresh(fs) && fs.Valid() && Unused(fs.views) && fs.flat == fs.disk == v.disk
    ensures fs.g == Volume(window, v.fatBegin, v.fatBegin + v.fatSectors) && fs.fatType == v.fatType
    ensures |fs.buffers| == count && fs.rootCluster == v.rootFirstCluster
    ensures fresh(fs.buffers)
  {
    var g := Volume(window, v.fatBegin, v.fatBegin + v.fatSectors);
    fs := new FatFs(g, v.fatType, v.lbaBegin + v.fsInfo, v.rootFirstCluster, count, v.disk);
    fs.FatInit();
  }

  // Format, mount, count: when the buffers hold the FAT, every FAT lookup from
  // then on is right, the count is that of the blank entries, and the
  // allocator has every cluster of the volume to give but the root's.
  method FormatMountCount(v: FileSystem, vol: nat, name: seq<byte>, window: nat, count: nat) returns (fs: FatFs, free: nat)
    requires v.sector.Length == SECTOR && vol < RANGE && vol >= 8244 && !(4194152 <= vol <= 4194304)
    requires ClusterSize(Picked(vol), vol) > 0
    requires Overhead(Picked(vol), vol) + ClusterSize(Picked(vol), vol) <= |v.disk|
    requires 1 <= window && 1 <= count && vol <= |v.disk| < INVALID
    requires Reserved(Picked(vol)) + FatSize(Picked(vol), vol) + window <= |v.disk|
    requires FatSize(Picked(vol), vol) <= count * window
    modifies v, v.sector
    ensures fs.Steady() && fs.fatType == Picked(vol) && fs.g.fatBegin <= fs.g.fatEnd <= |fs.flat|
    ensures free == Zeros(fs.Fat())
    ensures C.Room(fs.fatType, fs.Fat(), fs.rootCluster, ClusterCount(Picked(vol), vol) + 2,
                   Givable(Picked(vol), ClusterCount(Picked(vol), vol)))
    ensures fs.fatType.Fat32? ==> C.Chain(fs.fatType, fs.Fat(), [2])
  {
    hide ClusterSize, FatSize, ClusterCount, Overhead, FreshFat, FatFs.Valid, Settled, Unused, Edge;
    hide FileSystem.Recovered;
    hide C.Room, C.Chain, Table, FirstFatSector;
    var code := v.FormatThenMount(vol, name);
    Geometry(v, vol);
    fs := OpenTable(v, window, count);
    FormattedTable(vol, fs.flat, fs.g);
    Reached(fs, window, count, FatSize(Picked(vol), vol));
    free := fs.CountFreeClusters();
  }

  // What mounting recovers, where the mounter agrees with the formatter.
  lemma Geometry(v: FileSystem, vol: nat)
    requires vol < RANGE && vol >= 8244 && !(4194152 <= vol <= 4194304) && ClusterSize(Picked(vol), vol) > 0
    requires v.fatType == Picked(vol) && v.Recovered(Picked(vol), vol)
    ensures v.lbaBegin == 0 && v.fatBegin == Reserved(Picked(vol)) && v.fatSectors == FatSize(Picked(vol), vol) > 0
    ensures v.rootFirstCluster == (if Picked(vol).Fat16? then 0 else 2) && (Picked(vol).Fat32? ==> v.fsInfo == 1)
    ensures v.fatBegin + v.fatSectors <= Overhead(Picked(vol), vol) <= vol
  {
    GeometryFits(vol);
  }

  lemma Reached(fs: FatFs, window: nat, count: nat, sectors: nat)
    requires fs.Valid() && Unused(fs.views) && |fs.buffers| == count && fs.g.window == window
    requires fs.g.fatEnd == fs.g.fatBegin + sectors && sectors <= count * window
    ensures fs.g.fatEnd <= Edge(fs.g, count) && fs.Scannable(fs.g.fatBegin)
  {
    UnusedIsBehind(fs.g, fs.views, fs.g.fatBegin);
  }
}
