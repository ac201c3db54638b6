// Formatting a volume and mounting it again (fat_format.c:46-95, 115-347,
// 392-532; fat_access.c:43-201): when the geometry comes back, and that the
// table made fits the allocator.
module Format {
  import opened Arith
  import opened Bytes
  import opened FatEntries
  import opened FatWindows
  import C = Chains

  // ------------------------------------------------------------ geometry

  // _cluster_size_table16 and _cluster_size_table32 without their end marks.
  const TABLE16: seq<(nat, nat)> :=
    [(32680, 2), (262144, 4), (524288, 8), (1048576, 16), (2097152, 32), (4194304, 64), (8388608, 128)]
  const TABLE32: seq<(nat, nat)> :=
    [(532480, 1), (16777216, 8), (33554432, 16), (67108864, 32), (0xFFFF_FFFF, 64)]

  function ClusterSize(t: FatType, sectors: nat): nat {
    if t.Fat16? then
      if sectors <= 32680 then 2 else if sectors <= 262144 then 4 else if sectors <= 524288 then 8
      else if sectors <= 1048576 then 16 else if sectors <= 2097152 then 32 else if sectors <= 4194304 then 64
      else if sectors <= 8388608 then 128 else 0
    else
      if sectors <= 532480 then 1 else if sectors <= 16777216 then 8 else if sectors <= 33554432 then 16
      else if sectors <= 67108864 then 32 else if sectors <= 0xFFFF_FFFF then 64 else 0
  }

  // fatfs_calc_cluster_size.
  method CalcClusterSize(t: FatType, sectors: nat) returns (size: nat)
    ensures size == ClusterSize(t, sectors)
  {
    var table := if t.Fat16? then TABLE16 else TABLE32;
    var i := 0;
    while i < |table|
      invariant 0 <= i <= |table| && forall k | 0 <= k < i :: table[k].0 < sectors
    {
      if sectors <= table[i].0 {
        RowFound(t, sectors, i);
        return table[i].1;
      }
      i := i + 1;
    }
    size := 0;
    assert table[|table| - 1].0 < sectors;
  }

  lemma RowFound(t: FatType, sectors: nat, i: nat)
    requires var table := if t.Fat16? then TABLE16 else TABLE32;
             i < |table| && sectors <= table[i].0 && forall k | 0 <= k < i :: table[k].0 < sectors
    ensures ClusterSize(t, sectors) == (if t.Fat16? then TABLE16 else TABLE32)[i].1
  {
    var table := if t.Fat16? then TABLE16 else TABLE32;
    assert i > 0 ==> table[i - 1].0 < sectors;
    if t.Fat16? {
      assert i in {0, 1, 2, 3, 4, 5, 6};
    } else {
      assert i in {0, 1, 2, 3, 4};
    }
  }

  // For volumes above the smallest the size is the least power of two, from a
  // first one on, with which a FAT16 has no more than 65536 clusters and a
  // FAT32 cluster covers its share of the volume; on FAT32 at most 64.
  lemma LeastSize(t: FatType, vol: nat)
    requires (if t.Fat16? then 32680 else 532480) < vol < RANGE
    ensures var size := ClusterSize(t, vol);
            if t.Fat16? then
              if vol > 8388608 then size == 0
              else size in {4, 8, 16, 32, 64, 128} && vol <= size * 0x1_0000 && (size > 4 ==> size / 2 * 0x1_0000 < vol)
            else
              && size in {8, 16, 32, 64} && (vol <= size * 0x20_0000 || size == 64) && (size > 8 ==> size / 2 * 0x20_0000 < vol)
    ensures ClusterSize(Fat16, 32680) == 2 && ClusterSize(Fat32, 532480) == 1
  {
  }

  function Reserved(t: FatType): nat {
    if t.Fat16? then 8 else 32
  }

  function RootSectors(t: FatType): nat {
    if t.Fat16? then 32 else 0
  }

  // Sectors of one FAT as the formatter sizes it.
  function FatSize(t: FatType, vol: nat): nat
    requires ClusterSize(t, vol) > 0
  {
    (vol / ClusterSize(t, vol) + 1) / PerSector(t) + 1
  }

  // The least number of sectors with more entries than clusters and one more.
  lemma LeastFat(t: FatType, vol: nat)
    requires ClusterSize(t, vol) > 0
    ensures var clusters, n := vol / ClusterSize(t, vol), FatSize(t, vol);
            (n - 1) * PerSector(t) <= clusters + 1 < n * PerSector(t)
  {
  }

  // Everything before the first cluster.
  function Overhead(t: FatType, vol: nat): nat
    requires ClusterSize(t, vol) > 0
  {
    Reserved(t) + 2 * FatSize(t, vol) + RootSectors(t)
  }

  // The mounter's cluster count, in 32 bits.
  function ClusterCount(t: FatType, vol: nat): nat
    requires ClusterSize(t, vol) > 0
  {
    ((vol - Overhead(t, vol)) % RANGE) / ClusterSize(t, vol)
  }

  datatype Kind = Kind12 | Kind16 | Kind32

  function KindOf(count: nat): Kind {
    if count < 4085 then Kind12 else if count < 65525 then Kind16 else Kind32
  }

  // The type fatfs_format picks.
  function Picked(vol: nat): FatType {
    if vol <= 4194304 then Fat16 else Fat32
  }

  function KindFor(t: FatType): Kind {
    if t.Fat16? then Kind16 else Kind32
  }

  // The mounter agrees with the formatter about the type on all but small
  // volumes and those just below the 2 GB limit.
  lemma TypeAgrees(vol: nat)
    requires vol < RANGE
    ensures ClusterSize(Picked(vol), vol) > 0
    ensures KindOf(ClusterCount(Picked(vol), vol)) == KindFor(Picked(vol)) <==> vol >= 8244 && !(4194152 <= vol <= 4194304)
  {
    if vol <= 4194304 {
      if vol < 42 {
        TinyVolume(vol);
      } else {
        TypeAgrees16(vol);
      }
    } else {
      TypeAgrees32(vol);
    }
  }

  lemma TinyVolume(vol: nat)
    requires vol < 42
    ensures KindOf(ClusterCount(Fat16, vol)) == Kind32
  {
    assert FatSize(Fat16, vol) == 1;
  }

  // A count of clusters of s sectors each, s and the bounds given.
  lemma CountIs(vol: nat, overhead: nat, s: nat, q: nat)
    requires s > 0 && overhead <= vol < RANGE
    ensures (vol - overhead) % RANGE == vol - overhead
    ensures (vol - overhead) / s < q <==> vol - overhead < q * s
  {
    var d := vol - overhead;
    if d / s < q {
      MulMonotone(d / s + 1, q, s);
    } else {
      MulMonotone(q, d / s, s);
    }
  }

  lemma SmallVolume(vol: nat)
    requires 42 <= vol <= 32680
    ensures KindOf(ClusterCount(Fat16, vol)) == Kind16 <==> vol >= 8244
  {
    assert FatSize(Fat16, vol) == (vol / 2 + 1) / 256 + 1;
    CountIs(vol, Overhead(Fat16, vol), 2, 4085);
    CountIs(vol, Overhead(Fat16, vol), 2, 65525);
  }

  lemma MiddleVolume(vol: nat, s: nat)
    requires 32680 < vol <= 2097152 && s == ClusterSize(Fat16, vol)
    ensures KindOf(ClusterCount(Fat16, vol)) == Kind16
  {
    CountIs(vol, Overhead(Fat16, vol), s, 4085);
    CountIs(vol, Overhead(Fat16, vol), s, 65525);
  }

  lemma LargeVolume(vol: nat)
    requires 2097152 < vol <= 4194304
    ensures KindOf(ClusterCount(Fat16, vol)) == Kind16 <==> vol < 4194152
  {
    assert FatSize(Fat16, vol) == (vol / 64 + 1) / 256 + 1;
    CountIs(vol, Overhead(Fat16, vol), 64, 4085);
    CountIs(vol, Overhead(Fat16, vol), 64, 65525);
  }

  lemma TypeAgrees16(vol: nat)
    requires 42 <= vol <= 4194304
    ensures KindOf(ClusterCount(Fat16, vol)) == Kind16 <==> 8244 <= vol < 4194152
  {
    if vol <= 32680 {
      SmallVolume(vol);
    } else if vol <= 2097152 {
      MiddleVolume(vol, ClusterSize(Fat16, vol));
    } else {
      LargeVolume(vol);
    }
  }

  lemma TypeAgrees32(vol: nat)
    requires 4194304 < vol < RANGE
    ensures ClusterSize(Fat32, vol) > 0 && KindOf(ClusterCount(Fat32, vol)) == Kind32
  {
    if vol <= 16777216 {
      assert FatSize(Fat32, vol) == (vol / 8 + 1) / 128 + 1;
      ManyClusters(vol, 8);
    } else if vol <= 33554432 {
      assert FatSize(Fat32, vol) == (vol / 16 + 1) / 128 + 1;
      ManyClusters(vol, 16);
    } else if vol <= 67108864 {
      assert FatSize(Fat32, vol) == (vol / 32 + 1) / 128 + 1;
      ManyClusters(vol, 32);
    } else {
      assert FatSize(Fat32, vol) == (vol / 64 + 1) / 128 + 1;
      ManyClusters(vol, 64);
    }
  }

  lemma ManyClusters(vol: nat, s: nat)
    requires vol < RANGE && s == ClusterSize(Fat32, vol) > 0
    requires Overhead(Fat32, vol) + 65525 * s <= vol
    ensures KindOf(ClusterCount(Fat32, vol)) == Kind32
  {
    CountIs(vol, Overhead(Fat32, vol), s, 65525);
  }

  // Where the type agrees, the table has an entry for every cluster and the
  // two reserved ones, and all clusters lie inside the volume.
  lemma GeometryFits(vol: nat)
    requires vol < RANGE && vol >= 8244 && !(4194152 <= vol <= 4194304)
    ensures var t := Picked(vol);
            && ClusterSize(t, vol) > 0 && Overhead(t, vol) <= vol
            && Reserved(t) == (if t.Fat16? then 8 else 32)
            && Overhead(t, vol) == (if t.Fat16? then 8 + 32 else 32) + 2 * FatSize(t, vol)
            && ClusterCount(t, vol) + 2 <= FatSize(t, vol) * PerSector(t)
            && Overhead(t, vol) + ClusterCount(t, vol) * ClusterSize(t, vol) <= vol
  {
    var t := Picked(vol);
    var s, n, q := ClusterSize(t, vol), PerSector(t), vol / ClusterSize(t, vol);
    QuotientShrinks(vol, s, 0);
    Covers(q + 1, n);
    Covers(q + 1, 128);
    assert FatSize(t, vol) <= (vol + 1) / 128 + 1;
    QuotientShrinks(vol, s, Overhead(t, vol));
    CountIs(vol, Overhead(t, vol), s, 0);
  }

  // A smaller volume has fewer clusters, which fit in it.
  lemma QuotientShrinks(x: nat, s: nat, y: nat)
    requires s > 0 && y <= x
    ensures (x - y) / s <= x / s <= x && (x - y) / s * s <= x - y
  {
    var p, q := (x - y) / s, x / s;
    if p > q { MulMonotone(q + 1, p, s); }
    MulMonotone(1, s, q);
  }

  // Rounding up one too many still covers x and one more.
  lemma Covers(x: nat, n: nat)
    requires n == 128 || n == 256
    ensures x + 1 <= (x / n + 1) * n && x / 256 <= x / 128
  {
  }

  // ------------------------------------------------------------ boot sector

  // What a boot sector says of the volume.
  ghost predicate Boot(s: seq<byte>, t: FatType, vol: nat, size: nat, fatSectors: nat, root: nat, fsInfo: nat) {
    && |s| == SECTOR && s[450] == 0 && s[510] == 0x55 && s[511] == 0xAA
    && Get16(s, 11) == SECTOR && s[13] == size && Get16(s, 14) == Reserved(t) && s[16] == 2
    && Get16(s, 17) == (if t.Fat16? then 512 else 0) && Get16(s, 19) == 0 && Get32(s, 32) == vol
    && Get16(s, 22) == (if t.Fat16? then fatSectors else 0)
    && (t.Fat32? ==> Get32(s, 36) == fatSectors && Get32(s, 44) == root && Get16(s, 48) == fsInfo)
  }

  function Le16(v: nat): (b: seq<byte>)
    ensures |b| == 2
  {
    [v % 0x100, v / 0x100 % 0x100]
  }

  function Le32(v: nat): (b: seq<byte>)
    ensures |b| == 4
  {
    [v % 0x100, v / 0x100 % 0x100, v / 0x1_0000 % 0x100, v / 0x100_0000 % 0x100]
  }

  lemma Le16Reads(s: seq<byte>, p: nat, v: nat)
    requires p + 2 <= |s| && v < 0x1_0000 && s[p] == Le16(v)[0] && s[p + 1] == Le16(v)[1]
    ensures Get16(s, p) == v
  {
    HalfDigits(v);
  }

  lemma Le32Reads(s: seq<byte>, p: nat, v: nat)
    requires p + 4 <= |s| && v < 0x1_0000_0000
    requires s[p] == Le32(v)[0] && s[p + 1] == Le32(v)[1] && s[p + 2] == Le32(v)[2] && s[p + 3] == Le32(v)[3]
    ensures Get32(s, p) == v
  {
    WordDigits(v);
  }

  // A run of byte assignments.
  method Put(a: array<byte>, start: nat, bytes: seq<byte>)
    requires start + |bytes| <= a.Length
    modifies a
    ensures forall k | 0 <= k < a.Length :: a[k] == if start <= k < start + |bytes| then bytes[k - start] else old(a[k])
  {
    var i := 0;
    while i < |bytes|
      invariant 0 <= i <= |bytes|
      invariant forall k | 0 <= k < a.Length :: a[k] == if start <= k < start + i then bytes[k - start] else old(a[k])
    {
      a[start + i] := bytes[i];
      i := i + 1;
    }
  }

  // The volume label: eleven places, blanks after the name.
  function Label(name: seq<byte>): (b: seq<byte>)
    ensures |b| == 11
  {
    seq(11, i requires 0 <= i < 11 => if i < |name| then name[i] else 0x20)
  }

  // struct fatfs as far as formatting and mounting set it, over a device.
  class FileSystem {
    var disk: seq<Sector>
    const sector: array<byte>
    var sectorsPerCluster: nat
    var clusterBegin: nat
    var rootFirstCluster: nat
    var rootFirstSector: nat
    var rootSectors: nat
    var fatBegin: nat
    var fsInfo: nat
    var lbaBegin: nat
    var fatSectors: nat
    var rootEntries: nat
    var reserved: nat
    var fats: nat
    var fatType: FatType

    constructor (disk: seq<Sector>)
      ensures this.disk == disk && sector.Length == SECTOR && fresh(sector)
    {
      this.disk := disk;
      sector := new byte[SECTOR](_ => 0);
      sectorsPerCluster, clusterBegin, rootFirstCluster, rootFirstSector, rootSectors := 0, 0, 0, 0, 0;
      fatBegin, fsInfo, lbaBegin, fatSectors, rootEntries, reserved, fats, fatType := 0, 0, 0, 0, 0, 0, 0, Fat16;
    }

    method WriteMedia(lba: nat)
      requires sector.Length == SECTOR && lba < |disk|
      modifies this`disk
      ensures disk == old(disk)[lba := sector[..]]
    {
      disk := disk[lba := sector[..]];
    }

    method Zero()
      modifies sector
      ensures forall k | 0 <= k < sector.Length :: sector[k] == 0
    {
      var i := 0;
      while i < sector.Length
        invariant 0 <= i <= sector.Length && forall k | 0 <= k < i :: sector[k] == 0
      {
        sector[i] := 0;
        i := i + 1;
      }
    }

    // The bytes of the boot sector that both types share.
    method PutCommon(size: nat, t: FatType)
      requires sector.Length == SECTOR && size < 0x100
      modifies sector
      ensures sector[450] == 0 && sector[11] == 0 && sector[12] == 2 && sector[13] == size
      ensures sector[14] == Reserved(t) && sector[15] == 0 && sector[16] == 2 && sector[17] == 0
      ensures sector[18] == (if t.Fat16? then 2 else 0) && sector[19] == sector[20] == 0
    {
      Zero();
      Put(sector, 0, [0xEB, 0x3C, 0x90, 0x4D, 0x53, 0x44, 0x4F, 0x53, 0x35, 0x2E, 0x30]);
      Put(sector, 11, [0, 2]);
      Put(sector, 13, [size]);
      Put(sector, 14, [Reserved(t), 0]);
      Put(sector, 16, [2]);
      Put(sector, 17, [0, if t.Fat16? then 2 else 0]);
      Put(sector, 19, [0, 0]);
      Put(sector, 21, [0xF8]);
    }

    method PutFat16(vol: nat, fatSectors: nat, name: seq<byte>)
      requires sector.Length == SECTOR
      modifies sector
      ensures forall k | 0 <= k < 22 || 62 <= k < 510 :: sector[k] == old(sector[k])
      ensures sector[22] == Le16(fatSectors)[0] && sector[23] == Le16(fatSectors)[1]
      ensures forall k | 32 <= k < 36 :: sector[k] == Le32(vol)[k - 32]
      ensures sector[510] == 0x55 && sector[511] == 0xAA
    {
      Put(sector, 22, Le16(fatSectors));
      Put(sector, 24, [0, 0, 0, 0, 0x20, 0, 0, 0]);
      Put(sector, 32, Le32(vol));
      Put(sector, 36, [0, 0, 0x29, 0x12, 0x34, 0x56, 0x78]);
      Put(sector, 43, Label(name));
      Put(sector, 54, [0x46, 0x41, 0x54, 0x31, 0x36, 0x20, 0x20, 0x20]);
      Put(sector, 510, [0x55, 0xAA]);
    }

    method PutFat32(vol: nat, fatSectors: nat, root: nat, info: nat, name: seq<byte>)
      requires sector.Length == SECTOR
      modifies sector
      ensures forall k | 0 <= k < 22 || 90 <= k < 510 :: sector[k] == old(sector[k])
      ensures sector[22] == sector[23] == 0
      ensures forall k | 32 <= k < 36 :: sector[k] == Le32(vol)[k - 32]
      ensures forall k | 36 <= k < 40 :: sector[k] == Le32(fatSectors)[k - 36]
      ensures forall k | 44 <= k < 48 :: sector[k] == Le32(root)[k - 44]
      ensures sector[48] == Le16(info)[0] && sector[49] == Le16(info)[1]
      ensures sector[510] == 0x55 && sector[511] == 0xAA
    {
      Put(sector, 22, [0, 0, 0x3F, 0, 0xFF, 0, 0, 0, 0, 0]);
      Put(sector, 32, Le32(vol));
      Put(sector, 36, Le32(fatSectors));
      Put(sector, 40, [0, 0, 0, 0]);
      Put(sector, 44, Le32(root));
      Put(sector, 48, Le16(info));
      Put(sector, 50, [6, 0]);
      Put(sector, 64, [0]);
      Put(sector, 66, [0x29, 0x12, 0x34, 0x56, 0x78]);
      Put(sector, 71, Label(name));
      Put(sector, 82, [0x46, 0x41, 0x54, 0x33, 0x32, 0x20, 0x20, 0x20]);
      Put(sector, 510, [0x55, 0xAA]);
    }

    // fatfs_create_boot_sector, at sector 0.
    method CreateBootSector(vol: nat, name: seq<byte>, t: FatType) returns (ok: bool)
      requires sector.Length == SECTOR && 0 < |disk| && vol < RANGE && lbaBegin == 0
      requires rootFirstCluster < RANGE && fsInfo < 0x1_0000
      modifies this`disk, this`sectorsPerCluster, this`reserved, this`fats, this`rootEntries, this`fatSectors, sector
      ensures ok <==> ClusterSize(t, vol) > 0
      ensures ok ==>
                && sectorsPerCluster == ClusterSize(t, vol) && reserved == Reserved(t) && fats == 2
                && rootEntries == (if t.Fat16? then 512 else 0) && fatSectors == FatSize(t, vol)
                && Boot(sector[..], t, vol, sectorsPerCluster, fatSectors, rootFirstCluster, fsInfo)
                && disk == old(disk)[0 := sector[..]]
      ensures !ok ==> disk == old(disk)
    {
      hide ClusterSize, FatSize, Boot, Le16, Le32;
      var size := CalcClusterSize(t, vol);
      sectorsPerCluster := size;
      if size == 0 {
        return false;
      }
      SmallFields(t, vol);
      FatSizeIs(t, vol);
      PutCommon(size, t);
      reserved := Reserved(t);
      fats := 2;
      rootEntries := if t.Fat16? then 512 else 0;
      var totalClusters := vol / sectorsPerCluster + 1;
      if t.Fat16? {
        fatSectors := totalClusters / (SECTOR / 2) + 1;
        PutFat16(vol, fatSectors, name);
      } else {
        fatSectors := totalClusters / (SECTOR / 4) + 1;
        PutFat32(vol, fatSectors, rootFirstCluster, fsInfo, name);
      }
      BootReads(sector[..], t, vol, sectorsPerCluster, fatSectors, rootFirstCluster, fsInfo);
      WriteMedia(lbaBegin);
      ok := true;
    }

    // fatfs_erase_sectors.
    method EraseSectors(lba: nat, count: nat)
      requires sector.Length == SECTOR && lba + count <= |disk|
      modifies this`disk, sector
      ensures disk == Erased(old(disk), lba, count)
    {
      Zero();
      ZeroesAreBlank(sector[..]);
      ErasedStart(disk, lba);
      var i := 0;
      while i < count
        invariant 0 <= i <= count && disk == Erased(old(disk), lba, i) && sector[..] == Blank()
      {
        ErasedNext(old(disk), lba, i);
        WriteMedia(lba + i);
        i := i + 1;
      }
    }

    // fatfs_erase_fat: the reserved entries in the first sector, zeroes in the
    // rest of all copies.
    method EraseFat(t: FatType)
      requires sector.Length == SECTOR && fats == 2 && 0 < fatSectors && fatBegin + 2 * fatSectors <= |disk|
      modifies this`disk, sector
      ensures disk == Erased(old(disk), fatBegin, 2 * fatSectors)[fatBegin := FirstFatSector(t)]
    {
      hide FirstFatSector, Erased, Blank;
      PutReserved(t);
      WriteMedia(fatBegin + 0);
      Zero();
      ZeroesAreBlank(sector[..]);
      var i := 1;
      var total := fatSectors * fats;
      Twice(fatSectors, fats);
      ErasedOne(old(disk), fatBegin, FirstFatSector(t));
      while i < total
        invariant 1 <= i <= total && sector[..] == Blank()
        invariant disk == Erased(old(disk), fatBegin, i)[fatBegin := FirstFatSector(t)]
      {
        ErasedMore(old(disk), fatBegin, i, FirstFatSector(t));
        WriteMedia(fatBegin + i);
        i := i + 1;
      }
    }

    method PutReserved(t: FatType)
      requires sector.Length == SECTOR
      modifies sector
      ensures sector[..] == FirstFatSector(t)
    {
      Zero();
      if t.Fat16? {
        Put(sector, 0, Le16(0xFFF8));
        Put(sector, 2, Le16(0xFFFF));
      } else {
        Put(sector, 0, Le32(0x0FFF_FFF8));
        Put(sector, 4, Le32(0xFFFF_FFFF));
        Put(sector, 8, Le32(0x0FFF_FFFF));
      }
    }

    // fatfs_format, with fatfs_format_fat16 and fatfs_format_fat32.
    method Format(vol: nat, name: seq<byte>) returns (ok: bool)
      requires sector.Length == SECTOR && vol < RANGE && |disk| > 0
      requires Overhead(Picked(vol), vol) + ClusterSize(Picked(vol), vol) <= |disk|
      modifies this, sector
      ensures ok && Formatted(Picked(vol), vol) && |disk| == old(|disk|)
      ensures Boot(disk[0], Picked(vol), vol, sectorsPerCluster, fatSectors, rootFirstCluster, fsInfo)
      ensures disk[fatBegin] == FirstFatSector(Picked(vol))
      ensures forall x | fatBegin < x < clusterBegin + RootSectors(Picked(vol)) :: disk[x] == Blank()
    {
      if vol <= 4194304 {
        ok := FormatFat16(vol, name);
      } else {
        ok := FormatFat32(vol, name);
      }
    }

    method FormatFat16(vol: nat, name: seq<byte>) returns (ok: bool)
      requires sector.Length == SECTOR && vol < RANGE && |disk| > 0
      requires ClusterSize(Fat16, vol) > 0 && Overhead(Fat16, vol) <= |disk|
      modifies this, sector
      ensures ok && Formatted(Fat16, vol) && |disk| == old(|disk|)
      ensures Boot(disk[0], Fat16, vol, sectorsPerCluster, fatSectors, rootFirstCluster, fsInfo)
      ensures disk[fatBegin] == FirstFatSector(Fat16)
      ensures forall x | fatBegin < x < clusterBegin + 32 :: disk[x] == Blank()
    {
      hide Boot, FatSize, FirstFatSector, Erased;
      SmallFields(Fat16, vol);
      fatType := Fat16;
      fsInfo := 0;
      rootFirstCluster := 0;
      lbaBegin := 0;
      ok := CreateBootSector(vol, name, Fat16);
      ghost var boot := disk;
      var fatTotal := fats * fatSectors;
      Twice(fatSectors, fats);
      rootFirstSector := reserved + fatTotal;
      rootSectors := (rootEntries * 32 + (SECTOR - 1)) / SECTOR;
      fatBegin := lbaBegin + reserved;
      clusterBegin := fatBegin + fatTotal;
      EraseFat(Fat16);
      ghost var cleared := disk;
      EraseSectors(lbaBegin + rootFirstSector, rootSectors);
      TwoRuns(boot, fatBegin, 2 * fatSectors, FirstFatSector(Fat16), cleared, clusterBegin, 32);
    }

    method FormatFat32(vol: nat, name: seq<byte>) returns (ok: bool)
      requires sector.Length == SECTOR && vol < RANGE && |disk| > 0
      requires ClusterSize(Fat32, vol) > 0 && Overhead(Fat32, vol) + ClusterSize(Fat32, vol) <= |disk|
      modifies this, sector
      ensures ok && Formatted(Fat32, vol) && |disk| == old(|disk|)
      ensures Boot(disk[0], Fat32, vol, sectorsPerCluster, fatSectors, rootFirstCluster, fsInfo)
      ensures disk[fatBegin] == FirstFatSector(Fat32) && fsInfo < fatBegin && InfoSector(disk[fsInfo])
      ensures forall x | fatBegin < x < clusterBegin + sectorsPerCluster :: disk[x] == Blank()
    {
      hide Boot, FatSize, FirstFatSector, Erased, InfoSector;
      SmallFields(Fat32, vol);
      fatType := Fat32;
      fsInfo := 1;
      rootFirstCluster := 2;
      lbaBegin := 0;
      ok := CreateBootSector(vol, name, Fat32);
      ghost var boot := disk[0];
      var fatTotal := fats * fatSectors;
      Twice(fatSectors, fats);
      fatBegin := lbaBegin + reserved;
      clusterBegin := fatBegin + fatTotal;
      CreateFsInfoSector(fsInfo);
      ghost var informed := disk;
      EraseFat(Fat32);
      ghost var cleared := disk;
      EraseSectors(clusterBegin + 0, sectorsPerCluster);
      TwoRuns(informed, fatBegin, 2 * fatSectors, FirstFatSector(Fat32), cleared, clusterBegin, sectorsPerCluster);
    }

    // fatfs_create_fsinfo_sector.
    method CreateFsInfoSector(lba: nat)
      requires sector.Length == SECTOR && lba < |disk|
      modifies this`disk, sector
      ensures |sector[..]| == SECTOR && disk == old(disk)[lba := sector[..]] && InfoSector(sector[..])
    {
      Zero();
      Put(sector, 0, [0x52, 0x52, 0x61, 0x41]);
      Put(sector, 484, [0x72, 0x72, 0x41, 0x61]);
      Put(sector, 488, [0xFF, 0xFF, 0xFF, 0xFF]);
      Put(sector, 492, [0xFF, 0xFF, 0xFF, 0xFF]);
      Put(sector, 510, [0x55, 0xAA]);
      WriteMedia(lba);
    }

    // The parameters fatfs_init takes from the boot sector in the buffer.
    method LoadParameters()
      requires sector.Length == SECTOR
      modifies `sectorsPerCluster, `clusterBegin, `rootFirstCluster, `rootFirstSector, `rootSectors, `fatBegin, `fsInfo,
               `fatSectors, `rootEntries
      ensures var s := sector[..];
              var f := FatSectorsOf(s);
              && sectorsPerCluster == s[13] && rootEntries == Get16(s, 17) && fatSectors == f
              && rootFirstCluster == Get32(s, 44) && fsInfo == Get16(s, 48)
              && rootFirstSector == (Get16(s, 14) + s[16] * f) % RANGE
              && rootSectors == (rootEntries * 32 + (SECTOR - 1)) / SECTOR
              && fatBegin == (lbaBegin + Get16(s, 14)) % RANGE && clusterBegin == (fatBegin + s[16] * f) % RANGE
    {
      var s := sector[..];
      sectorsPerCluster := s[13];
      var reservedSectors := Get16(s, 14);
      var numOfFats := s[16];
      rootEntries := Get16(s, 17);
      fatSectors := FatSectorsOf(s);
      rootFirstCluster := Get32(s, 44);
      fsInfo := Get16(s, 48);
      rootFirstSector := (reservedSectors + numOfFats * fatSectors) % RANGE;
      rootSectors := (rootEntries * 32 + (SECTOR - 1)) / SECTOR;
      fatBegin := (lbaBegin + reservedSectors) % RANGE;
      clusterBegin := (fatBegin + numOfFats * fatSectors) % RANGE;
    }

    // fatfs_init; the media fail past their end. The ghosts name the volume
    // whose boot sector is at sector 0, if there is one.
    method Init(ghost t: FatType, ghost vol: nat) returns (code: int)
      requires sector.Length == SECTOR && |disk| > 0 && ClusterSize(t, vol) > 0 && vol < RANGE
      modifies `sectorsPerCluster, `clusterBegin, `rootFirstCluster, `rootFirstSector, `rootSectors, `fatBegin, `fsInfo,
               `lbaBegin, `fatSectors, `rootEntries, `fatType, sector
      ensures Describes(disk[0], t, vol) ==> Mounted(t, vol, code)
    {
      hide Describes, Boot, KindOf, ClusterCount, FatSize, ClusterSize, Get16, Get32, Mounted, FatSectorsOf;
      hide TotalSectorsOf;
      DescribedReads(disk[0], t, vol);
      ghost var s := disk[0];
      code := Locate(t, vol);
      if code != OK {
        return;
      }
      if lbaBegin >= |disk| {
        return MEDIA_ACCESS_ERROR;
      }
      Load(disk[lbaBegin]);
      if Get16(sector[..], 11) != SECTOR {
        return INVALID_SECTOR_SIZE;
      }
      LoadParameters();
      if Get16(sector[..], 510) != 0xAA55 {
        return INVALID_SIGNATURE;
      }
      ghost var loaded: Sector := sector[..];
      code := FindType(sector[..], t, vol);
      NowMounted(loaded, t, vol, code);
    }

    // The fields read from a boot sector are those of the volume it describes.
    lemma NowMounted(s: Sector, t: FatType, vol: nat, code: int)
      requires sectorsPerCluster == s[13] && rootEntries == Get16(s, 17) && fatSectors == FatSectorsOf(s)
      requires fsInfo == Get16(s, 48) && rootFirstSector == (Get16(s, 14) + s[16] * FatSectorsOf(s)) % RANGE
      requires rootSectors == (rootEntries * 32 + (SECTOR - 1)) / SECTOR
      requires fatBegin == (lbaBegin + Get16(s, 14)) % RANGE && clusterBegin == (fatBegin + s[16] * FatSectorsOf(s)) % RANGE
      requires ClusterSize(t, vol) > 0 && vol < RANGE
      requires Describes(s, t, vol) ==>
                 match KindOf(ClusterCount(t, vol))
                 case Kind12 => code == WRONG_FILESYS_TYPE
                 case Kind16 => code == OK && fatType == Fat16 && rootFirstCluster == 0
                 case Kind32 => code == OK && fatType == Fat32 && rootFirstCluster == Get32(s, 44)
      ensures Describes(s, t, vol) && lbaBegin == 0 ==> Mounted(t, vol, code)
    {
      hide Describes, Boot, KindOf, ClusterCount, FatSize, ClusterSize, Get16, Get32, FatSectorsOf, TotalSectorsOf;
      DescribedReads(s, t, vol);
    }

    // The signature and the partition table of sector 0.
    method Locate(ghost t: FatType, ghost vol: nat) returns (code: int)
      requires sector.Length == SECTOR && |disk| > 0 && ClusterSize(t, vol) > 0
      modifies `lbaBegin, sector
      ensures Describes(disk[0], t, vol) ==> code == OK && lbaBegin == 0
    {
      hide ClusterSize, FatSize;
      Load(disk[0]);
      if sector[510] != 0x55 || sector[511] != 0xAA {
        return INVALID_SIGNATURE;
      }
      if Get16(sector[..], 510) != 0xAA55 {
        return ENDIAN_ERROR;
      }
      var typecode: nat := sector[450];
      var validPartition := false;
      if typecode in {0x0B, 0x06, 0x0C, 0x0E, 0x0F, 0x05} {
        validPartition := true;
      } else if typecode == 0 {
        validPartition := false;
      } else if typecode <= 0x06 {
        validPartition := true;
      }
      lbaBegin := if validPartition then Get32(sector[..], 454) else 0;
      code := OK;
    }

    method Load(s: Sector)
      requires sector.Length == SECTOR
      modifies sector
      ensures sector[..] == s
    {
      Put(sector, 0, s);
    }

    // The cluster count, and the type it decides.
    method FindType(s: Sector, ghost t: FatType, ghost vol: nat) returns (code: int)
      requires ClusterSize(t, vol) > 0 && vol < RANGE && Get16(s, 11) == SECTOR && sectorsPerCluster == s[13]
      modifies `rootFirstCluster, `fatType
      ensures Describes(s, t, vol) ==>
                match KindOf(ClusterCount(t, vol))
                case Kind12 => code == WRONG_FILESYS_TYPE
                case Kind16 => code == OK && fatType == Fat16 && rootFirstCluster == 0
                case Kind32 => code == OK && fatType == Fat32 && rootFirstCluster == old(rootFirstCluster)
    {
      var rootDirSectors := (Get16(s, 17) * 32 + (Get16(s, 11) - 1)) / Get16(s, 11);
      var fatSz := FatSectorsOf(s);
      var totalSectors := TotalSectorsOf(s);
      var dataSectors := (totalSectors - (Get16(s, 14) + s[16] * fatSz + rootDirSectors)) % RANGE;
      if sectorsPerCluster == 0 {
        return WRONG_FILESYS_TYPE;
      }
      CountFromBoot(s, t, vol);
      var countOfClusters := dataSectors / sectorsPerCluster;
      if countOfClusters < 4085 {
        code := WRONG_FILESYS_TYPE;
      } else if countOfClusters < 65525 {
        rootFirstCluster := 0;
        fatType := Fat16;
        code := OK;
      } else {
        fatType := Fat32;
        code := OK;
      }
    }

    // What mounting leaves of a volume of vol sectors formatted as t.
    ghost predicate Mounted(t: FatType, vol: nat, code: int)
      reads this
      requires ClusterSize(t, vol) > 0
    {
      && (KindOf(ClusterCount(t, vol)) == Kind12 <==> code != OK)
      && (code == OK ==> (fatType == Fat16 <==> KindOf(ClusterCount(t, vol)) == Kind16))
      && (code == OK && fatType == t ==> Recovered(t, vol))
    }

    // Every field of the geometry that the type uses.
    ghost predicate Recovered(t: FatType, vol: nat)
      reads this
      requires ClusterSize(t, vol) > 0
    {
      && lbaBegin == 0 && fatBegin == Reserved(t) && fatSectors == FatSize(t, vol)
      && clusterBegin == Reserved(t) + 2 * FatSize(t, vol) && sectorsPerCluster == ClusterSize(t, vol)
      && rootFirstCluster == (if t.Fat16? then 0 else 2) && (t.Fat32? ==> fsInfo == 1)
      && rootEntries == (if t.Fat16? then 512 else 0)
      && (t.Fat16? ==> rootFirstSector == clusterBegin && rootSectors == RootSectors(t))
    }

    // Formatting and then mounting recovers type and geometry exactly on
    // volumes neither small nor just below the 2 GB limit.
    method FormatThenMount(vol: nat, name: seq<byte>) returns (code: int)
      requires sector.Length == SECTOR && vol < RANGE && |disk| > 0
      requires Overhead(Picked(vol), vol) + ClusterSize(Picked(vol), vol) <= |disk|
      modifies this, sector
      ensures |disk| == old(|disk|)
      ensures code == OK && fatType == Picked(vol) <==> vol >= 8244 && !(4194152 <= vol <= 4194304)
      ensures code == OK && fatType == Picked(vol) ==> Recovered(Picked(vol), vol)
      ensures FreshFat(disk, Picked(vol), Reserved(Picked(vol)), Reserved(Picked(vol)) + FatSize(Picked(vol), vol))
      ensures 42 <= vol < 8244 ==> code != OK
      ensures 4194152 <= vol <= 4194304 ==> code == OK && fatType == Fat32
    {
      var ok := Format(vol, name);
      TypeAgrees(vol);
      if vol <= 4194304 {
        Misread(vol);
      }
      code := Init(Picked(vol), vol);
    }

    // The geometry of a volume of vol sectors, where the root directory of a
    // FAT16 volume follows the FATs.
    ghost predicate Formatted(t: FatType, vol: nat)
      reads this
      requires ClusterSize(t, vol) > 0
    {
      && lbaBegin == 0 && fatBegin == Reserved(t) && fats == 2
      && fatSectors == FatSize(t, vol) && clusterBegin == fatBegin + 2 * fatSectors
      && sectorsPerCluster == ClusterSize(t, vol)
      && rootFirstCluster == (if t.Fat16? then 0 else 2) && fsInfo == (if t.Fat16? then 0 else 1)
      && rootEntries == (if t.Fat16? then 512 else 0)
      && (t.Fat16? ==> rootFirstSector == clusterBegin && rootSectors == RootSectors(t))
      && fatBegin < clusterBegin && clusterBegin + RootSectors(t) <= |disk|
    }
  }

  const OK := 0
  const MEDIA_ACCESS_ERROR := -1
  const INVALID_SECTOR_SIZE := -2
  const INVALID_SIGNATURE := -3
  const ENDIAN_ERROR := -4
  const WRONG_FILESYS_TYPE := -5

  // The boot sector the formatter writes for a volume of vol sectors.
  ghost predicate Describes(s: seq<byte>, t: FatType, vol: nat)
    requires ClusterSize(t, vol) > 0
  {
    Boot(s, t, vol, ClusterSize(t, vol), FatSize(t, vol), if t.Fat16? then 0 else 2, if t.Fat16? then 0 else 1)
  }

  // The mounter's choice between the 16-bit and 32-bit fields.
  function FatSectorsOf(s: Sector): nat {
    if Get16(s, 22) != 0 then Get16(s, 22) else Get32(s, 36)
  }

  function TotalSectorsOf(s: Sector): nat {
    if Get16(s, 19) != 0 then Get16(s, 19) else Get32(s, 32)
  }

  lemma CountFromBoot(s: Sector, t: FatType, vol: nat)
    requires ClusterSize(t, vol) > 0 && vol < RANGE
    ensures Describes(s, t, vol) ==>
              var roots := (Get16(s, 17) * 32 + (SECTOR - 1)) / SECTOR;
              && s[13] == ClusterSize(t, vol) && TotalSectorsOf(s) == vol
              && Get16(s, 14) + s[16] * FatSectorsOf(s) + roots == Overhead(t, vol)
  {
    SmallFields(t, vol);
    if Describes(s, t, vol) {
      Twice(FatSectorsOf(s), s[16]);
    }
  }

  lemma Twice(a: nat, b: nat)
    requires b == 2
    ensures a * b == 2 * a && b * a == 2 * a
  {
  }

  // What mounting reads of the formatter's boot sector.
  lemma DescribedReads(s: Sector, t: FatType, vol: nat)
    requires ClusterSize(t, vol) > 0 && vol < RANGE
    ensures Describes(s, t, vol) ==>
              && Get16(s, 11) == SECTOR && Get16(s, 510) == 0xAA55 && s[13] == ClusterSize(t, vol)
              && Get16(s, 14) == Reserved(t) && Get16(s, 17) == (if t.Fat16? then 512 else 0)
              && FatSectorsOf(s) == FatSize(t, vol) && s[16] * FatSectorsOf(s) == 2 * FatSize(t, vol)
              && (t.Fat32? ==> Get32(s, 44) == 2 && Get16(s, 48) == 1)
              && Overhead(t, vol) + 8 < RANGE
  {
    SmallFields(t, vol);
    if Describes(s, t, vol) {
      Twice(FatSectorsOf(s), s[16]);
    }
  }

  // Where the type is not recovered: too few clusters to be FAT16, or so many
  // that they read as FAT32.
  lemma Misread(vol: nat)
    requires vol <= 4194304
    ensures 42 <= vol < 8244 ==> KindOf(ClusterCount(Fat16, vol)) == Kind12
    ensures 4194152 <= vol ==> KindOf(ClusterCount(Fat16, vol)) == Kind32
  {
    if 42 <= vol < 8244 {
      assert FatSize(Fat16, vol) == (vol / 2 + 1) / 256 + 1;
      CountIs(vol, Overhead(Fat16, vol), 2, 4085);
    } else if 4194152 <= vol {
      assert FatSize(Fat16, vol) == (vol / 64 + 1) / 256 + 1;
      CountIs(vol, Overhead(Fat16, vol), 64, 65525);
    }
  }

  // The FSINFO sector of a fresh volume: three signatures, and free count and
  // hint unknown.
  ghost predicate InfoSector(s: seq<byte>) {
    && |s| == SECTOR && s[0..4] == [0x52, 0x52, 0x61, 0x41] && s[484..488] == [0x72, 0x72, 0x41, 0x61]
    && s[488..496] == [0xFF, 0xFF, 0xFF, 0xFF, 0xFF, 0xFF, 0xFF, 0xFF] && s[510..512] == [0x55, 0xAA]
    && forall k | 4 <= k < 510 && !(484 <= k < 496) :: s[k] == 0
  }

  // The reserved entries of a fresh FAT, and FAT32's root as an end of chain.
  lemma FirstEntries()
    ensures Get16(FirstFatSector(Fat16), 0) == 0xFFF8 && Get16(FirstFatSector(Fat16), 2) == 0xFFFF
    ensures Get32(FirstFatSector(Fat32), 0) == 0x0FFF_FFF8 && Get32(FirstFatSector(Fat32), 4) == 0xFFFF_FFFF
    ensures Get32(FirstFatSector(Fat32), 8) == 0x0FFF_FFFF
    ensures forall k | 4 <= k < SECTOR :: FirstFatSector(Fat16)[k] == 0
    ensures forall k | 12 <= k < SECTOR :: FirstFatSector(Fat32)[k] == 0
  {
  }

  function FirstFatSector(t: FatType): Sector {
    if t.Fat16? then Le16(0xFFF8) + Le16(0xFFFF) + Blank()[4..]
    else Le32(0x0FFF_FFF8) + Le32(0xFFFF_FFFF) + Le32(0x0FFF_FFFF) + Blank()[12..]
  }

  function Erased(disk: seq<Sector>, lba: nat, count: nat): (d: seq<Sector>)
    requires lba + count <= |disk|
    ensures |d| == |disk|
  {
    disk[..lba] + seq(count, _ => Blank()) + disk[lba + count..]
  }

  lemma ErasedStart(disk: seq<Sector>, lba: nat)
    requires lba <= |disk|
    ensures Erased(disk, lba, 0) == disk
  {
  }

  lemma ErasedNext(disk: seq<Sector>, lba: nat, count: nat)
    requires lba + count < |disk|
    ensures Erased(disk, lba, count + 1) == Erased(disk, lba, count)[lba + count := Blank()]
  {
  }

  lemma ErasedOne(disk: seq<Sector>, lba: nat, first: Sector)
    requires lba < |disk|
    ensures Erased(disk, lba, 1)[lba := first] == disk[lba := first]
  {
  }

  lemma ErasedMore(disk: seq<Sector>, lba: nat, count: nat, first: Sector)
    requires lba + count < |disk| && 0 < count
    ensures Erased(disk, lba, count + 1)[lba := first] == Erased(disk, lba, count)[lba := first][lba + count := Blank()]
  {
  }

  // The erased FATs and the erased run behind them.
  lemma TwoRuns(disk: seq<Sector>, lba: nat, count: nat, first: Sector, cleared: seq<Sector>, next: nat, more: nat)
    requires 0 < lba && 0 < count && next == lba + count && next + more <= |disk|
    requires cleared == Erased(disk, lba, count)[lba := first]
    ensures var after := Erased(cleared, next, more);
            && (forall x | 0 <= x < lba :: after[x] == disk[x]) && after[lba] == first
            && forall x | lba < x < next + more :: after[x] == Blank()
  {
  }

  lemma ZeroesAreBlank(s: seq<byte>)
    requires |s| == SECTOR && forall k | 0 <= k < SECTOR :: s[k] == 0
    ensures s == Blank()
  {
  }

  lemma SmallFields(t: FatType, vol: nat)
    requires vol < RANGE && ClusterSize(t, vol) > 0
    ensures ClusterSize(t, vol) <= 128 && Overhead(t, vol) + 8 < RANGE && (t.Fat16? ==> FatSize(t, vol) < 0x1_0000) && 0 < FatSize(t, vol) < RANGE
  {
  }

  lemma FatSizeIs(t: FatType, vol: nat)
    requires ClusterSize(t, vol) > 0
    ensures FatSize(t, vol) == (vol / ClusterSize(t, vol) + 1) / (if t.Fat16? then SECTOR / 2 else SECTOR / 4) + 1
  {
  }

  lemma BootReads(s: seq<byte>, t: FatType, vol: nat, size: nat, fatSectors: nat, root: nat, fsInfo: nat)
    requires |s| == SECTOR && s[450] == 0 && s[510] == 0x55 && s[511] == 0xAA
    requires s[11] == 0 && s[12] == 2 && s[13] == size && s[14] == Reserved(t) && s[15] == 0 && s[16] == 2
    requires s[17] == 0 && s[18] == (if t.Fat16? then 2 else 0) && s[19] == s[20] == 0
    requires forall k | 32 <= k < 36 :: s[k] == Le32(vol)[k - 32]
    requires vol < RANGE && fatSectors < RANGE && root < RANGE && fsInfo < 0x1_0000
    requires t.Fat16? ==> fatSectors < 0x1_0000 && s[22] == Le16(fatSectors)[0] && s[23] == Le16(fatSectors)[1]
    requires t.Fat32? ==> s[22] == s[23] == 0 && s[48] == Le16(fsInfo)[0] && s[49] == Le16(fsInfo)[1]
    requires t.Fat32? ==> forall k | 36 <= k < 40 :: s[k] == Le32(fatSectors)[k - 36]
    requires t.Fat32? ==> forall k | 44 <= k < 48 :: s[k] == Le32(root)[k - 44]
    ensures Boot(s, t, vol, size, fatSectors, root, fsInfo)
  {
    hide Le16, Le32;
    Le32Reads(s, 32, vol);
    if t.Fat16? {
      Le16Reads(s, 22, fatSectors);
    } else {
      Le32Reads(s, 36, fatSectors);
      Le32Reads(s, 44, root);
      Le16Reads(s, 48, fsInfo);
    }
  }

  // ------------------------------------------------------------ the table made

  // What the formatter leaves of the FATs.
  ghost predicate FreshFat(disk: seq<Sector>, t: FatType, first: nat, end: nat) {
    && first < end <= |disk| && disk[first] == FirstFatSector(t)
    && forall x | first < x < end :: disk[x] == Blank()
  }

  // The entries used from the start: the reserved ones and FAT32's root.
  function UsedEntries(t: FatType): nat {
    if t.Fat16? then 2 else 3
  }

  lemma FreshEntry(g: Volume, t: FatType, disk: seq<Sector>, c: nat)
    requires g.fatBegin < g.fatEnd && FreshFat(disk, t, g.fatBegin, g.fatEnd) && c < Count(g, t)
    ensures RawWord(t, Entry(g, t, disk, c))
    ensures IsBlank(t, Entry(g, t, disk, c)) <==> c >= UsedEntries(t)
    ensures t.Fat32? && c == 2 ==> Link(t, Entry(g, t, disk, c)) == LAST_CLUSTER
  {
    InTableIsBelowCount(g, t, c);
    if SectorOf(t, c) == 0 {
      FirstWords(t, c);
    } else {
      BlankWord(t, Position(t, c));
    }
  }

  predicate RawWord(t: FatType, v: nat) {
    v < (if t.Fat16? then 0x1_0000 else 0x1_0000_0000)
  }

  lemma BlankWord(t: FatType, p: nat)
    requires p + (if t.Fat16? then 2 else 4) <= SECTOR
    ensures Word(t, Blank(), p) == 0
  {
  }

  lemma FirstWords(t: FatType, c: nat)
    requires SectorOf(t, c) == 0
    ensures var v := Word(t, FirstFatSector(t), Position(t, c));
            && RawWord(t, v) && (IsBlank(t, v) <==> c >= UsedEntries(t))
            && (t.Fat32? && c == 2 ==> Link(t, v) == LAST_CLUSTER)
  {
    var s, p := FirstFatSector(t), Position(t, c);
    if c >= UsedEntries(t) {
      assert s[p] == 0 && s[p + 1] == 0;
      assert t.Fat32? ==> s[p + 2] == 0 && s[p + 3] == 0;
    } else if t.Fat16? {
      assert p == 2 * c;
    } else {
      assert p == 4 * c;
    }
  }

  lemma {:induction false} AllBlank(t: FatType, f: seq<nat>, lo: nat, hi: nat, used: nat)
    requires lo <= used <= hi <= |f| && forall c | 0 <= c < |f| :: IsBlank(t, f[c]) <==> c >= used
    ensures C.Blanks(t, f, lo, hi) == hi - used
    decreases hi
  {
    if hi == used {
      C.NoBlanks(t, f, lo, hi);
    } else {
      AllBlank(t, f, lo, hi - 1, used);
    }
  }

  // A table whose reserved entries alone are used.
  ghost predicate FreshTable(t: FatType, f: seq<nat>) {
    && (forall c | 0 <= c < |f| :: RawWord(t, f[c]) && (IsBlank(t, f[c]) <==> c >= UsedEntries(t)))
    && (t.Fat32? && 2 < |f| ==> Link(t, f[2]) == LAST_CLUSTER)
  }

  lemma FreshRoom(t: FatType, f: seq<nat>, root: nat, count: nat)
    requires FreshTable(t, f) && 1 < count && count + 2 <= |f| && count + 2 <= C.NameLimit(t) && root <= 2
    ensures C.Room(t, f, root, count + 2, Givable(t, count))
    ensures t.Fat32? ==> C.Chain(t, f, [2])
  {
    hide IsBlank, Link, C.Blanks;
    AllBlank(t, f, root, count + 2, UsedEntries(t));
  }

  lemma FreshTableMade(g: Volume, t: FatType, disk: seq<Sector>)
    requires g.fatBegin < g.fatEnd && FreshFat(disk, t, g.fatBegin, g.fatEnd)
    ensures FreshTable(t, Table(g, t, disk))
  {
    hide IsBlank, Link, Entry, FirstFatSector;
    var f := Table(g, t, disk);
    forall c: nat | c < |f|
      ensures RawWord(t, f[c]) && (IsBlank(t, f[c]) <==> c >= UsedEntries(t))
      ensures t.Fat32? && c == 2 ==> Link(t, f[c]) == LAST_CLUSTER
    {
      FreshEntry(g, t, disk, c);
    }
  }

  // The clusters to give: all, without the FAT32 root's.
  function Givable(t: FatType, count: nat): nat {
    if t.Fat16? || count == 0 then count else count - 1
  }

  // On a formatted volume the allocator has every cluster to give but the
  // root's, and the FAT32 root is a chain of one cluster.
  lemma FormattedTable(vol: nat, disk: seq<Sector>, g: Volume)
    requires vol < RANGE && vol >= 8244 && !(4194152 <= vol <= 4194304)
    requires ClusterSize(Picked(vol), vol) > 0
    requires g.fatBegin == Reserved(Picked(vol)) && g.fatEnd == g.fatBegin + FatSize(Picked(vol), vol)
    requires FreshFat(disk, Picked(vol), g.fatBegin, g.fatEnd)
    ensures var t := Picked(vol);
            var f, count := Table(g, t, disk), ClusterCount(t, vol);
            && C.Room(t, f, if t.Fat16? then 0 else 2, count + 2, Givable(t, count))
            && (t.Fat32? ==> C.Chain(t, f, [2]))
  {
    hide *;
    GeometryFits(vol);
    CountNames(vol);
    TableLength(g, Picked(vol), FatSize(Picked(vol), vol), disk);
    FreshTableMade(g, Picked(vol), disk);
    FreshRoom(Picked(vol), Table(g, Picked(vol), disk), if Picked(vol).Fat16? then 0 else 2, ClusterCount(Picked(vol), vol));
  }

  lemma TableLength(g: Volume, t: FatType, sectors: nat, disk: seq<Sector>)
    requires g.fatEnd == g.fatBegin + sectors && FreshFat(disk, t, g.fatBegin, g.fatEnd)
    ensures 0 < sectors && g.fatEnd <= |disk| && |Table(g, t, disk)| == sectors * PerSector(t)
  {
  }

  // The default 16 buffers of 16 sectors hold the whole FAT on just those FAT16
  // volumes that are not a few sectors below a change of cluster size, and on
  // no FAT32 volume.
  lemma DefaultBuffers(vol: nat)
    requires vol < RANGE && vol >= 8244 && !(4194152 <= vol <= 4194304) && ClusterSize(Picked(vol), vol) > 0
    ensures FatSize(Picked(vol), vol) <= 16 * 16 <==> Picked(vol).Fat16? && vol / ClusterSize(Picked(vol), vol) < 65535
  {
    if vol > 4194304 {
      GeometryFits(vol);
      CountNames(vol);
      TypeAgrees(vol);
      LargeTable(ClusterCount(Fat32, vol), FatSize(Fat32, vol));
    }
  }

  lemma LargeTable(count: nat, sectors: nat)
    requires 65525 <= count && count + 2 <= sectors * 128
    ensures sectors > 256
  {
  }

  // Every cluster of the volume has a number an entry can hold.
  lemma CountNames(vol: nat)
    requires vol < RANGE && vol >= 8244 && !(4194152 <= vol <= 4194304) && ClusterSize(Picked(vol), vol) > 0
    ensures 4085 <= ClusterCount(Picked(vol), vol) && ClusterCount(Picked(vol), vol) + 2 <= C.NameLimit(Picked(vol))
  {
    TypeAgrees(vol);
    if vol > 4194304 {
      GeometryFits(vol);
      CountBelow(vol);
    }
  }

  lemma CountBelow(vol: nat)
    requires 4194304 < vol < RANGE
    ensures ClusterSize(Fat32, vol) > 0 && ClusterCount(Fat32, vol) <= 0x0800_0000
  {
  }
}
