// fat_table.c: the linked list of FAT sector buffers and the operations on
// FAT entries, proved to refine one flat table.
module FatTable {
  import opened Arith
  import opened Bytes
  import opened Sequences
  import opened FatWindows
  import opened FatScans
  import opened FatEntries
  import C = Chains

  // struct fat_buffer; ptr numbers the sector the last lookup selected.
  class FatBuffer {
    var sector: seq<Sector>
    var address: nat
    var dirty: bool
    var ptr: nat
    var next: FatBuffer?

    constructor ()
    {
      sector, address, dirty, ptr, next := [], 0, false, 0, null;
    }
  }

  ghost function At(l: seq<FatBuffer>, i: int): FatBuffer? {
    if 0 <= i < |l| then l[i] else null
  }

  // l is the list that starts at h.
  ghost predicate Linked(h: FatBuffer?, l: seq<FatBuffer>)
    reads l`next
  {
    && h == At(l, 0)
    && forall i | 0 <= i < |l| :: l[i].next == At(l, i + 1)
  }

  ghost predicate Distinct(l: seq<FatBuffer>) {
    forall i, j | 0 <= i < j < |l| :: l[i] != l[j]
  }

  // The list is a reordering of the fixed pool of buffers.
  ghost predicate Reorders(list: seq<FatBuffer>, pool: seq<FatBuffer>) {
    && 1 <= |pool| == |list| && Distinct(pool) && Distinct(list)
    && (forall b | b in list :: b in pool) && (forall b | b in pool :: b in list)
  }

  // The first n buffers of the pool have been put on the list.
  ghost predicate Gathered(list: seq<FatBuffer>, pool: seq<FatBuffer>, n: nat) {
    && |list| == n <= |pool| && Distinct(pool) && Distinct(list)
    && (forall b | b in list :: b in pool[..n]) && (forall b | b in pool[..n] :: b in list)
  }

  lemma Gather(list: seq<FatBuffer>, pool: seq<FatBuffer>, n: nat)
    requires Gathered(list, pool, n) && n < |pool|
    ensures Gathered([pool[n]] + list, pool, n + 1) && pool[n] !in list
  {
    assert pool[..n + 1] == pool[..n] + [pool[n]];
    assert pool[n] !in pool[..n];
  }

  lemma Rotate(list: seq<FatBuffer>, pool: seq<FatBuffer>)
    requires Reorders(list, pool)
    ensures list[|list| - 1] !in list[..|list| - 1]
    ensures Reorders([list[|list| - 1]] + list[..|list| - 1], pool)
  {
    var kept, last := list[..|list| - 1], list[|list| - 1];
    var l := [last] + kept;
    forall i, j | 0 <= i < j < |l|
      ensures l[i] != l[j]
    {
      assert l[j] == list[j - 1];
      assert i > 0 ==> l[i] == list[i - 1];
    }
    forall b | b in pool
      ensures b in l
    {
      var i :| 0 <= i < |list| && list[i] == b;
      assert i < |kept| ==> l[i + 1] == b;
    }
  }

  lemma PushLinked(b: FatBuffer, h: FatBuffer?, l: seq<FatBuffer>)
    requires Linked(h, l) && b.next == h
    ensures Linked(b, [b] + l)
  {
    var longer := [b] + l;
    forall i | 0 <= i < |longer|
      ensures longer[i].next == At(longer, i + 1)
    {
      if i > 0 {
        assert l[i - 1].next == At(l, i);
      }
    }
  }

  ghost function ViewOf(b: FatBuffer): View
    reads b`address, b`dirty, b`sector
  {
    View(b.address, b.dirty, b.sector)
  }

  ghost predicate Shown(l: seq<FatBuffer>, ws: seq<View>)
    reads l`address, l`dirty, l`sector
  {
    |ws| == |l| && forall i | 0 <= i < |l| :: ws[i] == ViewOf(l[i])
  }

  lemma PushShown(b: FatBuffer, l: seq<FatBuffer>, ws: seq<View>)
    requires Shown(l, ws)
    ensures Shown([b] + l, [ViewOf(b)] + ws)
  {
  }

  class FatFs {
    const g: Volume
    const fatType: FatType
    const fsInfo: nat
    const rootCluster: nat
    const buffers: seq<FatBuffer>
    var disk: seq<Sector>
    var head: FatBuffer?
    var nextFree: nat
    // The buffers in list order and as values, and the disk as it will be once every dirty
    // window has been written back.
    ghost var list: seq<FatBuffer>
    ghost var views: seq<View>
    ghost var flat: seq<Sector>

    // On FAT32 the FSINFO sector lies before the FAT.
    ghost predicate InfoBelow() {
      fatType.Fat32? ==> fsInfo < g.fatBegin
    }

    // What the code itself relies on, coherent or not.
    ghost predicate Ready()
      reads this, list
    {
      && Reorders(list, buffers) && Linked(head, list) && Shown(list, views) && AllPlaced(g, views)
      && g.Fits(disk) && |flat| == |disk| && InfoBelow()
    }

    ghost predicate Valid()
      reads this, list
    {
      Ready() && Coherent(g, disk, flat, views)
    }

    constructor (g: Volume, fatType: FatType, fsInfo: nat, rootCluster: nat, count: nat, disk: seq<Sector>)
      ensures this.g == g && this.fatType == fatType && this.fsInfo == fsInfo && this.rootCluster == rootCluster
      ensures this.disk == disk && nextFree == 0
      ensures |buffers| == count && Distinct(buffers) && fresh(buffers)
    {
      var made: seq<FatBuffer> := [];
      while |made| < count
        invariant |made| <= count && Distinct(made) && fresh(made)
      {
        var b := new FatBuffer();
        made := made + [b];
      }
      this.g, this.fatType, this.fsInfo, this.rootCluster := g, fatType, fsInfo, rootCluster;
      this.disk, this.buffers := disk, made;
      head, nextFree, list, views, flat := null, 0, [], [], disk;
    }

    // fatfs_fat_init: every buffer invalid and clean, each pushed on the front.
    method FatInit()
      requires 1 <= |buffers| && Distinct(buffers) && g.Fits(disk) && InfoBelow()
      modifies this`head, this`list, this`views, this`flat, buffers
      ensures Valid() && flat == disk && Unused(views)
      ensures forall i | 0 <= i < |views| :: Empty(views[i])
    {
      head, list, views, flat := null, [], [], disk;
      var i := 0;
      while i < |buffers|
        invariant 0 <= i <= |buffers| && disk == old(disk) && flat == disk
        invariant Gathered(list, buffers, i) && Linked(head, list) && Shown(list, views)
        invariant forall k | 0 <= k < i :: Empty(views[k])
      {
        Gather(list, buffers, i);
        var b := buffers[i];
        hide Gathered;
        InitBuffer(b);
        PushLinked(b, head, list);
        PushShown(b, list, views);
        head := b;
        list := [b] + list;
        views := [ViewOf(b)] + views;
        i := i + 1;
      }
      assert buffers[..i] == buffers;
      EmptyIsCoherent(disk, views);
    }

    // Initialise one buffer and link it before the head.
    method InitBuffer(b: FatBuffer)
      modifies b
      ensures Empty(ViewOf(b)) && b.next == head
    {
      b.address := INVALID;
      b.dirty := false;
      b.sector := seq(g.window, _ => Blank());
      b.ptr := 0;
      b.next := head;
    }

    ghost predicate Empty(v: View) {
      v.address == INVALID && !v.dirty && |v.sector| == g.window
    }

    lemma EmptyIsCoherent(disk: seq<Sector>, ws: seq<View>)
      requires g.Fits(disk) && forall i | 0 <= i < |ws| :: Empty(ws[i])
      ensures Coherent(g, disk, disk, ws)
    {
    }

    // fatfs_fat_writeback: a dirty window goes back, cut at the end of the FAT.
    method Writeback(b: FatBuffer)
      requires g.Fits(disk) && Placed(g, ViewOf(b)) && b.dirty
      modifies this`disk, b`dirty
      ensures !b.dirty && disk == Stored(g, old(disk), old(ViewOf(b)))
    {
      var offset := b.address - g.fatBegin;
      var sectors := if offset + g.window <= g.fatEnd - g.fatBegin then g.window else g.fatEnd - g.fatBegin - offset;
      disk := disk[..b.address] + b.sector[..sectors] + disk[b.address + sectors..];
      b.dirty := false;
    }

    // The search of fatfs_fat_read_sector. When it runs off the end it has
    // also unlinked the last buffer.
    method Search(sector: nat) returns (found: FatBuffer?, last: FatBuffer?)
      requires Reorders(list, buffers) && Linked(head, list) && Shown(list, views)
      modifies this`head, buffers`next
      ensures Shown(list, views)
      ensures found != null ==> head == old(head) && Linked(head, list) && FirstAt(found, sector)
      ensures found == null ==> last == list[|list| - 1] && Linked(head, list[..|list| - 1])
      ensures found == null ==> !Resident(g, views, sector)
    {
      assert |list| > 0 && head == At(list, 0);
      hide Resident, ViewOf, Reorders, Linked, Covers, Holds, Shown, Passed, FirstAt;
      last := null;
      found := head;
      ghost var i := 0;
      Start(sector);
      while found != null
        invariant 0 <= i <= |list| && Shown(list, views)
        invariant found == At(list, i) && last == At(list, i - 1)
        invariant Passed(i, sector)
        invariant i < |list| ==> Linked(head, list) && head == old(head)
        invariant i == |list| ==> Linked(head, list[..|list| - 1])
        decreases |list| - i
      {
        Pass(i, sector);
        if Covers(found, sector) {
          return;
        }
        if found.next == null {
          Unlink(last);
        }
        last := found;
        found := found.next;
        i := i + 1;
      }
      AllPassed(sector);
    }

    // The range test of the search, with the wrap of an invalid address.
    predicate Covers(b: FatBuffer, x: nat)
      reads b
    {
      b.address <= x < (b.address + g.window) % RANGE
    }

    // None of the first i buffers holds x.
    ghost predicate Passed(i: nat, x: nat)
      reads this`views
    {
      i <= |views| && forall j | 0 <= j < i :: !Holds(g, views[j], x)
    }

    lemma Start(x: nat)
      ensures Passed(0, x)
    {
    }

    lemma PassView(i: nat, x: nat)
      requires i < |list| && Linked(head, list) && Shown(list, views)
      ensures |views| == |list| && list[i].next == At(list, i + 1)
      ensures Covers(list[i], x) <==> Holds(g, views[i], x)
    {
    }

    lemma Pass(i: nat, x: nat)
      requires i < |list| && Linked(head, list) && Shown(list, views) && Passed(i, x)
      ensures list[i].next == At(list, i + 1)
      ensures if Covers(list[i], x) then FirstAt(list[i], x) else Passed(i + 1, x)
    {
      PassView(i, x);
      hide Covers, Holds, Linked, Shown;
    }

    lemma AllPassed(x: nat)
      requires Passed(|list|, x) && Shown(list, views)
      ensures !Resident(g, views, x)
    {
    }

    // Cut the list before its last buffer, last being the one before that.
    method Unlink(last: FatBuffer?)
      requires Reorders(list, buffers) && Linked(head, list) && last == At(list, |list| - 2)
      modifies this`head, buffers`next
      ensures Linked(head, list[..|list| - 1]) && list[|list| - 1].next == null
    {
      ghost var kept := list[..|list| - 1];
      if last != null {
        assert last in list && kept[|kept| - 1] == last;
        assert forall j | 0 <= j < |kept| - 1 :: kept[j] != last && kept[j].next == kept[j + 1];
        last.next := null;
      } else {
        head := null;
      }
    }

    // b is the first buffer in the list that holds x.
    ghost predicate FirstAt(b: FatBuffer, x: nat)
      reads this`list, this`views
    {
      exists i :: 0 <= i < |list| == |views| && list[i] == b && Holds(g, views[i], x)
               && forall j | 0 <= j < i :: !Holds(g, views[j], x)
    }

    // The unlinked buffer moves to the front of the list.
    method PushFront(last: FatBuffer)
      requires Reorders(list, buffers) && last == list[|list| - 1] && Linked(head, list[..|list| - 1])
      modifies this`head, this`list, last`next
      ensures Reorders(list, buffers) && list == [last] + old(list)[..|list| - 1] && Linked(head, list)
      ensures last !in list[1..]
    {
      ghost var kept := list[..|list| - 1];
      Rotate(list, buffers);
      last.next := head;
      PushLinked(last, head, kept);
      head := last;
      list := [last] + kept;
    }

    // It is written back if dirty, and loaded from the asked sector.
    method Reload(last: FatBuffer, sector: nat)
      requires Placed(g, ViewOf(last)) && g.Fits(disk) && sector + g.window <= |disk|
      modifies this`disk, last`dirty, last`address, last`sector, last`ptr
      ensures disk == Flushed(g, old(disk), old(ViewOf(last)))
      ensures ViewOf(last) == Loaded(g, disk, sector) && last.ptr == 0
    {
      if last.dirty {
        Writeback(last);
      }
      last.address := sector;
      last.sector := disk[sector..sector + g.window];
      last.ptr := 0;
    }

    // The rest of fatfs_fat_read_sector on a miss.
    method Recycle(last: FatBuffer, sector: nat)
      requires Reorders(list, buffers) && last == list[|list| - 1] && Linked(head, list[..|list| - 1])
      requires Shown(list, views) && AllPlaced(g, views) && g.Fits(disk) && sector + g.window <= |disk|
      modifies this`head, this`disk, this`list, this`views, last
      ensures Reorders(list, buffers) && Linked(head, list) && Shown(list, views) && list[0] == last && last.ptr == 0
      ensures disk == DiskAfterMiss(g, old(disk), old(views))
      ensures views == [Loaded(g, disk, sector)] + Kept(old(views))
    {
      ghost var kept, rest := list[..|list| - 1], Kept(views);
      assert ViewOf(last) == views[|views| - 1];
      assert Shown(kept, rest);
      PushFront(last);
      assert list[1..] == kept;
      hide Reorders, Linked;
      Reload(last, sector);
      PushShown(last, kept, rest);
      views := [ViewOf(last)] + rest;
    }

    // r is the buffer that the lookup of sector x gives, d and ws being the disk
    // and the windows before.
    ghost predicate Given(r: FatBuffer, x: nat, d: seq<Sector>, ws: seq<View>)
      reads this`disk, this`views, r`sector, r`ptr, r`address
    {
      && g.Fits(d) && AllPlaced(g, ws) && |ws| > 0 && x + g.window <= |d|
      && |r.sector| == g.window && r.ptr < g.window && r.address + r.ptr == x && r.sector[r.ptr] == Seen(g, d, ws, x)
      && disk == DiskAfter(g, d, ws, x) && views == ViewsAfter(g, d, ws, x)
    }

    // The end of fatfs_fat_read_sector on a hit.
    method Select(b: FatBuffer, x: nat)
      requires Reorders(list, buffers) && Linked(head, list) && Shown(list, views) && AllPlaced(g, views) && g.Fits(disk)
      requires |views| > 0 && FirstAt(b, x) && x + g.window <= |disk|
      modifies b`ptr
      ensures Shown(list, views) && Linked(head, list) && b in list && b in buffers && Resident(g, views, x)
      ensures Given(b, x, disk, views)
    {
      hide *;
      Hit(b, x);
      b.ptr := x - b.address;
      GivenHit(b, x);
    }

    lemma FoundInPool(b: FatBuffer, x: nat)
      requires Reorders(list, buffers) && FirstAt(b, x)
      ensures b in buffers
    {
    }

    lemma GivenIs(r: FatBuffer, x: nat, d: seq<Sector>, ws: seq<View>)
      requires Given(r, x, d, ws)
      ensures g.Fits(d) && AllPlaced(g, ws) && |ws| > 0 && x + g.window <= |d|
      ensures |r.sector| == g.window && r.ptr < g.window && r.address + r.ptr == x && r.sector[r.ptr] == Seen(g, d, ws, x)
      ensures disk == DiskAfter(g, d, ws, x) && views == ViewsAfter(g, d, ws, x)
    {
    }

    lemma GivenHit(b: FatBuffer, x: nat)
      requires g.Fits(disk) && AllPlaced(g, views) && |views| > 0 && x + g.window <= |disk| && |b.sector| == g.window
      requires b.address <= x < b.address + g.window && Seen(g, disk, views, x) == b.sector[x - b.address]
      requires DiskAfter(g, disk, views, x) == disk && ViewsAfter(g, disk, views, x) == views && b.ptr == x - b.address
      ensures Given(b, x, disk, views)
    {
    }

    lemma GivenMiss(b: FatBuffer, x: nat, d: seq<Sector>, ws: seq<View>)
      requires g.Fits(d) && AllPlaced(g, ws) && |ws| > 0 && x + g.window <= |d| && !Resident(g, ws, x)
      requires disk == DiskAfterMiss(g, d, ws) && views == [Loaded(g, disk, x)] + Kept(ws)
      requires |b.sector| == g.window > 0 && b.address == x && b.ptr == 0 && b.sector[0] == disk[x]
      ensures Given(b, x, d, ws)
    {
      MissLoads(g, d, ws, x);
    }

    // fatfs_fat_read_sector: the buffer that holds the sector, found in the
    // list or loaded into its last one.
    method ReadSector(sector: nat) returns (r: FatBuffer)
      requires Ready() && sector + g.window <= |disk|
      modifies this`head, this`disk, this`list, this`views, buffers
      ensures Reorders(list, buffers) && Linked(head, list) && Shown(list, views)
      ensures r in list && r in buffers && Given(r, sector, old(disk), old(views))
      ensures !old(Resident(g, views, sector)) ==> r == list[0]
    {
      OpenReady();
      hide *;
      var pcur, last := Search(sector);
      if pcur != null {
        FoundInPool(pcur, sector);
        Select(pcur, sector);
        return pcur;
      }
      Miss(sector);
      Recycle(last, sector);
      r := last;
      FrontShown(r, sector);
      GivenMiss(r, sector, old(disk), old(views));
    }

    lemma OpenReady()
      requires Ready()
      ensures Reorders(list, buffers) && Linked(head, list) && Shown(list, views)
      ensures g.Fits(disk) && AllPlaced(g, views) && 1 <= |list| == |views|
    {
    }

    lemma Hit(b: FatBuffer, x: nat)
      requires Reorders(list, buffers) && Shown(list, views) && AllPlaced(g, views) && g.Fits(disk) && |views| > 0
      requires FirstAt(b, x) && x + g.window <= |disk|
      ensures b in list && b in buffers && |b.sector| == g.window && Resident(g, views, x)
      ensures b.address <= x < b.address + g.window && Seen(g, disk, views, x) == b.sector[x - b.address]
      ensures DiskAfter(g, disk, views, x) == disk && ViewsAfter(g, disk, views, x) == views
    {
      var i :| 0 <= i < |list| && list[i] == b && Holds(g, views[i], x)
            && forall j | 0 <= j < i :: !Holds(g, views[j], x);
      SeenFirst(g, disk, views, i, x);
      HeldAt(g, disk, views[i], x);
    }

    lemma Miss(x: nat)
      requires Reorders(list, buffers) && |list| == |views| && AllPlaced(g, views) && g.Fits(disk) && |views| > 0
      requires !Resident(g, views, x) && x + g.window <= |disk|
      ensures list[|list| - 1] in buffers
      ensures var after := DiskAfterMiss(g, disk, views);
              && after[x] == Seen(g, disk, views, x) && DiskAfter(g, disk, views, x) == after
              && ViewsAfter(g, disk, views, x) == [Loaded(g, after, x)] + Kept(views)
    {
      MissLoads(g, disk, views, x);
      assert list[|list| - 1] in list;
    }

    lemma FrontShown(b: FatBuffer, x: nat)
      requires Reorders(list, buffers) && list[0] == b && Shown(list, views)
      requires 1 <= g.window && x + g.window <= |disk| && |views| > 0 && views[0] == Loaded(g, disk, x)
      ensures b in list && b in buffers && |b.sector| == g.window && b.address == x && b.sector[0] == disk[x]
    {
    }

    // The raw entries of the flat table.
    ghost function Fat(): (f: seq<nat>)
      requires g.fatBegin <= g.fatEnd <= |flat|
      reads this`flat
    {
      Table(g, fatType, flat)
    }

    // Coherent, and every lookup of the FAT stays clear.
    ghost predicate Steady()
      reads this, list
    {
      Valid() && Settled(g, views)
    }

    // What one update of the FSINFO sector must leave resident.
    ghost predicate Spare()
      reads this`views
    {
      g.window == 1 || (|views| > 0 && Whole(g, Kept(views)))
    }

    // What fatfs_add_free_space needs of the buffers: the one FSINFO update it
    // may make leaves the table steady.
    ghost predicate Poised()
      reads this, list
    {
      Steady() && (fatType.Fat16? || nextFree == LAST_CLUSTER || Spare())
    }

    // The sector that holds the entry of cluster c.
    function Home(c: nat): nat {
      g.fatBegin + SectorOf(fatType, c)
    }

    // The windows are those that a lookup of x has left.
    ghost predicate Went(d: seq<Sector>, ws: seq<View>, x: nat)
      reads this`views
    {
      && g.Fits(d) && AllPlaced(g, ws) && |ws| > 0 && x + g.window <= |d|
      && views == ViewsAfter(g, d, ws, x)
    }

    // The buffer holds the sector, ptr selects it, and it is the flat table's.
    ghost predicate Selected(r: FatBuffer, x: nat)
      reads this, r
    {
      && r in list && Holds(g, ViewOf(r), x) && r.ptr == x - r.address
      && r.ptr < |r.sector| && x < |flat| && r.sector[r.ptr] == flat[x]
    }

    lemma Open(x: nat)
      requires Valid() && g.InFat(x)
      ensures Ready() && Coherent(g, disk, flat, views) && AllPlaced(g, views) && g.Fits(disk)
      ensures |views| > 0 && x + g.window <= |disk| == |flat| && InfoBelow()
    {
    }

    lemma Close()
      requires Reorders(list, buffers) && Linked(head, list) && Shown(list, views)
      requires Coherent(g, disk, flat, views) && InfoBelow()
      ensures Valid() && (Settled(g, views) ==> Steady())
    {
    }

    lemma MakeSelected(r: FatBuffer, x: nat)
      requires g.Fits(disk) && g.InFat(x) && r in list && r.ptr < |r.sector| && r.address + r.ptr == x < |flat|
      requires |r.sector| == g.window && r.sector[r.ptr] == flat[x]
      ensures Selected(r, x)
    {
    }

    // The call of fatfs_fat_read_sector on a FAT sector, in the terms of the
    // flat table.
    method FatSector(sector: nat) returns (r: FatBuffer)
      requires Valid() && g.InFat(sector) && Clear(g, views, sector)
      modifies this`head, this`disk, this`list, this`views, buffers
      ensures Valid() && Selected(r, sector) && r in buffers
      ensures SameOutside(g, old(disk), disk) && Went(old(disk), old(views), sector)
      ensures (old(Settled(g, views)) ==> Steady()) && (old(Poised()) ==> Poised())
    {
      hide *;
      Open(sector);
      LookupKeeps(g, disk, flat, views, sector);
      DiskAfterOutside(g, disk, views, sector);
      if Settled(g, views) {
        SettledStays(g, disk, views, sector);
      }
      if Poised() {
        OpenPoised();
      }
      r := ReadSector(sector);
      GivenIs(r, sector, old(disk), old(views));
      Close();
      Open(sector);
      MakeSelected(r, sector);
      LookedUp(old(disk), old(views), sector);
      ClosePoised();
    }

    lemma OpenPoised()
      requires Poised()
      ensures Settled(g, views)
      ensures fatType.Fat16? || nextFree == LAST_CLUSTER || g.window == 1 || Whole(g, Kept(views))
    {
    }

    lemma ClosePoised()
      ensures Steady() && (fatType.Fat16? || nextFree == LAST_CLUSTER || Spare()) ==> Poised()
    {
    }

    // A lookup that finds the whole FAT resident leaves the windows alone.
    lemma LookedUp(d: seq<Sector>, ws: seq<View>, x: nat)
      requires g.Fits(d) && AllPlaced(g, ws) && |ws| > 0 && g.InFat(x) && views == ViewsAfter(g, d, ws, x)
      ensures Went(d, ws, x)
      ensures g.window == 1 || Whole(g, Kept(ws)) ==> Spare()
    {
      if Whole(g, Kept(ws)) {
        KeptIsWhole(g, ws);
      }
    }

    lemma EntryHome(c: nat)
      requires Valid() && InTable(g, fatType, c)
      ensures g.fatBegin <= g.fatEnd <= |flat| && c < |Fat()| == Count(g, fatType)
      ensures var offset := if fatType.Fat16? then c / 256 else c / 128;
              && SectorOf(fatType, c) == offset && g.InFat(g.fatBegin + offset)
              && Fat()[c] == (if fatType.Fat16? then Get16(flat[g.fatBegin + offset], (c - offset * 256) * 2)
                              else Get32(flat[g.fatBegin + offset], (c - offset * 128) * 4))
    {
      InTableIsBelowCount(g, fatType, c);
      assert Fat()[c] == Entry(g, fatType, flat, c);
    }

    lemma SelectedIs(r: FatBuffer, x: nat)
      requires Selected(r, x)
      ensures r.ptr < |r.sector| && x < |flat| && r.sector[r.ptr] == flat[x]
      ensures r in list
    {
    }

    // fatfs_find_next_cluster: the table's link, cluster 0 read as 2.
    method FindNextCluster(current: nat) returns (next: nat)
      requires Valid()
      requires var c := if current == 0 then 2 else current;
               InTable(g, fatType, c) && Clear(g, views, g.fatBegin + SectorOf(fatType, c))
      modifies this`head, this`disk, this`list, this`views, buffers
      ensures Valid() && (old(Settled(g, views)) ==> Steady()) && (old(Poised()) ==> Poised())
      ensures SameOutside(g, old(disk), disk)
      ensures g.fatBegin <= g.fatEnd <= |flat|
      ensures var c := if current == 0 then 2 else current;
              c < |Fat()| && next == Link(fatType, Fat()[c])
    {
      hide Valid, Settled, Clear, Selected, SameOutside, InTable, Table, SectorOf, Get16, Get32, Went, Spare;
      var c := if current == 0 then 2 else current;
      EntryHome(c);
      var offset := if fatType.Fat16? then c / 256 else c / 128;
      var pbuf := FatSector(g.fatBegin + offset);
      SelectedIs(pbuf, g.fatBegin + offset);
      if fatType.Fat16? {
        var position := (c - offset * 256) * 2;
        next := Get16(pbuf.sector[pbuf.ptr], position);
        if 0xFFF8 <= next <= 0xFFFF {
          next := LAST_CLUSTER;
        }
      } else {
        var position := (c - offset * 128) * 4;
        next := Get32(pbuf.sector[pbuf.ptr], position) % 0x1000_0000;
        if 0x0FFF_FFF8 <= next <= 0x0FFF_FFFF {
          next := LAST_CLUSTER;
        }
      }
    }

    // Where in the list a selected buffer is, and that the list stays coherent
    // when its sector is rewritten.
    lemma RewriteSelected(pbuf: FatBuffer, x: nat, s: Sector) returns (i: nat)
      requires Valid() && g.InFat(x) && Selected(pbuf, x)
      ensures i < |list| == |views| && list[i] == pbuf && views[i] == ViewOf(pbuf)
      ensures pbuf.ptr < |pbuf.sector| && pbuf in buffers && x < |flat| == |disk| && InfoBelow()
      ensures Reorders(list, buffers) && Linked(head, list) && Shown(list, views)
      ensures forall j | 0 <= j < |list| && j != i :: list[j] != pbuf
      ensures var after := views[i := Rewritten(views[i], pbuf.ptr, s)];
              && Coherent(g, disk, flat[x := s], after)
              && (Settled(g, views) ==> Settled(g, after)) && (Whole(g, Kept(views)) ==> Whole(g, Kept(after)))
    {
      i :| 0 <= i < |list| && list[i] == pbuf;
      UpdateKeeps(g, disk, flat, views, i, x, s);
      assert Slot(g, views[i], x) == pbuf.ptr;
      SettledByAddress(g, views, views[i := Rewritten(views[i], pbuf.ptr, s)]);
      SettledByAddress(g, Kept(views), Kept(views[i := Rewritten(views[i], pbuf.ptr, s)]));
    }

    // FAT16_SET_16BIT_WORD and FAT32_SET_32BIT_WORD through a buffer that holds
    // sector x: the flat table's sector changes with it.
    method SetSector(pbuf: FatBuffer, x: nat, s: Sector)
      requires Valid() && g.InFat(x) && Selected(pbuf, x)
      modifies pbuf`sector, pbuf`dirty, this`flat, this`views
      ensures Valid() && x < old(|flat|) && flat == old(flat)[x := s]
      ensures (old(Settled(g, views)) ==> Steady()) && (old(Poised()) ==> Poised())
    {
      hide Valid, Settled, Whole, Kept, Selected, Reorders, Linked, Coherent;
      ghost var i := RewriteSelected(pbuf, x, s);
      flat := flat[x := s];
      views := views[i := Rewritten(views[i], pbuf.ptr, s)];
      pbuf.sector := pbuf.sector[pbuf.ptr := s];
      pbuf.dirty := true;
      Close();
    }

    // fatfs_fat_set_cluster: entry c of the table, and nothing else.
    method SetCluster(cluster: nat, next: nat)
      requires Valid() && next < RANGE
      requires InTable(g, fatType, cluster) && Clear(g, views, g.fatBegin + SectorOf(fatType, cluster))
      modifies this`head, this`disk, this`list, this`views, this`flat, buffers
      ensures Valid() && (old(Settled(g, views)) ==> Steady()) && (old(Poised()) ==> Poised())
      ensures SameOutside(g, old(disk), disk)
      ensures g.fatBegin <= g.fatEnd <= old(|flat|) == |flat|
      ensures cluster < old(|Fat()|) && Fat() == old(Fat())[cluster := Cut(fatType, next)]
    {
      hide Valid, Settled, Clear, Selected, SameOutside, InTable, SectorOf, Table, Get16, Get32, Set16, Set32;
      hide Position, Went, Spare;
      EntryHome(cluster);
      var offset := if fatType.Fat16? then cluster / 256 else cluster / 128;
      SetOneEntry(g, fatType, flat, cluster, next);
      var pbuf := FatSector(g.fatBegin + offset);
      SelectedIs(pbuf, g.fatBegin + offset);
      PositionIs(fatType, cluster);
      if fatType.Fat16? {
        var position := (cluster - offset * 256) * 2;
        SetSector(pbuf, g.fatBegin + offset, Set16(pbuf.sector[pbuf.ptr], position, next % 0x1_0000));
      } else {
        var position := (cluster - offset * 128) * 4;
        SetSector(pbuf, g.fatBegin + offset, Set32(pbuf.sector[pbuf.ptr], position, next));
      }
    }

    // ---------------------------------------------------------- FSINFO

    lemma OpenBelow()
      requires Valid() && fatType.Fat32?
      ensures Ready() && Coherent(g, disk, flat, views) && |views| > 0 && |list| > 0
      ensures fsInfo < |flat| == |disk| && !Resident(g, views, fsInfo) && fsInfo < g.fatBegin <= g.fatEnd <= |flat|
      ensures flat[fsInfo] == disk[fsInfo] && fsInfo + g.window <= |disk| && 1 <= g.window
    {
      BelowFat(g, disk, flat, views, fsInfo);
    }

    lemma AfterMiss(r: FatBuffer, d: seq<Sector>, ws: seq<View>)
      requires Coherent(g, d, flat, ws) && |ws| > 0 && |d| == |disk| && !Resident(g, ws, fsInfo) && fsInfo < g.fatBegin
      requires disk == DiskAfter(g, d, ws, fsInfo) && fsInfo + g.window <= |d|
      requires views == ViewsAfter(g, d, ws, fsInfo)
      requires |list| > 0 && r == list[0] && Shown(list, views) && r.address + r.ptr == fsInfo
      ensures Coherent(g, disk, flat, Kept(ws)) && views[1..] == Kept(ws) && |list| == |views|
      ensures Kept(ws) == ws[..|ws| - 1] && r.ptr == 0 && r.address == fsInfo && fsInfo < |flat| == |disk| && r.sector[r.ptr] == flat[fsInfo]
    {
      EvictionKeeps(g, d, flat, ws);
      BelowFat(g, disk, flat, Kept(ws), fsInfo);
      assert ViewOf(r) == views[0] == Loaded(g, disk, fsInfo);
    }

    // fatfs_set_fs_info_next_free_cluster: on FAT32 the hint is written straight
    // to the FSINFO sector through a buffer that is then invalid.
    method SetFsInfoNextFree(value: nat)
      requires Valid() && value < RANGE
      modifies this`head, this`disk, this`list, this`views, this`flat, this`nextFree, buffers
      ensures Valid() && SameData(g, old(disk), disk) && g.fatBegin <= g.fatEnd <= old(|flat|) == |flat|
      ensures fatType.Fat16? ==> flat == old(flat) && nextFree == old(nextFree) && views == old(views)
      ensures fatType.Fat32? ==>
                && nextFree == value && fsInfo < |flat|
                && flat == old(flat)[fsInfo := Set32(old(flat)[fsInfo], 492, value)] && disk[fsInfo] == flat[fsInfo]
      ensures Fat() == old(Fat())
      ensures fatType.Fat32? && old(Spare()) ==> Steady()
    {
      hide Valid, Ready, Coherent, Reorders, Linked, Shown, Settled, Whole, SameData, SameOutside, Resident, Table;
      hide Set32;
      SameDisk();
      if fatType.Fat16? {
        SameDataSame(g, disk);
      } else {
        OpenBelow();
        var r := ReadSector(fsInfo);
        AfterMiss(r, old(disk), old(views));
        DiskAfterOutside(g, old(disk), old(views), fsInfo);
        SameOutsideIsSameData(g, old(disk), disk);
        label loaded:
        StoreFsInfo(r, value);
        SameDataChain(g, old(disk), old@loaded(disk), disk);
      }
    }

    lemma HeadApart()
      requires Reorders(list, buffers) && Shown(list, views)
      ensures |views| == |list| > 0 && Shown(list[1..], views[1..])
      ensures list[0] !in list[1..] && [list[0]] + list[1..] == list
    {
    }

    // The buffer's word is set, its sector written to disk, and it is emptied.
    method StoreFsInfo(r: FatBuffer, value: nat)
      requires Reorders(list, buffers) && Linked(head, list) && Shown(list, views)
      requires |list| > 0 && r == list[0] && r.ptr == 0 && r.address == fsInfo && |r.sector| == g.window
      requires |views| > 0 && Coherent(g, disk, flat, views[1..]) && fsInfo < g.fatBegin && 1 <= g.window
      requires fsInfo < |flat| == |disk| && r.sector[0] == flat[fsInfo] && g.fatBegin <= g.fatEnd <= |flat|
      modifies r, this`disk, this`flat, this`views, this`nextFree
      ensures Valid() && SameData(g, old(disk), disk) && nextFree == value
      ensures |flat| == old(|flat|) == |disk| && fsInfo < |flat|
      ensures flat == old(flat)[fsInfo := Set32(old(flat)[fsInfo], 492, value)] && disk[fsInfo] == flat[fsInfo]
      ensures Fat() == old(Fat())
      ensures g.window == 1 || Whole(g, old(views)[1..]) ==> Steady()
    {
      hide Valid, Ready, Coherent, Linked, Settled, Whole, SameData, Table, Set32, Reorders, Overlaid, Shown;
      ghost var s := Set32(flat[fsInfo], 492, value);
      ghost var kept, d := views[1..], disk;
      HeadApart();
      r.sector := r.sector[r.ptr := Set32(r.sector[r.ptr], 492, value)];
      r.dirty := true;
      nextFree := value;
      WriteOne(disk, r.address, r.sector);
      SameDataBelow(g, disk, fsInfo, s);
      disk := disk[..r.address] + r.sector[..1] + disk[r.address + 1..];
      r.address := INVALID;
      r.dirty := false;
      OutsideKeeps(g, d, flat, kept, ViewOf(r), fsInfo, s);
      TableOutside(g, fatType, flat, fsInfo, s);
      flat := flat[fsInfo := s];
      views := [ViewOf(r)] + kept;
      PushShown(r, list[1..], kept);
      if g.window == 1 || Whole(g, kept) {
        SettledWithInvalid(g, kept, ViewOf(r));
      }
      Close();
    }

    // ---------------------------------------------------------- purge

    lemma FlushFacts(i: nat)
      requires Valid() && i < |list|
      ensures |views| == |list| && views[i] == ViewOf(list[i]) && Placed(g, views[i]) && g.Fits(disk)
      ensures list[i] in buffers && InfoBelow() && Coherent(g, disk, flat, views)
      ensures Reorders(list, buffers) && Linked(head, list) && Shown(list, views)
      ensures forall j | 0 <= j < |list| && j != i :: list[j] != list[i]
    {
      hide Coherent, Linked;
      assert list[i] in list;
      assert Coherent(g, disk, flat, views);
    }

    lemma FlushAt(i: nat)
      requires Coherent(g, disk, flat, views) && i < |views|
      ensures Placed(g, views[i]) && g.Fits(disk)
      ensures Coherent(g, Flushed(g, disk, views[i]), flat, views[i := views[i].(dirty := false)])
      ensures Settled(g, views) ==> Settled(g, views[i := views[i].(dirty := false)])
      ensures Whole(g, Kept(views)) ==> Whole(g, Kept(views[i := views[i].(dirty := false)]))
      ensures SameOutside(g, disk, Flushed(g, disk, views[i]))
    {
      FlushKeeps(g, disk, flat, views, i);
      SettledByAddress(g, views, views[i := views[i].(dirty := false)]);
      SettledByAddress(g, Kept(views), Kept(views[i := views[i].(dirty := false)]));
      assert Placed(g, views[i]) && g.Fits(disk);
      hide Coherent, Settled, Flushed, Stored, Placed;
      forall x: nat | x < |disk| && !g.InFat(x)
        ensures Flushed(g, disk, views[i])[x] == disk[x]
      {
        FlushStaysInFat(g, disk, views[i], x);
      }
    }

    // The loop body of fatfs_fat_purge.
    method PurgeBuffer(b: FatBuffer, ghost i: nat)
      requires Valid() && i < |list| && b == list[i]
      modifies this`disk, this`views, b`dirty
      ensures Valid() && (old(Settled(g, views)) ==> Settled(g, views)) && (old(Spare()) ==> Spare())
      ensures |views| == old(|views|) == |list| && (old(Cleaned(i)) ==> Cleaned(i + 1))
      ensures SameOutside(g, old(disk), disk)
    {
      hide Valid, Settled, Reorders, Linked, Coherent, SameOutside, Placed, Stored, Rewritten, Whole, Kept;
      FlushFacts(i);
      FlushAt(i);
      if b.dirty {
        Writeback(b);
      }
      views := views[i := views[i].(dirty := false)];
      Close();
    }

    lemma PurgeStart()
      requires Valid()
      ensures head == At(list, 0) && |list| == |views| && SameOutside(g, disk, disk) && Cleaned(0)
    {
    }

    // The first i windows are clean.
    ghost predicate Cleaned(i: nat)
      reads this`views
    {
      i <= |views| && forall j | 0 <= j < i :: !views[j].dirty
    }

    lemma NextOf(i: nat)
      requires Valid() && i < |list|
      ensures list[i].next == At(list, i + 1)
    {
    }

    lemma PurgeEnd()
      requires Valid() && Cleaned(|views|)
      ensures disk == flat
    {
      CleanIsCurrent(g, disk, flat, views);
    }

    // fatfs_fat_purge: afterwards the disk is the flat image.
    method Purge()
      requires Valid()
      modifies this`disk, this`views, buffers`dirty
      ensures Valid() && (old(Settled(g, views)) ==> Steady()) && (old(Poised()) ==> Poised())
      ensures disk == flat && SameOutside(g, old(disk), disk)
    {
      hide Valid, Settled, SameOutside, Cleaned, Spare;
      PurgeStart();
      var pcur := head;
      ghost var i := 0;
      while pcur != null
        invariant Valid() && 0 <= i <= |list| == |views| && pcur == At(list, i)
        invariant (old(Settled(g, views)) ==> Settled(g, views)) && (old(Spare()) ==> Spare())
        invariant Cleaned(i) && SameOutside(g, old(disk), disk)
        decreases |list| - i
      {
        label before:
        InPool(i);
        assert Cleaned(i);
        PurgeBuffer(pcur, i);
        SameOutsideChain(g, old(disk), old@before(disk), disk);
        NextOf(i);
        pcur := pcur.next;
        i := i + 1;
      }
      PurgeEnd();
    }

    lemma InPool(i: nat)
      requires Valid() && i < |list|
      ensures list[i] in buffers
    {
      assert list[i] in list;
    }

    // ---------------------------------------------------------- scans

    // The masked word of entry c, as fatfs_find_blank_cluster reads it.
    method EntryWord(c: nat) returns (v: nat)
      requires Valid() && InTable(g, fatType, c) && Clear(g, views, Home(c))
      modifies this`head, this`disk, this`list, this`views, buffers
      ensures Valid() && SameOutside(g, old(disk), disk) && Went(old(disk), old(views), Home(c))
      ensures (old(Settled(g, views)) ==> Steady()) && (old(Poised()) ==> Poised())
      ensures g.fatBegin <= g.fatEnd <= |flat| && c < |Fat()|
      ensures v == 0 <==> IsBlank(fatType, Fat()[c])
    {
      hide Valid, Settled, Clear, Selected, SameOutside, InTable, Table, SectorOf, Get16, Get32, Went, Spare;
      EntryHome(c);
      var offset := if fatType.Fat16? then c / 256 else c / 128;
      var pbuf := FatSector(g.fatBegin + offset);
      SelectedIs(pbuf, g.fatBegin + offset);
      if fatType.Fat16? {
        var position := (c - offset * 256) * 2;
        v := Get16(pbuf.sector[pbuf.ptr], position);
      } else {
        var position := (c - offset * 128) * 4;
        v := Get32(pbuf.sector[pbuf.ptr], position) % 0x1000_0000;
      }
    }

    lemma ClearWhenSteady(x: nat)
      requires Steady() && g.InFat(x)
      ensures Clear(g, views, x)
    {
      Open(x);
      SettledStays(g, disk, views, x);
    }

    // An ascending scan may look x up: the table is settled, or every window
    // starts behind.
    ghost predicate Scannable(x: nat)
      reads this`views
    {
      Settled(g, views) || Behind(g, views, x)
    }

    lemma ScanClear(x: nat)
      requires Valid() && g.InFat(x) && Scannable(x)
      ensures Clear(g, views, x)
    {
      Open(x);
      if Settled(g, views) {
        SettledStays(g, disk, views, x);
      } else {
        BehindIsClear(g, disk, views, x);
      }
    }

    lemma StaysScannable(c: nat)
      requires Steady()
      ensures Scannable(Home(c))
    {
    }

    lemma ScanStep(d: seq<Sector>, ws: seq<View>, x: nat, y: nat)
      requires Went(d, ws, x) && g.InFat(x) && x <= y
      ensures Behind(g, ws, x) ==> Behind(g, views, y)
    {
      if Behind(g, ws, x) {
        BehindIsClear(g, d, ws, x);
        BehindMore(g, views, x, y);
      }
    }

    // fatfs_find_blank_cluster: the least blank entry at or after the start.
    method FindBlankCluster(start: nat) returns (found: bool, free: nat)
      requires Valid() && Scannable(Home(start))
      modifies this`head, this`disk, this`list, this`views, buffers
      ensures Valid() && SameOutside(g, old(disk), disk) && g.fatBegin <= g.fatEnd <= |flat|
      ensures (old(Settled(g, views)) ==> Steady()) && (old(Poised()) ==> Poised())
      ensures Fat() == old(Fat()) && found == (C.FirstBlank(fatType, Fat(), start) < |Fat()|)
      ensures found ==> free == C.FirstBlank(fatType, Fat(), start) && Scannable(Home(free))
    {
      hide Valid, Settled, SameOutside, Table, IsBlank, Clear, Went, Behind, Spare, SectorOf;
      SameDisk();
      ghost var f := Fat();
      free := start;
      while true
        invariant Valid() && SameOutside(g, old(disk), disk) && g.fatBegin <= g.fatEnd <= |flat| && Fat() == f
        invariant (old(Settled(g, views)) ==> Steady()) && (old(Poised()) ==> Poised())
        invariant old(Settled(g, views)) || Behind(g, views, Home(free))
        invariant start <= free && forall c | start <= c < free && c < |f| :: !IsBlank(fatType, f[c])
        decreases Count(g, fatType) - free
      {
        InTableIsBelowCount(g, fatType, free);
        SectorIs(free);
        var offset := if fatType.Fat16? then free / 256 else free / 128;
        if offset >= g.fatEnd - g.fatBegin {
          C.FirstBlankIs(fatType, f, start, free);
          return false, free;
        }
        label before:
        ScanClear(Home(free));
        var word := EntryWord(free);
        SameOutsideChain(g, old(disk), old@before(disk), disk);
        ScanStep(old@before(disk), old@before(views), Home(free), Home(free));
        if word == 0 {
          C.FirstBlankIs(fatType, f, start, free);
          return true, free;
        }
        SectorIs(free + 1);
        ScanStep(old@before(disk), old@before(views), Home(free), Home(free + 1));
        free := free + 1;
      }
    }

    lemma SectorIs(c: nat)
      ensures SectorOf(fatType, c) == if fatType.Fat16? then c / 256 else c / 128
      ensures c > 0 ==> SectorOf(fatType, c - 1) <= SectorOf(fatType, c)
    {
    }

    lemma SameDisk()
      requires Valid()
      ensures SameOutside(g, disk, disk) && g.fatBegin <= g.fatEnd <= |flat|
    {
    }

    // fatfs_count_free_clusters: the entries whose whole word is zero. From a
    // list just initialised it settles the table when the buffers hold the FAT.
    method CountFreeClusters() returns (count: nat)
      requires Valid() && Scannable(g.fatBegin)
      modifies this`head, this`disk, this`list, this`views, buffers
      ensures Valid() && SameOutside(g, old(disk), disk) && g.fatBegin <= g.fatEnd <= |flat|
      ensures (old(Settled(g, views)) ==> Steady()) && (old(Poised()) ==> Poised())
      ensures old(Unused(views)) && g.fatEnd <= Edge(g, |buffers|) ==> Steady()
      ensures old(Unused(views)) && g.fatEnd <= Edge(g, |buffers| - 1) ==> Poised()
      ensures count == Zeros(Fat())
    {
      hide Valid, Settled, SameOutside, Table, Clear, Selected, Zeros, Went, Behind, Spare, Scanned, Unused, Edge;
      SameDisk();
      Fresh();
      count := 0;
      var i := 0;
      ghost var n := PerSector(fatType);
      ZeroZeros();
      while i < g.fatEnd - g.fatBegin
        invariant 0 <= i <= g.fatEnd - g.fatBegin <= |flat| - g.fatBegin
        invariant Valid() && SameOutside(g, old(disk), disk)
        invariant (old(Settled(g, views)) ==> Steady()) && (old(Poised()) ==> Poised())
        invariant old(Settled(g, views)) || Behind(g, views, g.fatBegin + i)
        invariant |views| == |buffers|
        invariant old(Unused(views)) && g.fatEnd <= Edge(g, |buffers|) ==> Scanned(g, views, g.fatBegin + i)
        invariant i * n <= |Fat()| && count == Zeros(Fat()[..i * n])
      {
        label before:
        ScanClear(g.fatBegin + i);
        var pbuf := FatSector(g.fatBegin + i);
        SelectedIs(pbuf, g.fatBegin + i);
        SameOutsideChain(g, old(disk), old@before(disk), disk);
        ScanStep(old@before(disk), old@before(views), g.fatBegin + i, g.fatBegin + i + 1);
        FreshStep(old@before(disk), old@before(views), g.fatBegin + i);
        var more := CountSector(fatType, pbuf.sector[pbuf.ptr]);
        count := count + more;
        NextSector(i);
        i := i + 1;
      }
      FreshEnd();
      assert Fat()[..i * n] == Fat();
    }

    lemma Fresh()
      requires Valid()
      ensures Unused(views) ==> Scanned(g, views, g.fatBegin)
      ensures |views| == |buffers| > 0 && Edge(g, |buffers| - 1) <= Edge(g, |buffers|)
    {
      hide Coherent, Linked, Scanned, Unused, Edge, AllPlaced, Distinct;
      if Unused(views) {
        ScanStarts(g, views);
      }
      EdgeMonotone(g, |buffers| - 1, |buffers|);
    }

    lemma FreshStep(d: seq<Sector>, ws: seq<View>, x: nat)
      requires Went(d, ws, x) && g.InFat(x)
      ensures Scanned(g, ws, x) && |views| == |ws| && g.fatEnd <= Edge(g, |views|) ==> Scanned(g, views, x + 1)
      ensures |views| == |ws|
    {
      if Scanned(g, ws, x) && g.fatEnd <= Edge(g, |ws|) {
        ScanGoesOn(g, d, ws, x);
      }
    }

    lemma FreshEnd()
      requires Valid()
      ensures Scanned(g, views, g.fatEnd) ==> Steady()
      ensures Scanned(g, views, g.fatEnd) && g.fatEnd <= Edge(g, |buffers| - 1) ==> Poised()
      ensures |views| == |buffers|
    {
      hide Linked, Scanned, Edge, Agree, Disjoint, Backed, Distinct;
      if Scanned(g, views, g.fatEnd) {
        ScanSettles(g, disk, views);
      }
    }

    lemma NextSector(i: nat)
      requires g.fatBegin <= g.fatEnd <= |flat| && i < g.fatEnd - g.fatBegin
      ensures var n := PerSector(fatType);
              && i * n <= (i + 1) * n <= |Fat()|
              && Zeros(Fat()[..(i + 1) * n]) == Zeros(Fat()[..i * n]) + Zeros(Words(fatType, flat[g.fatBegin + i]))
    {
      hide PerSector, Table, Words, Zeros;
      SectorOfTable(g, fatType, flat, i);
      SplitAt(Fat(), i * PerSector(fatType), (i + 1) * PerSector(fatType), Words(fatType, flat[g.fatBegin + i]));
    }

    static lemma SplitAt(f: seq<nat>, a: nat, b: nat, words: seq<nat>)
      requires a <= b <= |f| && f[a..b] == words
      ensures Zeros(f[..b]) == Zeros(f[..a]) + Zeros(words)
    {
      ZerosSplit(f, a, b);
    }

    // ---------------------------------------------------------- data

    // fatfs_sector_read and fatfs_sector_write, past the FAT.
    method SectorRead(lba: nat, count: nat) returns (data: seq<Sector>)
      requires lba + count <= |disk|
      ensures data == disk[lba..lba + count]
    {
      data := disk[lba..lba + count];
    }

    method SectorWrite(lba: nat, data: seq<Sector>)
      requires Valid() && g.fatEnd <= lba && lba + |data| <= |disk|
      modifies this`disk, this`flat
      ensures Valid() && (old(Settled(g, views)) ==> Steady()) && (old(Poised()) ==> Poised())
      ensures |disk| == old(|disk|) && |flat| == old(|flat|) && disk == Overlaid(old(disk), lba, data)
      ensures g.fatBegin <= g.fatEnd <= |flat| && Fat() == old(Fat())
    {
      WritableData(lba, data);
      hide Valid, Settled, Coherent, Reorders, Linked, Shown, Table, Spare, Overlaid;
      flat := Overlaid(flat, lba, data);
      disk := Overlaid(disk, lba, data);
      Close();
    }

    lemma WritableData(lba: nat, data: seq<Sector>)
      requires Valid() && g.fatEnd <= lba && lba + |data| <= |disk|
      ensures Reorders(list, buffers) && Linked(head, list) && Shown(list, views) && InfoBelow()
      ensures |disk| == |flat| && g.fatBegin <= g.fatEnd <= |flat|
      ensures Coherent(g, Overlaid(disk, lba, data), Overlaid(flat, lba, data), views)
      ensures Table(g, fatType, Overlaid(flat, lba, data)) == Table(g, fatType, flat)
    {
      DataKeeps(g, disk, flat, views, lba, data);
      TableSame(g, fatType, flat, Overlaid(flat, lba, data));
    }

    // ---------------------------------------------------------- chains

    lemma Entries()
      requires Valid()
      ensures g.fatBegin <= g.fatEnd <= |flat| == |disk| && |Fat()| == Count(g, fatType)
    {
    }

    // SetCluster on a steady table.
    method SetSteady(cluster: nat, next: nat)
      requires Steady() && g.fatBegin <= g.fatEnd <= |flat| && cluster < |Fat()| && next < RANGE
      modifies this`head, this`disk, this`list, this`views, this`flat, buffers
      ensures Steady() && g.fatBegin <= g.fatEnd <= |flat| == old(|flat|)
      ensures SameOutside(g, old(disk), disk) && (old(Poised()) ==> Poised())
      ensures cluster < |old(Fat())| && Fat() == old(Fat())[cluster := Cut(fatType, next)]
    {
      hide Valid, Settled, SameOutside, Table, SectorOf, Clear, Spare;
      InTableIsBelowCount(g, fatType, cluster);
      EntryHome(cluster);
      ClearWhenSteady(g.fatBegin + SectorOf(fatType, cluster));
      SetCluster(cluster, next);
    }

    // FindNextCluster on a steady table.
    method NextSteady(cluster: nat) returns (next: nat)
      requires Steady() && g.fatBegin <= g.fatEnd <= |flat| && 0 < cluster < |Fat()|
      modifies this`head, this`disk, this`list, this`views, buffers
      ensures Steady() && SameOutside(g, old(disk), disk) && (old(Poised()) ==> Poised())
      ensures cluster < |old(Fat())| && next == Link(fatType, old(Fat())[cluster])
    {
      hide Valid, Settled, SameOutside, Table, SectorOf, Clear, Link, Spare;
      InTableIsBelowCount(g, fatType, cluster);
      EntryHome(cluster);
      ClearWhenSteady(g.fatBegin + SectorOf(fatType, cluster));
      next := FindNextCluster(cluster);
    }

    // fatfs_free_cluster_chain.
    method FreeClusterChain(start: nat)
      requires Steady() && g.fatBegin <= g.fatEnd <= |flat|
      requires C.InRange(fatType, Fat()) && (C.Stops(start) || start < |Fat()|)
      modifies this`head, this`disk, this`list, this`views, this`flat, buffers
      ensures Steady() && SameOutside(g, old(disk), disk) && g.fatBegin <= g.fatEnd <= |flat| == old(|flat|)
      ensures old(Poised()) ==> Poised()
      ensures Fat() == C.Freed(fatType, old(Fat()), start)
    {
      hide Valid, Settled, SameOutside, Table, Link, C.InRange, Spare;
      SameDisk();
      var next: nat := start;
      ghost var f := Fat();
      while next != LAST_CLUSTER && next != 0
        invariant old(Poised()) ==> Poised()
        invariant Steady() && SameOutside(g, old(disk), disk) && g.fatBegin <= g.fatEnd <= |flat| == old(|flat|) && Fat() == f
        invariant C.InRange(fatType, f) && (C.Stops(next) || next < |f|)
        invariant C.Freed(fatType, f, next) == C.Freed(fatType, old(Fat()), start)
        decreases C.Left(fatType, f, next)
      {
        var last: nat := next;
        C.LeftFalls(fatType, f, last);
        C.InRangeKept(fatType, f, last);
        LinkInRange(f, last);
        label before:
        next := NextSteady(last);
        SameOutsideChain(g, old(disk), old@before(disk), disk);
        label between:
        SetSteady(last, 0);
        SameOutsideChain(g, old(disk), old@between(disk), disk);
        f := f[last := 0];
      }
    }

    lemma LinkInRange(f: seq<nat>, c: nat)
      requires C.InRange(fatType, f) && c < |f|
      ensures C.Stops(Link(fatType, f[c])) || Link(fatType, f[c]) < |f|
    {
    }

    // fatfs_fat_add_cluster_to_chain: nothing is done from an end mark or when
    // the walk meets a zero link; else the entry goes after the last cluster.
    method AddClusterToChain(start: nat, entry: nat, ghost trail: seq<nat>) returns (ok: bool)
      requires Steady() && g.fatBegin <= g.fatEnd <= |flat| && entry < |Fat()| < RANGE
      requires start == LAST_CLUSTER || (C.Trail(fatType, Fat(), trail) && trail[0] == start)
      modifies this`head, this`disk, this`list, this`views, this`flat, buffers
      ensures Steady() && SameOutside(g, old(disk), disk) && g.fatBegin <= g.fatEnd <= |flat| == old(|flat|)
      ensures old(Poised()) ==> Poised()
      ensures ok <==> start != LAST_CLUSTER && Link(fatType, old(Fat())[trail[|trail| - 1]]) == LAST_CLUSTER
      ensures !ok ==> Fat() == old(Fat())
      ensures ok ==> Fat() == C.Linked(fatType, old(Fat()), trail[|trail| - 1], entry)
    {
      hide Valid, Settled, SameOutside, Table, Link, C.Trail, Spare;
      SameDisk();
      var last: nat := LAST_CLUSTER;
      var next: nat := start;
      if start == LAST_CLUSTER {
        return false;
      }
      ghost var i, f := 0, Fat();
      C.TrailEnds(fatType, f, trail);
      while next != LAST_CLUSTER
        invariant old(Poised()) ==> Poised()
        invariant Steady() && SameOutside(g, old(disk), disk) && g.fatBegin <= g.fatEnd <= |flat| == old(|flat|) && Fat() == f
        invariant 0 <= i <= |trail| && (i > 0 ==> last == trail[i - 1] < |f|)
        invariant if i < |trail| then next == trail[i] < |f| else i > 0 && next == LAST_CLUSTER == Link(fatType, f[last])
        decreases |trail| - i
      {
        last := next;
        C.TrailAt(fatType, f, trail, i);
        if i + 1 < |trail| { C.TrailAt(fatType, f, trail, i + 1); }
        label before:
        next := NextSteady(next);
        SameOutsideChain(g, old(disk), old@before(disk), disk);
        if next == 0 {
          return false;
        }
        i := i + 1;
      }
      label walked:
      SetSteady(last, entry);
      SameOutsideChain(g, old(disk), old@walked(disk), disk);
      label linked:
      SetSteady(entry, LAST_CLUSTER);
      SameOutsideChain(g, old(disk), old@linked(disk), disk);
      ok := true;
    }

    // The loop body of fatfs_add_free_space.
    method AddCluster(tail: nat) returns (found: bool, free: nat)
      requires Steady() && g.fatBegin <= g.fatEnd <= |flat| && tail < |Fat()| < RANGE
      modifies this`head, this`disk, this`list, this`views, this`flat, buffers
      ensures Steady() && g.fatBegin <= g.fatEnd <= |flat| == old(|flat|) && SameOutside(g, old(disk), disk)
      ensures |Fat()| == |old(Fat())| && found == (C.FirstBlank(fatType, old(Fat()), rootCluster) < |Fat()|)
      ensures if found then free == C.FirstBlank(fatType, old(Fat()), rootCluster)
                         && Fat() == C.Linked(fatType, old(Fat()), tail, free)
              else Fat() == old(Fat())
    {
      hide Valid, Settled, SameOutside, Table, Cut, C.FirstBlank, IsBlank;
      found, free := FindBlankCluster(rootCluster);
      if found {
        label found_:
        SetSteady(tail, free);
        SameOutsideChain(g, old(disk), old@found_(disk), disk);
        label linked:
        SetSteady(free, LAST_CLUSTER);
        SameOutsideChain(g, old(disk), old@linked(disk), disk);
      }
    }

    // On FAT32 a hint in the FSINFO sector is gone, the sector else as it was.
    predicate HintGone(before: seq<Sector>, hint: nat, after: seq<Sector>) {
      fatType.Fat32? ==>
        && fsInfo < |before| == |after|
        && after[fsInfo] == if hint == LAST_CLUSTER then before[fsInfo]
                            else before[fsInfo][..492] + [0xFF, 0xFF, 0xFF, 0xFF] + before[fsInfo][496..]
    }

    lemma HintBelow()
      requires Valid()
      ensures fatType.Fat32? ==> fsInfo < |flat| == |disk| && fsInfo < g.fatBegin && flat[fsInfo] == disk[fsInfo]
      ensures InfoBelow() && HintGone(disk, LAST_CLUSTER, disk)
    {
      if fatType.Fat32? {
        OpenBelow();
      }
    }

    lemma HintNowGone(before: seq<Sector>, hint: nat)
      requires fatType.Fat32? ==>
                 fsInfo < |before| == |disk| && hint != LAST_CLUSTER && disk[fsInfo] == Set32(before[fsInfo], 492, LAST_CLUSTER)
      ensures HintGone(before, hint, disk)
    {
      if fatType.Fat32? {
        var s: Sector := before[fsInfo];
        assert Set32(s, 492, LAST_CLUSTER) == s[..492] + [0xFF, 0xFF, 0xFF, 0xFF] + s[496..];
      }
    }

    lemma HintKept(before: seq<Sector>, hint: nat, e: seq<Sector>, h: seq<Sector>)
      requires HintGone(before, hint, e) && SameOutside(g, e, h) && InfoBelow()
      ensures HintGone(before, hint, h)
    {
      if fatType.Fat32? {
        assert e[fsInfo] == e[..g.fatBegin][fsInfo] == h[..g.fatBegin][fsInfo] == h[fsInfo];
      }
    }

    // The hint is set to unknown, if it was not.
    method ForgetHint()
      requires Poised()
      modifies this`head, this`disk, this`list, this`views, this`flat, this`nextFree, buffers
      ensures Poised() && SameData(g, old(disk), disk) && g.fatBegin <= g.fatEnd <= old(|flat|) == |flat| && InfoBelow()
      ensures (fatType.Fat32? ==> nextFree == LAST_CLUSTER) && Fat() == old(Fat()) && HintGone(old(disk), old(nextFree), disk)
    {
      hide Valid, Settled, SameOutside, SameData, Table, Spare, Set32, HintGone;
      Entries();
      SameDataSame(g, disk);
      HintBelow();
      if nextFree != LAST_CLUSTER {
        SetFsInfoNextFree(LAST_CLUSTER);
        HintBelow();
        HintNowGone(old(disk), old(nextFree));
      }
    }

    // fatfs_add_free_space: the table grows as Grow says.
    method AddFreeSpace(start: nat, clusters: nat) returns (ok: bool, first: nat)
      requires Poised() && g.fatBegin <= g.fatEnd <= |flat| && start < |Fat()| < RANGE
      modifies this`head, this`disk, this`list, this`views, this`flat, this`nextFree, buffers
      ensures Poised() && SameData(g, old(disk), disk) && g.fatBegin <= g.fatEnd <= |flat| == old(|flat|)
      ensures var r := C.Grow(fatType, old(Fat()), rootCluster, start, clusters);
              ok == r.ok && Fat() == r.fat && first == if |r.added| > 0 then r.added[0] else start
      ensures HintGone(old(disk), old(nextFree), disk)
    {
      hide Valid, Settled, SameOutside, SameData, Table, C.FirstBlank, C.Grow, C.Linked, Spare, HintGone;
      Entries();
      ForgetHint();
      first := start;
      var tail: nat := start;
      var i := 0;
      ghost var f := Fat();
      ghost var all := C.Grow(fatType, f, rootCluster, start, clusters);
      ghost var rest := all;
      while i < clusters
        invariant 0 <= i <= clusters && Steady() && SameData(g, old(disk), disk)
        invariant g.fatBegin <= g.fatEnd <= |flat| == old(|flat|) && Fat() == f && tail < |f| < RANGE
        invariant (fatType.Fat32? ==> nextFree == LAST_CLUSTER) && InfoBelow() && HintGone(old(disk), old(nextFree), disk)
        invariant rest == C.Grow(fatType, f, rootCluster, tail, clusters - i)
        invariant all.ok == rest.ok && all.fat == rest.fat
        invariant if i == 0 then all == rest && first == start else |all.added| > 0 && first == all.added[0]
        decreases clusters - i
      {
        C.GrowUnfolds(fatType, f, rootCluster, tail, clusters - i);
        label before:
        var found, free := AddCluster(tail);
        AddedChain(old(disk), old@before(disk), disk);
        HintKept(old(disk), old(nextFree), old@before(disk), disk);
        if !found {
          return false, first;
        }
        f := Fat();
        rest := C.Grow(fatType, f, rootCluster, free, clusters - i - 1);
        tail := free;
        if i == 0 {
          first := free;
        }
        i := i + 1;
      }
      C.GrowNothing(fatType, f, rootCluster, tail);
      ok := true;
    }

    // fatfs_allocate_free_space for a new file of one cluster: the least blank
    // cluster becomes a chain of its own.
    method StartChain() returns (ok: bool, start: nat)
      requires Poised() && g.fatBegin <= g.fatEnd <= |flat| && |Fat()| < RANGE
      modifies this`head, this`disk, this`list, this`views, this`flat, this`nextFree, buffers
      ensures Poised() && SameData(g, old(disk), disk) && g.fatBegin <= g.fatEnd <= |flat| == old(|flat|)
      ensures ok <==> C.FirstBlank(fatType, old(Fat()), rootCluster) < |old(Fat())|
      ensures ok ==> start == C.FirstBlank(fatType, old(Fat()), rootCluster)
      ensures Fat() == if ok then old(Fat())[start := Cut(fatType, LAST_CLUSTER)] else old(Fat())
      ensures HintGone(old(disk), old(nextFree), disk)
    {
      hide Valid, Settled, SameOutside, SameData, Table, C.FirstBlank, Spare, Cut, HintGone;
      Entries();
      ForgetHint();
      label hinted:
      ok, start := FindBlankCluster(rootCluster);
      AddedChain(old(disk), old@hinted(disk), disk);
      HintKept(old(disk), old(nextFree), old@hinted(disk), disk);
      if ok {
        label found:
        SetSteady(start, LAST_CLUSTER);
        AddedChain(old(disk), old@found(disk), disk);
        HintKept(old(disk), old(nextFree), old@found(disk), disk);
      }
    }

    lemma AddedChain(d: seq<Sector>, e: seq<Sector>, h: seq<Sector>)
      requires SameData(g, d, e) && SameOutside(g, e, h)
      ensures SameData(g, d, h)
    {
    }
  }

  lemma ZeroZeros()
    ensures Zeros([]) == 0
  {
  }
}
