// Scans of the FAT in ascending order, as fatfs_find_blank_cluster and
// fatfs_count_free_clusters make them (fat_table.c:288-342, 445-478): they are
// clear at every step, and from an empty list they settle it when the buffers
// hold the whole FAT.
module FatScans {
  import opened Arith
  import opened Bytes
  import opened FatWindows

  // No window starts past x.
  ghost predicate Behind(g: Volume, ws: seq<View>, x: nat) {
    forall i | 0 <= i < |ws| :: ws[i].address == INVALID || ws[i].address <= x
  }

  ghost predicate Unused(ws: seq<View>) {
    forall i | 0 <= i < |ws| :: ws[i].address == INVALID
  }

  lemma UnusedIsBehind(g: Volume, ws: seq<View>, x: nat)
    requires Unused(ws)
    ensures Behind(g, ws, x) && Stacked(g, ws, 0)
  {
  }

  lemma BehindMore(g: Volume, ws: seq<View>, x: nat, y: nat)
    requires Behind(g, ws, x) && x <= y
    ensures Behind(g, ws, y)
  {
  }

  // A lookup at or past every window's start is clear, and starts no window
  // past itself.
  lemma BehindIsClear(g: Volume, disk: seq<Sector>, ws: seq<View>, x: nat)
    requires g.Fits(disk) && AllPlaced(g, ws) && |ws| > 0 && g.InFat(x) && Behind(g, ws, x)
    ensures Clear(g, ws, x) && Behind(g, ViewsAfter(g, disk, ws, x), x)
  {
  }

  function Edge(g: Volume, k: nat): nat {
    g.fatBegin + k * g.window
  }

  // The first k windows lie one behind another from the start of the FAT, the
  // newest first; the others are unused.
  ghost predicate Stacked(g: Volume, ws: seq<View>, k: nat)
    decreases k
  {
    if k == 0 then Unused(ws) else |ws| > 0 && ws[0].address == Edge(g, k - 1) && Stacked(g, ws[1..], k - 1)
  }

  lemma EdgeNext(g: Volume, k: nat)
    requires k > 0
    ensures Edge(g, k) == Edge(g, k - 1) + g.window
  {
    Distribute(g.window, k - 1, 1);
  }

  lemma EdgeMonotone(g: Volume, j: nat, k: nat)
    requires j <= k
    ensures Edge(g, j) <= Edge(g, k)
  {
    MulMonotone(j, k, g.window);
  }

  // k windows hold just the first k windows' worth of the FAT.
  lemma {:induction false} StackedHolds(g: Volume, disk: seq<Sector>, ws: seq<View>, k: nat, x: nat)
    requires g.Fits(disk) && AllPlaced(g, ws) && Stacked(g, ws, k) && g.InFat(x)
    ensures Resident(g, ws, x) <==> x < Edge(g, k)
    ensures k <= |ws|
    decreases k
  {
    if k > 0 {
      EdgeNext(g, k);
      hide Edge;
      StackedHolds(g, disk, ws[1..], k - 1, x);
      HeldAt(g, disk, ws[0], x);
      ResidentFirst(g, ws, x);
    }
  }

  lemma ResidentFirst(g: Volume, ws: seq<View>, x: nat)
    requires |ws| > 0
    ensures Resident(g, ws, x) <==> Holds(g, ws[0], x) || Resident(g, ws[1..], x)
  {
    if Resident(g, ws[1..], x) {
      var i :| 0 <= i < |ws| - 1 && Holds(g, ws[1..][i], x);
      assert Holds(g, ws[i + 1], x);
    }
    if Resident(g, ws, x) {
      var i :| 0 <= i < |ws| && Holds(g, ws[i], x);
      assert i > 0 ==> Holds(g, ws[1..][i - 1], x);
    }
  }

  // While a window is unused it is the last, and can go.
  lemma {:induction false} StackedKept(g: Volume, ws: seq<View>, k: nat)
    requires Stacked(g, ws, k) && k < |ws|
    ensures Stacked(g, Kept(ws), k) && ws[|ws| - 1].address == INVALID
    decreases k
  {
    if k > 0 {
      StackedKept(g, ws[1..], k - 1);
      assert Kept(ws)[1..] == Kept(ws[1..]);
    }
  }

  // The scan's next lookup loads the next window behind the others.
  lemma StackedMore(g: Volume, disk: seq<Sector>, ws: seq<View>, k: nat, x: nat)
    requires g.Fits(disk) && AllPlaced(g, ws) && Stacked(g, ws, k) && g.InFat(x) && x <= Edge(g, k) && k < |ws|
    ensures Stacked(g, ViewsAfter(g, disk, ws, x), if x < Edge(g, k) then k else k + 1)
  {
    hide Edge;
    StackedHolds(g, disk, ws, k, x);
    StackedKept(g, ws, k);
    if x == Edge(g, k) {
      assert ViewsAfter(g, disk, ws, x)[1..] == Kept(ws);
    }
  }

  // Once k windows reach the end of the FAT they hold all of it.
  lemma StackedIsWhole(g: Volume, disk: seq<Sector>, ws: seq<View>, k: nat)
    requires g.Fits(disk) && AllPlaced(g, ws) && Stacked(g, ws, k) && g.fatEnd <= Edge(g, k)
    ensures Whole(g, ws)
  {
    forall x: nat | g.InFat(x)
      ensures Resident(g, ws, x)
    {
      StackedHolds(g, disk, ws, k, x);
    }
  }

  // Where an ascending scan of a fresh list stands before sector x: as many
  // windows as it takes, and no more.
  ghost predicate Scanned(g: Volume, ws: seq<View>, x: nat) {
    exists k: nat :: k <= |ws| && ScannedBy(g, ws, x, k)
  }

  ghost predicate ScannedBy(g: Volume, ws: seq<View>, x: nat, k: nat) {
    Stacked(g, ws, k) && x <= Edge(g, k) && (k > 0 ==> Edge(g, k - 1) < x)
  }

  lemma ScanStarts(g: Volume, ws: seq<View>)
    requires Unused(ws)
    ensures Scanned(g, ws, g.fatBegin)
  {
    assert ScannedBy(g, ws, g.fatBegin, 0);
  }

  lemma ScanGoesOn(g: Volume, disk: seq<Sector>, ws: seq<View>, x: nat)
    requires g.Fits(disk) && AllPlaced(g, ws) && |ws| > 0 && g.InFat(x) && Scanned(g, ws, x)
    requires g.fatEnd <= Edge(g, |ws|)
    ensures Scanned(g, ViewsAfter(g, disk, ws, x), x + 1)
  {
    var k: nat :| k <= |ws| && ScannedBy(g, ws, x, k);
    if k < |ws| {
      StackedMore(g, disk, ws, k, x);
      EdgeNext(g, k + 1);
      hide Edge, Stacked, ViewsAfter;
      assert ScannedBy(g, ViewsAfter(g, disk, ws, x), x + 1, if x < Edge(g, k) then k else k + 1);
    } else {
      StackedHolds(g, disk, ws, k, x);
      assert ScannedBy(g, ws, x + 1, k);
    }
  }

  // A full scan of a fresh list settles it when the buffers hold the FAT, and
  // leaves one buffer to spare when one fewer does.
  lemma ScanSettles(g: Volume, disk: seq<Sector>, ws: seq<View>)
    requires g.Fits(disk) && AllPlaced(g, ws) && |ws| > 0 && Scanned(g, ws, g.fatEnd)
    ensures Whole(g, ws)
    ensures g.fatEnd <= Edge(g, |ws| - 1) ==> Whole(g, Kept(ws))
  {
    var k: nat :| k <= |ws| && ScannedBy(g, ws, g.fatEnd, k);
    StackedIsWhole(g, disk, ws, k);
    if g.fatEnd <= Edge(g, |ws| - 1) {
      if k == |ws| {
        assert false;
      }
      StackedKept(g, ws, k);
      StackedIsWhole(g, disk, Kept(ws), k);
    }
  }
}
