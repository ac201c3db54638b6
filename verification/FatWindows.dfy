// The FAT sector buffers of fat_table.c as values: a list of windows onto the
// FAT, most recently loaded first. A list is coherent with a flat image of the
// disk when looking any FAT sector up finds the image's sector.
module FatWindows {
  import opened Bytes
  import opened Sequences

  const INVALID := 0xFFFF_FFFF
  const RANGE := 0x1_0000_0000

  // window sectors per buffer; the first FAT is sectors fatBegin .. fatEnd.
  datatype Volume = Volume(window: nat, fatBegin: nat, fatEnd: nat) {
    predicate InFat(x: int) {
      fatBegin <= x < fatEnd
    }

    // The device reaches at least one window past the FAT, below the invalid address.
    predicate Fits(disk: seq<Sector>) {
      1 <= window && fatBegin < fatEnd && fatEnd + window <= |disk| < INVALID
    }
  }

  datatype View = View(address: nat, dirty: bool, sector: seq<Sector>)

  // The range test of the list search, with the wrap of an invalid address.
  predicate Holds(g: Volume, v: View, x: nat) {
    v.address <= x < (v.address + g.window) % RANGE
  }

  predicate Placed(g: Volume, v: View) {
    && |v.sector| == g.window
    && if v.address == INVALID then !v.dirty else g.InFat(v.address)
  }

  predicate AllPlaced(g: Volume, ws: seq<View>) {
    forall i | 0 <= i < |ws| :: Placed(g, ws[i])
  }

  lemma HeldAt(g: Volume, disk: seq<Sector>, v: View, x: nat)
    requires g.Fits(disk) && Placed(g, v) && x < |disk|
    ensures Holds(g, v, x) <==> v.address != INVALID && v.address <= x < v.address + g.window
  {
  }

  // Where in v's data sector x is.
  function Slot(g: Volume, v: View, x: nat): (k: nat)
    requires 1 <= g.window && g.fatEnd + g.window < INVALID
    requires Placed(g, v) && Holds(g, v, x) && x < INVALID
    ensures k < |v.sector| && v.address + k == x && v.address != INVALID
  {
    x - v.address
  }

  // What a lookup of x finds: the first window that holds it, else the disk.
  function Seen(g: Volume, disk: seq<Sector>, ws: seq<View>, x: nat): Sector
    requires g.Fits(disk) && AllPlaced(g, ws) && x < |disk|
  {
    if ws == [] then disk[x]
    else if Holds(g, ws[0], x) then ws[0].sector[Slot(g, ws[0], x)]
    else Seen(g, disk, ws[1..], x)
  }

  predicate Resident(g: Volume, ws: seq<View>, x: nat) {
    exists i :: 0 <= i < |ws| && Holds(g, ws[i], x)
  }

  predicate Mirrors(g: Volume, flat: seq<Sector>, v: View)
    requires |v.sector| == g.window
  {
    forall x: nat | v.address <= x < v.address + g.window && g.InFat(x) && x < |flat| ::
      flat[x] == v.sector[x - v.address]
  }

  predicate Apart(g: Volume, v: View, w: View) {
    || v.address == INVALID || w.address == INVALID
    || v.address + g.window <= w.address || w.address + g.window <= v.address
  }

  predicate Shadowed(g: Volume, ws: seq<View>, x: nat) {
    g.InFat(x) && exists i :: 0 <= i < |ws| && ws[i].dirty && Holds(g, ws[i], x)
  }

  // Windows agree with the image inside the FAT.
  ghost predicate Agree(g: Volume, flat: seq<Sector>, ws: seq<View>)
    requires AllPlaced(g, ws)
  {
    forall i | 0 <= i < |ws| :: ws[i].address != INVALID ==> Mirrors(g, flat, ws[i])
  }

  ghost predicate Disjoint(g: Volume, ws: seq<View>) {
    forall i, j | 0 <= i < j < |ws| :: Apart(g, ws[i], ws[j])
  }

  // A sector whose disk copy is out of date is in a dirty window.
  ghost predicate Backed(g: Volume, disk: seq<Sector>, flat: seq<Sector>, ws: seq<View>)
    requires |disk| == |flat|
  {
    forall x | 0 <= x < |disk| :: flat[x] == disk[x] || Shadowed(g, ws, x)
  }

  ghost predicate Coherent(g: Volume, disk: seq<Sector>, flat: seq<Sector>, ws: seq<View>) {
    && g.Fits(disk) && |flat| == |disk| && AllPlaced(g, ws)
    && Agree(g, flat, ws) && Disjoint(g, ws) && Backed(g, disk, flat, ws)
  }

  ghost predicate Truthful(g: Volume, disk: seq<Sector>, flat: seq<Sector>, ws: seq<View>)
    requires g.Fits(disk) && |flat| == |disk| && AllPlaced(g, ws)
  {
    forall x: nat | g.InFat(x) :: Seen(g, disk, ws, x) == flat[x]
  }

  lemma {:induction false} SeenFirst(g: Volume, disk: seq<Sector>, ws: seq<View>, i: nat, x: nat)
    requires g.Fits(disk) && AllPlaced(g, ws) && x < |disk| && i < |ws|
    requires Holds(g, ws[i], x) && forall j | 0 <= j < i :: !Holds(g, ws[j], x)
    ensures Seen(g, disk, ws, x) == ws[i].sector[Slot(g, ws[i], x)]
  {
    if i > 0 {
      assert ws[1..][i - 1] == ws[i];
      SeenFirst(g, disk, ws[1..], i - 1, x);
    }
  }

  lemma {:induction false} SeenNowhere(g: Volume, disk: seq<Sector>, ws: seq<View>, x: nat)
    requires g.Fits(disk) && AllPlaced(g, ws) && x < |disk|
    requires !Resident(g, ws, x)
    ensures Seen(g, disk, ws, x) == disk[x]
  {
    if ws != [] {
      assert !Holds(g, ws[0], x);
      assert forall i | 0 <= i < |ws[1..]| :: ws[1..][i] == ws[i + 1];
      SeenNowhere(g, disk, ws[1..], x);
    }
  }

  lemma FirstHolder(g: Volume, ws: seq<View>, x: nat) returns (i: nat)
    requires Resident(g, ws, x)
    ensures i < |ws| && Holds(g, ws[i], x) && forall j | 0 <= j < i :: !Holds(g, ws[j], x)
  {
    i := 0;
    while !Holds(g, ws[i], x)
      decreases |ws| - i
      invariant i < |ws| && forall j | 0 <= j < i :: !Holds(g, ws[j], x)
    {
      i := i + 1;
    }
  }

  // A coherent list answers every lookup from the image.
  lemma CoherentSeen(g: Volume, disk: seq<Sector>, flat: seq<Sector>, ws: seq<View>, x: nat)
    requires Coherent(g, disk, flat, ws) && g.InFat(x)
    ensures Seen(g, disk, ws, x) == flat[x]
  {
    if Resident(g, ws, x) {
      var i := FirstHolder(g, ws, x);
      SeenFirst(g, disk, ws, i, x);
      assert Mirrors(g, flat, ws[i]);
    } else {
      SeenNowhere(g, disk, ws, x);
    }
  }

  // ------------------------------------------------------------ write-back

  // The disk after v is written back: its sectors, cut at the end of the FAT.
  function Stored(g: Volume, disk: seq<Sector>, v: View): (d: seq<Sector>)
    requires g.Fits(disk) && Placed(g, v) && v.dirty
    ensures |d| == |disk|
  {
    var n := if v.address + g.window <= g.fatEnd then g.window else g.fatEnd - v.address;
    disk[..v.address] + v.sector[..n] + disk[v.address + n..]
  }

  lemma StoredAt(g: Volume, disk: seq<Sector>, v: View, x: nat)
    requires g.Fits(disk) && Placed(g, v) && v.dirty && x < |disk|
    ensures g.InFat(x) && Holds(g, v, x) ==> Stored(g, disk, v)[x] == v.sector[Slot(g, v, x)]
    ensures !(g.InFat(x) && Holds(g, v, x)) ==> Stored(g, disk, v)[x] == disk[x]
  {
    HeldAt(g, disk, v, x);
  }

  function Flushed(g: Volume, disk: seq<Sector>, v: View): (d: seq<Sector>)
    requires g.Fits(disk) && Placed(g, v)
    ensures |d| == |disk|
  {
    if v.dirty then Stored(g, disk, v) else disk
  }

  // Writing back reaches no sector outside the first FAT.
  lemma FlushStaysInFat(g: Volume, disk: seq<Sector>, v: View, x: nat)
    requires g.Fits(disk) && Placed(g, v) && x < |disk| && !g.InFat(x)
    ensures Flushed(g, disk, v)[x] == disk[x]
  {
    if v.dirty { StoredAt(g, disk, v, x); }
  }

  // Marking a window clean once it is written back keeps the list coherent.
  lemma FlushKeeps(g: Volume, disk: seq<Sector>, flat: seq<Sector>, ws: seq<View>, i: nat)
    requires Coherent(g, disk, flat, ws) && i < |ws|
    ensures Coherent(g, Flushed(g, disk, ws[i]), flat, ws[i := ws[i].(dirty := false)])
  {
    var v := ws[i].(dirty := false);
    var after, rest := Flushed(g, disk, ws[i]), ws[i := v];
    assert Backed(g, after, flat, rest) by {
      forall x: nat | x < |disk|
        ensures flat[x] == after[x] || Shadowed(g, rest, x)
      {
        FlushedIsCurrent(g, disk, flat, ws, i, x);
        if flat[x] != after[x] {
          var j :| 0 <= j < |ws| && j != i && ws[j].dirty && Holds(g, ws[j], x);
          assert rest[j] == ws[j];
        }
      }
    }
    ReplaceKeeps(g, flat, flat, ws, i, v);
  }

  // Replacing a window by one at the same place keeps the others apart, and
  // they agree with any image changed only inside it.
  lemma ReplaceKeeps(g: Volume, flat: seq<Sector>, image: seq<Sector>, ws: seq<View>, i: nat, v: View)
    requires AllPlaced(g, ws) && i < |ws| && v.address == ws[i].address && Placed(g, v)
    requires Agree(g, flat, ws) && Disjoint(g, ws)
    requires v.address != INVALID ==> Mirrors(g, image, v)
    requires |image| == |flat|
    requires forall x: nat | x < |flat| && (v.address == INVALID || !(v.address <= x < v.address + g.window)) ::
               image[x] == flat[x]
    ensures AllPlaced(g, ws[i := v]) && Agree(g, image, ws[i := v]) && Disjoint(g, ws[i := v])
  {
    var rest := ws[i := v];
    forall j | 0 <= j < |ws|
      ensures rest[j].address != INVALID ==> Mirrors(g, image, rest[j])
    {
      if j != i && ws[j].address != INVALID {
        assert Mirrors(g, flat, ws[j]);
        assert Apart(g, ws[j], ws[i]) by {
          assert if j < i then Apart(g, ws[j], ws[i]) else Apart(g, ws[i], ws[j]);
        }
      }
    }
    assert Disjoint(g, rest) by {
      hide Agree, Mirrors, Placed;
      forall j, k | 0 <= j < k < |rest|
        ensures Apart(g, rest[j], rest[k])
      {
        assert Apart(g, ws[j], ws[k]);
      }
    }
  }

  // When no window is dirty the disk is the image.
  lemma CleanIsCurrent(g: Volume, disk: seq<Sector>, flat: seq<Sector>, ws: seq<View>)
    requires Coherent(g, disk, flat, ws) && forall i | 0 <= i < |ws| :: !ws[i].dirty
    ensures disk == flat
  {
    forall x: nat | x < |disk|
      ensures disk[x] == flat[x]
    {
      assert flat[x] == disk[x] || Shadowed(g, ws, x);
    }
  }

  // After window i is flushed, a stale sector is in some other dirty window.
  lemma FlushedIsCurrent(g: Volume, disk: seq<Sector>, flat: seq<Sector>, ws: seq<View>, i: nat, x: nat)
    requires Coherent(g, disk, flat, ws) && i < |ws| && x < |disk|
    ensures flat[x] == Flushed(g, disk, ws[i])[x]
         || (g.InFat(x) && exists j :: 0 <= j < |ws| && j != i && ws[j].dirty && Holds(g, ws[j], x))
  {
    if ws[i].dirty {
      StoredAt(g, disk, ws[i], x);
      assert Mirrors(g, flat, ws[i]);
    }
    assert flat[x] == disk[x] || Shadowed(g, ws, x);
  }

  // ------------------------------------------------------------ lookups

  // A miss at x: the last window is written back and reloaded from x, and
  // comes first.
  function Kept(ws: seq<View>): seq<View>
    requires |ws| > 0
  {
    ws[..|ws| - 1]
  }

  function DiskAfterMiss(g: Volume, disk: seq<Sector>, ws: seq<View>): (d: seq<Sector>)
    requires g.Fits(disk) && AllPlaced(g, ws) && |ws| > 0
    ensures |d| == |disk|
  {
    Flushed(g, disk, ws[|ws| - 1])
  }

  function Loaded(g: Volume, disk: seq<Sector>, x: nat): (v: View)
    requires x + g.window <= |disk|
    ensures |v.sector| == g.window
  {
    View(x, false, disk[x..x + g.window])
  }

  // Looking x up creates no overlap: it is resident, or no surviving window
  // starts inside the one that would be loaded.
  predicate Clear(g: Volume, ws: seq<View>, x: nat)
    requires |ws| > 0
  {
    Resident(g, ws, x) || forall i | 0 <= i < |ws| - 1 :: !(x < ws[i].address < x + g.window)
  }

  // One-sector windows never overlap.
  lemma OneSectorIsClear(g: Volume, ws: seq<View>, x: nat)
    requires |ws| > 0 && g.window == 1
    ensures Clear(g, ws, x)
  {
  }

  // Eviction never loses a dirty sector: what remains is coherent with the
  // same image.
  lemma EvictionKeeps(g: Volume, disk: seq<Sector>, flat: seq<Sector>, ws: seq<View>)
    requires Coherent(g, disk, flat, ws) && |ws| > 0
    ensures Coherent(g, DiskAfterMiss(g, disk, ws), flat, Kept(ws))
  {
    var after, kept := DiskAfterMiss(g, disk, ws), Kept(ws);
    forall x: nat | x < |disk|
      ensures flat[x] == after[x] || Shadowed(g, kept, x)
    {
      FlushedIsCurrent(g, disk, flat, ws, |ws| - 1, x);
      if flat[x] != after[x] {
        var j :| 0 <= j < |ws| && j != |ws| - 1 && ws[j].dirty && Holds(g, ws[j], x);
        assert kept[j] == ws[j];
      }
    }
  }

  lemma MissKeepsOutside(g: Volume, disk: seq<Sector>, flat: seq<Sector>, kept: seq<View>, x: nat, y: nat)
    requires Coherent(g, disk, flat, kept) && x + g.window <= |disk| && g.InFat(y)
    requires AllPlaced(g, [Loaded(g, disk, x)] + kept)
    ensures Seen(g, disk, [Loaded(g, disk, x)] + kept, y) == if x <= y < x + g.window then disk[y] else flat[y]
  {
    var ws := [Loaded(g, disk, x)] + kept;
    HeldAt(g, disk, ws[0], y);
    assert ws[1..] == kept;
    CoherentSeen(g, disk, flat, kept, y);
  }

  // After a miss in the FAT every lookup still tells the truth exactly when no
  // sector of the new window has a newer copy in a window that stayed.
  lemma MissTruthful(g: Volume, disk: seq<Sector>, flat: seq<Sector>, kept: seq<View>, x: nat)
    requires Coherent(g, disk, flat, kept) && g.InFat(x)
    ensures Placed(g, Loaded(g, disk, x)) && AllPlaced(g, [Loaded(g, disk, x)] + kept)
    ensures Truthful(g, disk, flat, [Loaded(g, disk, x)] + kept)
       <==> forall y: nat | x <= y < x + g.window && g.InFat(y) :: disk[y] == flat[y]
  {
    var ws := [Loaded(g, disk, x)] + kept;
    assert forall i | 0 <= i < |ws| :: i > 0 ==> ws[i] == kept[i - 1];
    forall y: nat | g.InFat(y)
      ensures Seen(g, disk, ws, y) == if x <= y < x + g.window then disk[y] else flat[y]
    {
      MissKeepsOutside(g, disk, flat, kept, x, y);
    }
  }

  // No surviving window reaches into the one loaded at x when none starts in it.
  predicate NoneStartsIn(g: Volume, kept: seq<View>, x: nat) {
    !Resident(g, kept, x) && forall i | 0 <= i < |kept| :: !(x < kept[i].address < x + g.window)
  }

  lemma LoadedApart(g: Volume, disk: seq<Sector>, kept: seq<View>, x: nat, i: nat)
    requires g.Fits(disk) && AllPlaced(g, kept) && g.InFat(x) && NoneStartsIn(g, kept, x) && i < |kept|
    ensures Apart(g, Loaded(g, disk, x), kept[i])
    ensures forall y: nat | x <= y < x + g.window :: !Holds(g, kept[i], y)
  {
    HeldAt(g, disk, kept[i], x);
    forall y: nat | x <= y < x + g.window
      ensures !Holds(g, kept[i], y)
    {
      HeldAt(g, disk, kept[i], y);
    }
  }

  lemma LoadedMirrors(g: Volume, disk: seq<Sector>, flat: seq<Sector>, kept: seq<View>, x: nat)
    requires Coherent(g, disk, flat, kept) && g.InFat(x) && NoneStartsIn(g, kept, x)
    ensures Mirrors(g, flat, Loaded(g, disk, x))
  {
    forall y: nat | x <= y < x + g.window && g.InFat(y)
      ensures flat[y] == disk[y]
    {
      forall i | 0 <= i < |kept|
        ensures !Holds(g, kept[i], y)
      {
        LoadedApart(g, disk, kept, x, i);
      }
      assert flat[y] == disk[y] || Shadowed(g, kept, y);
    }
  }

  lemma BackedBehind(g: Volume, disk: seq<Sector>, flat: seq<Sector>, kept: seq<View>, v: View)
    requires |disk| == |flat| && Backed(g, disk, flat, kept)
    ensures Backed(g, disk, flat, [v] + kept)
  {
    var ws := [v] + kept;
    forall y: nat | y < |disk|
      ensures flat[y] == disk[y] || Shadowed(g, ws, y)
    {
      if flat[y] != disk[y] {
        var i :| 0 <= i < |kept| && kept[i].dirty && Holds(g, kept[i], y);
        assert ws[i + 1] == kept[i];
      }
    }
  }

  lemma DisjointBehind(g: Volume, kept: seq<View>, v: View)
    requires Disjoint(g, kept) && forall i | 0 <= i < |kept| :: Apart(g, v, kept[i])
    ensures Disjoint(g, [v] + kept)
  {
    var ws := [v] + kept;
    forall i, j | 0 <= i < j < |ws|
      ensures Apart(g, ws[i], ws[j])
    {
      if i > 0 { assert Apart(g, kept[i - 1], kept[j - 1]); }
    }
  }

  lemma AgreeBehind(g: Volume, flat: seq<Sector>, kept: seq<View>, v: View)
    requires AllPlaced(g, kept) && Agree(g, flat, kept) && Placed(g, v)
    requires v.address != INVALID ==> Mirrors(g, flat, v)
    ensures AllPlaced(g, [v] + kept) && Agree(g, flat, [v] + kept)
  {
    var ws := [v] + kept;
    assert forall i | 0 < i < |ws| :: ws[i] == kept[i - 1];
  }

  // When the lookup is clear, the list stays coherent.
  lemma MissKeepsCoherent(g: Volume, disk: seq<Sector>, flat: seq<Sector>, kept: seq<View>, x: nat)
    requires Coherent(g, disk, flat, kept) && g.InFat(x) && NoneStartsIn(g, kept, x)
    ensures Coherent(g, disk, flat, [Loaded(g, disk, x)] + kept)
  {
    var v := Loaded(g, disk, x);
    LoadedMirrors(g, disk, flat, kept, x);
    forall i | 0 <= i < |kept|
      ensures Apart(g, v, kept[i])
    {
      LoadedApart(g, disk, kept, x, i);
    }
    hide Agree, Disjoint, Backed, Mirrors, AllPlaced, Apart;
    AgreeBehind(g, flat, kept, v);
    DisjointBehind(g, kept, v);
    BackedBehind(g, disk, flat, kept, v);
  }

  // The list after a lookup of x.
  function ViewsAfter(g: Volume, disk: seq<Sector>, ws: seq<View>, x: nat): (r: seq<View>)
    requires g.Fits(disk) && AllPlaced(g, ws) && |ws| > 0 && x + g.window <= |disk|
    ensures |r| == |ws|
  {
    if Resident(g, ws, x) then ws else [Loaded(g, DiskAfterMiss(g, disk, ws), x)] + Kept(ws)
  }

  function DiskAfter(g: Volume, disk: seq<Sector>, ws: seq<View>, x: nat): (d: seq<Sector>)
    requires g.Fits(disk) && AllPlaced(g, ws) && |ws| > 0
    ensures |d| == |disk|
  {
    if Resident(g, ws, x) then disk else DiskAfterMiss(g, disk, ws)
  }

  // A miss loads what a lookup should find: the evicted window did not hold it.
  lemma MissLoads(g: Volume, disk: seq<Sector>, ws: seq<View>, x: nat)
    requires g.Fits(disk) && AllPlaced(g, ws) && |ws| > 0 && x + g.window <= |disk| && !Resident(g, ws, x)
    ensures DiskAfterMiss(g, disk, ws)[x] == disk[x] == Seen(g, disk, ws, x)
  {
    SeenNowhere(g, disk, ws, x);
    var v := ws[|ws| - 1];
    assert !Holds(g, v, x);
    if v.dirty {
      StoredAt(g, disk, v, x);
    }
  }

  // A clear lookup of a FAT sector keeps the list coherent with the same image,
  // and finds the image's sector.
  lemma LookupKeeps(g: Volume, disk: seq<Sector>, flat: seq<Sector>, ws: seq<View>, x: nat)
    requires Coherent(g, disk, flat, ws) && |ws| > 0 && g.InFat(x) && Clear(g, ws, x)
    ensures Seen(g, disk, ws, x) == flat[x]
    ensures Coherent(g, DiskAfter(g, disk, ws, x), flat, ViewsAfter(g, disk, ws, x))
  {
    CoherentSeen(g, disk, flat, ws, x);
    if !Resident(g, ws, x) {
      EvictionKeeps(g, disk, flat, ws);
      assert forall i | 0 <= i < |Kept(ws)| :: Kept(ws)[i] == ws[i];
      MissKeepsCoherent(g, DiskAfterMiss(g, disk, ws), flat, Kept(ws), x);
    }
  }

  lemma Overlap(g: Volume, ws: seq<View>, i: nat)
    requires 0 < i < |ws| && !Apart(g, ws[0], ws[i])
    ensures !Disjoint(g, ws)
  {
  }

  // A lookup leaves the windows apart exactly when it is clear.
  lemma ApartIffClear(g: Volume, disk: seq<Sector>, flat: seq<Sector>, ws: seq<View>, x: nat)
    requires Coherent(g, disk, flat, ws) && |ws| > 0 && g.InFat(x)
    ensures Disjoint(g, ViewsAfter(g, disk, ws, x)) <==> Clear(g, ws, x)
  {
    hide Mirrors, Shadowed, Backed, Agree, Seen, Flushed, Stored;
    if Clear(g, ws, x) {
      LookupKeeps(g, disk, flat, ws, x);
    } else {
      hide Disjoint;
      var after := ViewsAfter(g, disk, ws, x);
      var i :| 0 <= i < |ws| - 1 && x < ws[i].address < x + g.window;
      assert Placed(g, ws[i]) && after[i + 1] == ws[i];
      assert ws[i].address != INVALID;
      Overlap(g, after, i + 1);
    }
  }

  // ------------------------------------------------------------ updates

  function Rewritten(v: View, k: nat, s: Sector): View
    requires k < |v.sector|
  {
    View(v.address, true, v.sector[k := s])
  }

  lemma RewrittenMirrors(g: Volume, flat: seq<Sector>, v: View, x: nat, s: Sector)
    requires |v.sector| == g.window && v.address <= x < v.address + g.window && x < |flat|
    requires Mirrors(g, flat, v)
    ensures Mirrors(g, flat[x := s], Rewritten(v, x - v.address, s))
  {
  }

  lemma RewrittenBacked(g: Volume, disk: seq<Sector>, flat: seq<Sector>, ws: seq<View>, i: nat, x: nat, s: Sector)
    requires |disk| == |flat| && Backed(g, disk, flat, ws) && g.InFat(x) && x < |flat|
    requires i < |ws| && Holds(g, ws[i], x) && x - ws[i].address < |ws[i].sector|
    ensures Backed(g, disk, flat[x := s], ws[i := Rewritten(ws[i], x - ws[i].address, s)])
  {
    var after, image := ws[i := Rewritten(ws[i], x - ws[i].address, s)], flat[x := s];
    forall y: nat | y < |disk|
      ensures image[y] == disk[y] || Shadowed(g, after, y)
    {
      if y == x {
        assert after[i].dirty && Holds(g, after[i], y);
      } else if flat[y] != disk[y] {
        var j :| 0 <= j < |ws| && ws[j].dirty && Holds(g, ws[j], y);
        assert after[j].dirty && Holds(g, after[j], y);
      }
    }
  }

  // A write through a window that holds x is a write to the image.
  lemma UpdateKeeps(g: Volume, disk: seq<Sector>, flat: seq<Sector>, ws: seq<View>, i: nat, x: nat, s: Sector)
    requires Coherent(g, disk, flat, ws) && g.InFat(x) && i < |ws| && Holds(g, ws[i], x)
    ensures Coherent(g, disk, flat[x := s], ws[i := Rewritten(ws[i], Slot(g, ws[i], x), s)])
  {
    HeldAt(g, disk, ws[i], x);
    RewrittenBacked(g, disk, flat, ws, i, x, s);
    RewrittenMirrors(g, flat, ws[i], x, s);
    ReplaceKeeps(g, flat, flat[x := s], ws, i, Rewritten(ws[i], x - ws[i].address, s));
  }

  // Two disks differ inside the FAT at most.
  predicate SameOutside(g: Volume, d: seq<Sector>, e: seq<Sector>) {
    && |d| == |e| && g.fatBegin <= g.fatEnd <= |d|
    && d[..g.fatBegin] == e[..g.fatBegin] && d[g.fatEnd..] == e[g.fatEnd..]
  }

  // Two disks agree past the first FAT, where the data clusters are.
  predicate SameData(g: Volume, d: seq<Sector>, e: seq<Sector>) {
    |d| == |e| && g.fatEnd <= |d| && d[g.fatEnd..] == e[g.fatEnd..]
  }

  lemma SameOutsideIsSameData(g: Volume, d: seq<Sector>, e: seq<Sector>)
    requires SameOutside(g, d, e)
    ensures SameData(g, d, e)
  {
  }

  lemma SameDataSame(g: Volume, d: seq<Sector>)
    requires g.fatEnd <= |d|
    ensures SameData(g, d, d)
  {
  }

  lemma SameDataBelow(g: Volume, d: seq<Sector>, x: nat, s: Sector)
    requires x < g.fatEnd <= |d|
    ensures SameData(g, d, d[x := s])
  {
  }

  lemma WriteOne(d: seq<Sector>, x: nat, buffer: seq<Sector>)
    requires x < |d| && |buffer| > 0
    ensures d[..x] + buffer[..1] + d[x + 1..] == d[x := buffer[0]]
  {
  }

  lemma SameDataLength(g: Volume, d: seq<Sector>, e: seq<Sector>)
    requires SameData(g, d, e)
    ensures |d| == |e|
  {
  }

  lemma SameDataChain(g: Volume, d: seq<Sector>, e: seq<Sector>, f: seq<Sector>)
    requires SameData(g, d, e) && SameData(g, e, f)
    ensures SameData(g, d, f)
  {
  }

  lemma SameOutsideChain(g: Volume, d: seq<Sector>, e: seq<Sector>, f: seq<Sector>)
    requires SameOutside(g, d, e) && SameOutside(g, e, f)
    ensures SameOutside(g, d, f)
  {
  }

  lemma DiskAfterOutside(g: Volume, disk: seq<Sector>, ws: seq<View>, x: nat)
    requires g.Fits(disk) && AllPlaced(g, ws) && |ws| > 0
    ensures SameOutside(g, disk, DiskAfter(g, disk, ws, x))
  {
    forall y: nat | y < |disk| && !g.InFat(y)
      ensures DiskAfter(g, disk, ws, x)[y] == disk[y]
    {
      FlushStaysInFat(g, disk, ws[|ws| - 1], y);
    }
  }

  // Lookups of the FAT stay clear from here on: windows are one sector wide,
  // or hold the whole FAT between them.
  ghost predicate Settled(g: Volume, ws: seq<View>) {
    g.window == 1 || Whole(g, ws)
  }

  ghost predicate Whole(g: Volume, ws: seq<View>) {
    forall x: nat | g.InFat(x) :: Resident(g, ws, x)
  }

  lemma SettledStays(g: Volume, disk: seq<Sector>, ws: seq<View>, x: nat)
    requires g.Fits(disk) && AllPlaced(g, ws) && |ws| > 0 && g.InFat(x) && Settled(g, ws)
    ensures Clear(g, ws, x) && Settled(g, ViewsAfter(g, disk, ws, x))
    ensures Whole(g, ws) ==> ViewsAfter(g, disk, ws, x) == ws && DiskAfter(g, disk, ws, x) == disk
  {
  }

  lemma KeptIsWhole(g: Volume, ws: seq<View>)
    requires |ws| > 0 && Whole(g, Kept(ws))
    ensures Whole(g, ws)
  {
    forall x: nat | g.InFat(x)
      ensures Resident(g, ws, x)
    {
      var i :| 0 <= i < |ws| - 1 && Holds(g, Kept(ws)[i], x);
      assert Holds(g, ws[i], x);
    }
  }

  // Whether a window holds a sector depends on its address alone.
  lemma SettledByAddress(g: Volume, ws: seq<View>, vs: seq<View>)
    requires |ws| == |vs| && forall i | 0 <= i < |ws| :: vs[i].address == ws[i].address
    ensures Settled(g, ws) ==> Settled(g, vs)
    ensures Whole(g, ws) ==> Whole(g, vs)
  {
    if Whole(g, ws) {
      forall x: nat | g.InFat(x)
        ensures Resident(g, vs, x)
      {
        var i :| 0 <= i < |ws| && Holds(g, ws[i], x);
        assert Holds(g, vs[i], x);
      }
    }
  }

  // Both images may change outside the FAT alike, and an invalid window may
  // come first.
  lemma OutsideKeeps(g: Volume, disk: seq<Sector>, flat: seq<Sector>, kept: seq<View>, v: View, x: nat, s: Sector)
    requires Coherent(g, disk, flat, kept) && x < |disk| && !g.InFat(x)
    requires v.address == INVALID && !v.dirty && |v.sector| == g.window
    ensures Coherent(g, disk[x := s], flat[x := s], [v] + kept)
  {
    var d, f := disk[x := s], flat[x := s];
    AgreeOutside(g, flat, kept, x, s);
    BackedOutside(g, disk, flat, kept, x, s);
    hide Agree, Disjoint, Backed, AllPlaced;
    AgreeBehind(g, f, kept, v);
    DisjointBehind(g, kept, v);
    BackedBehind(g, d, f, kept, v);
  }

  lemma AgreeOutside(g: Volume, flat: seq<Sector>, ws: seq<View>, x: nat, s: Sector)
    requires AllPlaced(g, ws) && Agree(g, flat, ws) && x < |flat| && !g.InFat(x)
    ensures Agree(g, flat[x := s], ws)
  {
    forall i | 0 <= i < |ws| && ws[i].address != INVALID
      ensures Mirrors(g, flat[x := s], ws[i])
    {
      assert Mirrors(g, flat, ws[i]);
    }
  }

  lemma BackedOutside(g: Volume, disk: seq<Sector>, flat: seq<Sector>, ws: seq<View>, x: nat, s: Sector)
    requires |disk| == |flat| && Backed(g, disk, flat, ws) && x < |disk|
    ensures Backed(g, disk[x := s], flat[x := s], ws)
  {
  }

  // Data sectors may change on both images alike.
  lemma DataKeeps(g: Volume, disk: seq<Sector>, flat: seq<Sector>, ws: seq<View>, lba: nat, data: seq<Sector>)
    requires Coherent(g, disk, flat, ws) && g.fatEnd <= lba && lba + |data| <= |disk|
    ensures Coherent(g, Overlaid(disk, lba, data), Overlaid(flat, lba, data), ws)
    ensures forall x: nat | g.InFat(x) :: Overlaid(flat, lba, data)[x] == flat[x]
  {
    var d, f := Overlaid(disk, lba, data), Overlaid(flat, lba, data);
    forall i | 0 <= i < |ws| && ws[i].address != INVALID
      ensures Mirrors(g, f, ws[i])
    {
      assert Mirrors(g, flat, ws[i]);
    }
    forall x: nat | x < |d|
      ensures f[x] == d[x] || Shadowed(g, ws, x)
    {
      assert flat[x] == disk[x] || Shadowed(g, ws, x);
    }
  }

  // A sector below the FAT is in no window, and the image has it as the disk.
  lemma BelowFat(g: Volume, disk: seq<Sector>, flat: seq<Sector>, ws: seq<View>, x: nat)
    requires Coherent(g, disk, flat, ws) && x < g.fatBegin
    ensures !Resident(g, ws, x) && flat[x] == disk[x] && x + g.window <= |disk|
  {
    assert flat[x] == disk[x] || Shadowed(g, ws, x);
  }

  lemma SettledWithInvalid(g: Volume, kept: seq<View>, v: View)
    requires g.window == 1 || Whole(g, kept)
    ensures Settled(g, [v] + kept)
  {
    var ws := [v] + kept;
    if Whole(g, kept) {
      forall x: nat | g.InFat(x)
        ensures Resident(g, ws, x)
      {
        var i :| 0 <= i < |kept| && Holds(g, kept[i], x);
        assert ws[i + 1] == kept[i];
      }
    }
  }

  // With two-sector windows a lookup that is not clear hides a value just set:
  // sector 2 is loaded and changed, sector 1 is looked up, and sector 2 then
  // reads as it was.
  lemma StaleLookup()
    ensures var g, disk, s := Volume(2, 1, 5), seq(8, _ => Blank()), Blank()[0 := 1];
            var empty := View(INVALID, false, [Blank(), Blank()]);
            && Coherent(g, disk, disk, [empty, empty])
            && var ws := ViewsAfter(g, disk, [empty, empty], 2);
            && Holds(g, ws[0], 2)
            && var changed := ws[0 := Rewritten(ws[0], 0, s)];
            && Coherent(g, disk, disk[2 := s], changed) && !Clear(g, changed, 1)
            && var after := ViewsAfter(g, disk, changed, 1);
            && AllPlaced(g, after) && Seen(g, DiskAfter(g, disk, changed, 1), after, 2) == Blank() != disk[2 := s][2]
  {
    var g, disk, s := Volume(2, 1, 5), seq(8, _ => Blank()), Blank()[0 := 1];
    var empty := View(INVALID, false, [Blank(), Blank()]);
    assert Coherent(g, disk, disk, [empty, empty]);
    assert Clear(g, [empty, empty], 2) && !Resident(g, [empty, empty], 2);
    LookupKeeps(g, disk, disk, [empty, empty], 2);
    var ws := ViewsAfter(g, disk, [empty, empty], 2);
    assert ws == [View(2, false, disk[2..4]), empty];
    UpdateKeeps(g, disk, disk, ws, 0, 2, s);
    var changed := ws[0 := Rewritten(ws[0], 0, s)];
    assert changed[0].address == 2 && !Holds(g, changed[0], 1) && !Holds(g, changed[1], 1);
    var after := ViewsAfter(g, disk, changed, 1);
    assert after == [View(1, false, disk[1..3]), changed[0]];
    assert Blank()[0 := 1][0] == 1;
  }
}
