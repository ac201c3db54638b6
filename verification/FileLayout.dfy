// Where a file's sectors lie on the disk, and what its sectors say as bytes
// (fat_access.c:195-214; fat_filelib.c:548-622, 806-889).
module FileLayout {
  import opened Arith
  import opened Bytes
  import opened Sequences
  import opened FatWindows
  import opened FatEntries
  import C = Chains

  // spc sectors per cluster, cluster 2 at sector dataBegin, clusters numbered
  // below limit.
  datatype Layout = Layout(spc: nat, dataBegin: nat, limit: nat)

  // Growing the file's chain at its end keeps it laid out, and uses up room
  // for exactly the clusters added.
  lemma LaidGrows(l: Layout, t: FatType, f: seq<nat>, chain: seq<nat>, start: nat, idx: nat, cluster: nat,
                  root: nat, n: nat, m: nat)
    requires Laid(l, t, f, chain, start, idx, cluster) && |f| < LAST_CLUSTER
    requires C.Room(t, f, root, l.limit, m) && n <= m
    ensures var r := C.Grow(t, f, root, chain[|chain| - 1], n);
            && r.ok && |r.added| == n && C.Room(t, r.fat, root, l.limit, m - n)
            && Laid(l, t, r.fat, chain + r.added, start, idx, cluster)
  {
    var tail := chain[|chain| - 1];
    var r := C.Grow(t, f, root, tail, n);
    C.GrowAppends(t, f, root, l.limit, tail, n);
    C.ChainIsUsed(t, f, chain, |chain| - 1);
    C.GrowLeavesRoom(t, f, root, l.limit, tail, n, m);
    forall i | 0 <= i < |chain|
      ensures chain[i] !in r.added
    {
      C.ChainIsUsed(t, f, chain, i);
    }
    assert Below(l, r.added);
    hide C.Grow, C.Room, Link, IsBlank;
    LaidLonger(l, t, f, r.fat, chain, r.added, start, idx, cluster);
  }

  lemma LaidLonger(l: Layout, t: FatType, f: seq<nat>, h: seq<nat>, chain: seq<nat>, added: seq<nat>, start: nat, idx: nat,
                   cluster: nat)
    requires Laid(l, t, f, chain, start, idx, cluster) && |h| == |f| < LAST_CLUSTER && Below(l, added)
    requires forall i | 0 <= i < |chain| - 1 :: h[chain[i]] == f[chain[i]]
    requires C.Chain(t, h, [chain[|chain| - 1]] + added)
    ensures Laid(l, t, h, chain + added, start, idx, cluster)
  {
    C.ChainExtended(t, f, h, chain, added);
    C.ChainIsAcyclic(t, h, chain + added);
    C.DistinctAreFew(chain + added, |f|);
  }

  // The index in the chain of sector k of a file, and its place in the cluster.
  function Index(l: Layout, k: nat): nat
    requires l.spc > 0
  {
    k / l.spc
  }

  function Within(l: Layout, k: nat): (s: nat)
    requires l.spc > 0
    ensures s < l.spc
  {
    k % l.spc
  }

  function Capacity(l: Layout, n: nat): nat {
    n * l.spc
  }

  // fatfs_lba_of_cluster plus a sector in the cluster.
  function Lba(l: Layout, c: nat, s: nat): nat
    requires c >= 2
  {
    l.dataBegin + (c - 2) * l.spc + s
  }

  // Clusters lie one behind another from the start of the data area, the first
  // of them number 2.
  lemma LbaSteps(l: Layout, c: nat, s: nat)
    requires c >= 2
    ensures Lba(l, 2, 0) == l.dataBegin && Lba(l, c, s + 1) == Lba(l, c, s) + 1 && Lba(l, c + 1, s) == Lba(l, c, l.spc + s)
  {
  }

  // The data clusters lie past the FAT and inside a disk of n sectors, and
  // each has an entry in the table that a link can name.
  predicate Sound(l: Layout, g: Volume, t: FatType, n: nat) {
    && l.spc > 0 && 2 <= l.limit && g.fatEnd <= l.dataBegin && Lba(l, l.limit, 0) <= n
    && g.fatBegin <= g.fatEnd <= n && l.limit <= Count(g, t) < LAST_CLUSTER && l.limit <= C.NameLimit(t)
  }

  predicate Fits(l: Layout, g: Volume, disk: seq<Sector>) {
    && l.spc > 0 && 2 <= l.limit && g.fatEnd <= l.dataBegin
    && Lba(l, l.limit, 0) <= |disk|
  }

  // The file's chain of clusters, and the remembered lookup, which names a
  // cluster of it.
  predicate Laid(l: Layout, t: FatType, f: seq<nat>, chain: seq<nat>, start: nat, idx: nat, cluster: nat) {
    && C.Chain(t, f, chain) && Below(l, chain) && C.NoRepeats(chain) && chain[0] == start && |chain| < LAST_CLUSTER
    && (idx == INVALID || (idx < |chain| && cluster == chain[idx]))
  }

  lemma LaidAt(l: Layout, t: FatType, f: seq<nat>, chain: seq<nat>, start: nat, idx: nat, cluster: nat, i: nat)
    requires Laid(l, t, f, chain, start, idx, cluster) && i < |chain|
    ensures 2 <= chain[i] < |f| && chain[i] < l.limit
    ensures Link(t, f[chain[i]]) == if i + 1 < |chain| then chain[i + 1] else LAST_CLUSTER
  {
  }

  lemma LaidStart(l: Layout, t: FatType, f: seq<nat>, chain: seq<nat>, start: nat, idx: nat, cluster: nat)
    requires Laid(l, t, f, chain, start, idx, cluster)
    ensures 0 < |chain| < LAST_CLUSTER && chain[0] == start && Below(l, chain) && C.NoRepeats(chain)
    ensures idx == INVALID || (idx < |chain| && cluster == chain[idx])
  {
  }

  lemma LaidLookup(l: Layout, t: FatType, f: seq<nat>, chain: seq<nat>, start: nat, idx: nat, cluster: nat, i: nat)
    requires Laid(l, t, f, chain, start, idx, cluster) && i < |chain|
    ensures Laid(l, t, f, chain, start, i, chain[i])
  {
  }

  predicate Below(l: Layout, chain: seq<nat>) {
    forall i | 0 <= i < |chain| :: 2 <= chain[i] < l.limit
  }

  lemma IndexParts(l: Layout, k: nat)
    requires l.spc > 0
    ensures k == Capacity(l, Index(l, k)) + Within(l, k)
  {
  }

  lemma IndexBelow(l: Layout, k: nat, n: nat)
    requires l.spc > 0
    ensures Index(l, k) < n <==> k < Capacity(l, n)
    ensures k == Capacity(l, n) ==> Index(l, k) == n && Within(l, k) == 0
  {
    var q, r := k / l.spc, k % l.spc;
    if q < n {
      MulMonotone(q + 1, n, l.spc);
    } else {
      MulMonotone(n, q, l.spc);
    }
    if k == n * l.spc {
      DivModUnique(k, l.spc, n, 0);
    }
  }

  lemma LbaInside(l: Layout, g: Volume, disk: seq<Sector>, c: nat, s: nat)
    requires Fits(l, g, disk) && 2 <= c < l.limit && s <= l.spc
    ensures g.fatEnd <= Lba(l, c, s) <= |disk| && (s < l.spc ==> Lba(l, c, s) < |disk|)
    ensures Lba(l, c, s) == Lba(l, c, 0) + s
  {
    MulMonotone(c - 2 + 1, l.limit - 2, l.spc);
    Distribute(l.spc, c - 2, 1);
  }

  // Sectors of different clusters are different.
  lemma LbaApart(l: Layout, c: nat, s: nat, d: nat, r: nat)
    requires l.spc > 0 && c >= 2 && d >= 2 && s < l.spc && r < l.spc
    ensures Lba(l, c, s) == Lba(l, d, r) ==> c == d && s == r
  {
    DivModUnique((c - 2) * l.spc + s, l.spc, c - 2, s);
    DivModUnique((d - 2) * l.spc + r, l.spc, d - 2, r);
  }

  // Sector k of the file with this chain, as it is on disk.
  function Held(l: Layout, g: Volume, disk: seq<Sector>, chain: seq<nat>, k: nat): Sector
    requires Fits(l, g, disk) && Below(l, chain) && k < Capacity(l, |chain|)
  {
    IndexBelow(l, k, |chain|);
    LbaInside(l, g, disk, chain[Index(l, k)], Within(l, k));
    disk[Lba(l, chain[Index(l, k)], Within(l, k))]
  }

  // The file's sectors on disk.
  function OnDisk(l: Layout, g: Volume, disk: seq<Sector>, chain: seq<nat>): (s: seq<Sector>)
    requires Fits(l, g, disk) && Below(l, chain)
    ensures |s| == Capacity(l, |chain|)
  {
    seq(Capacity(l, |chain|), k requires 0 <= k < Capacity(l, |chain|) => Held(l, g, disk, chain, k))
  }

  lemma OnDiskFramed(l: Layout, g: Volume, disk: seq<Sector>, e: seq<Sector>, chain: seq<nat>)
    requires Fits(l, g, disk) && Fits(l, g, e) && Below(l, chain) && SameData(g, disk, e)
    ensures OnDisk(l, g, disk, chain) == OnDisk(l, g, e, chain)
  {
    forall k: nat | k < Capacity(l, |chain|)
      ensures Held(l, g, disk, chain, k) == Held(l, g, e, chain, k)
    {
      IndexBelow(l, k, |chain|);
      var x := Lba(l, chain[Index(l, k)], Within(l, k));
      LbaInside(l, g, disk, chain[Index(l, k)], Within(l, k));
      assert disk[x] == disk[g.fatEnd..][x - g.fatEnd] && e[x] == e[g.fatEnd..][x - g.fatEnd];
    }
  }

  // A longer chain starts with the same sectors.
  lemma OnDiskPrefix(l: Layout, g: Volume, disk: seq<Sector>, chain: seq<nat>, more: seq<nat>)
    requires Fits(l, g, disk) && Below(l, chain + more)
    ensures Below(l, chain) && Capacity(l, |chain|) <= Capacity(l, |chain + more|)
    ensures OnDisk(l, g, disk, chain + more)[..Capacity(l, |chain|)] == OnDisk(l, g, disk, chain)
  {
    assert forall i | 0 <= i < |chain| :: chain[i] == (chain + more)[i];
    MulMonotone(|chain|, |chain + more|, l.spc);
    forall k: nat | k < Capacity(l, |chain|)
      ensures OnDisk(l, g, disk, chain + more)[k] == OnDisk(l, g, disk, chain)[k]
    {
      IndexBelow(l, k, |chain|);
      assert (chain + more)[Index(l, k)] == chain[Index(l, k)];
    }
  }

  // ------------------------------------------------------------ writing

  // Writing inside one cluster of the chain replaces those sectors of the file.
  lemma WriteReplaces(l: Layout, g: Volume, disk: seq<Sector>, chain: seq<nat>, k: nat, data: seq<Sector>)
    requires Fits(l, g, disk) && Below(l, chain) && C.NoRepeats(chain)
    requires k < Capacity(l, |chain|) && |data| > 0 && Within(l, k) + |data| <= l.spc
    ensures Index(l, k) < |chain|
    ensures var lba := Lba(l, chain[Index(l, k)], Within(l, k));
            && g.fatEnd <= lba && lba + |data| <= |disk| && k + |data| <= Capacity(l, |chain|)
            && OnDisk(l, g, Overlaid(disk, lba, data), chain) == Overlaid(OnDisk(l, g, disk, chain), k, data)
  {
    IndexBelow(l, k, |chain|);
    IndexParts(l, k);
    var c, s := chain[Index(l, k)], Within(l, k);
    LbaInside(l, g, disk, c, s + |data|);
    LbaInside(l, g, disk, c, s);
    MulMonotone(Index(l, k) + 1, |chain|, l.spc);
    Distribute(l.spc, Index(l, k), 1);
    var after := Overlaid(disk, Lba(l, c, s), data);
    forall m: nat | m < Capacity(l, |chain|)
      ensures OnDisk(l, g, after, chain)[m] == Overlaid(OnDisk(l, g, disk, chain), k, data)[m]
    {
      HeldAfter(l, g, disk, chain, k, data, m);
    }
  }

  lemma HeldAfter(l: Layout, g: Volume, disk: seq<Sector>, chain: seq<nat>, k: nat, data: seq<Sector>, m: nat)
    requires Fits(l, g, disk) && Below(l, chain) && C.NoRepeats(chain)
    requires k < Capacity(l, |chain|) && |data| > 0 && Within(l, k) + |data| <= l.spc && Index(l, k) < |chain|
    requires m < Capacity(l, |chain|) && k + |data| <= Capacity(l, |chain|)
    requires Lba(l, chain[Index(l, k)], Within(l, k)) + |data| <= |disk|
    ensures Held(l, g, Overlaid(disk, Lba(l, chain[Index(l, k)], Within(l, k)), data), chain, m)
         == if k <= m < k + |data| then data[m - k] else Held(l, g, disk, chain, m)
  {
    IndexBelow(l, m, |chain|);
    IndexParts(l, k);
    IndexParts(l, m);
    var c, s, d, r := chain[Index(l, k)], Within(l, k), chain[Index(l, m)], Within(l, m);
    LbaInside(l, g, disk, c, s);
    LbaInside(l, g, disk, d, r);
    LbaInside(l, g, disk, c, 0);
    SameIndex(chain, Index(l, k), Index(l, m));
    RunApart(l, c, s, |data|, d, r);
    if k <= m < k + |data| {
      IndexStep(l, k, m - k);
    }
  }

  // A run of sectors inside one cluster meets no other cluster.
  lemma RunApart(l: Layout, c: nat, s: nat, n: nat, d: nat, r: nat)
    requires l.spc > 0 && c >= 2 && d >= 2 && s + n <= l.spc && r < l.spc && n > 0
    ensures Lba(l, c, s) <= Lba(l, d, r) < Lba(l, c, s) + n ==> c == d && s <= r < s + n
  {
    if Lba(l, c, s) <= Lba(l, d, r) < Lba(l, c, s) + n {
      LbaApart(l, c, s + (Lba(l, d, r) - Lba(l, c, s)), d, r);
    }
  }

  lemma SameIndex(chain: seq<nat>, i: nat, j: nat)
    requires C.NoRepeats(chain) && i < |chain| && j < |chain|
    ensures chain[i] == chain[j] ==> i == j
  {
  }

  lemma IndexStep(l: Layout, k: nat, o: nat)
    requires l.spc > 0 && Within(l, k) + o < l.spc
    ensures Index(l, k + o) == Index(l, k) && Within(l, k + o) == Within(l, k) + o
  {
    DivModUnique(k + o, l.spc, k / l.spc, k % l.spc + o);
  }

  lemma RunInside(l: Layout, g: Volume, disk: seq<Sector>, chain: seq<nat>, k: nat, n: nat)
    requires Fits(l, g, disk) && Below(l, chain) && k < Capacity(l, |chain|) && 0 < n && Within(l, k) + n <= l.spc
    ensures Index(l, k) < |chain| && k + n <= Capacity(l, |chain|)
    ensures g.fatEnd <= Lba(l, chain[Index(l, k)], Within(l, k))
    ensures Lba(l, chain[Index(l, k)], Within(l, k)) + n <= |disk|
  {
    IndexBelow(l, k, |chain|);
    IndexParts(l, k);
    MulMonotone(Index(l, k) + 1, |chain|, l.spc);
    Distribute(l.spc, Index(l, k), 1);
    LbaInside(l, g, disk, chain[Index(l, k)], Within(l, k));
    LbaInside(l, g, disk, chain[Index(l, k)], Within(l, k) + n);
  }

  lemma RunAt(l: Layout, g: Volume, disk: seq<Sector>, chain: seq<nat>, k: nat, n: nat, j: nat)
    requires Fits(l, g, disk) && Below(l, chain) && k < Capacity(l, |chain|) && Within(l, k) + n <= l.spc && j < n
    ensures Index(l, k) < |chain| && k + n <= Capacity(l, |chain|)
    ensures Lba(l, chain[Index(l, k)], Within(l, k)) + n <= |disk|
    ensures Held(l, g, disk, chain, k + j) == disk[Lba(l, chain[Index(l, k)], Within(l, k)) + j]
  {
    RunInside(l, g, disk, chain, k, n);
    IndexStep(l, k, j);
    LbaInside(l, g, disk, chain[Index(l, k)], Within(l, k));
    LbaInside(l, g, disk, chain[Index(l, k)], Within(l, k) + j);
  }

  // A run of the file's sectors inside one cluster is a run of the disk.
  lemma ReadRun(l: Layout, g: Volume, disk: seq<Sector>, chain: seq<nat>, k: nat, n: nat)
    requires Fits(l, g, disk) && Below(l, chain) && k < Capacity(l, |chain|) && 0 < n && Within(l, k) + n <= l.spc
    ensures Index(l, k) < |chain| && k + n <= Capacity(l, |chain|)
    ensures var lba := Lba(l, chain[Index(l, k)], Within(l, k));
            lba + n <= |disk| && OnDisk(l, g, disk, chain)[k..k + n] == disk[lba..lba + n]
  {
    RunInside(l, g, disk, chain, k, n);
    var lba := Lba(l, chain[Index(l, k)], Within(l, k));
    var run, row := OnDisk(l, g, disk, chain)[k..k + n], disk[lba..lba + n];
    forall j: nat | j < n
      ensures run[j] == row[j]
    {
      RunAt(l, g, disk, chain, k, n, j);
    }
  }

  // Sector i past n clusters is sector i of the next.
  lemma IndexTail(l: Layout, n: nat, i: nat)
    requires i < l.spc
    ensures Index(l, Capacity(l, n) + i) == n && Within(l, Capacity(l, n) + i) == i
    ensures Capacity(l, n) + i < Capacity(l, n + 1) == Capacity(l, n) + l.spc
  {
    DivModUnique(Capacity(l, n) + i, l.spc, n, i);
    Distribute(l.spc, n, 1);
  }

  // Clusters that hold k sectors.
  function Clusters(l: Layout, k: nat): nat
    requires l.spc > 0
  {
    (k + l.spc - 1) / l.spc
  }

  // Clusters a chain of n still lacks to hold k sectors.
  function Need(l: Layout, n: nat, k: nat): nat
    requires l.spc > 0
  {
    if Clusters(l, k) > n then Clusters(l, k) - n else 0
  }

  lemma ClustersStep(l: Layout, n: nat, r: nat)
    requires l.spc > 0
    ensures Clusters(l, Capacity(l, n) + r) == n + Clusters(l, r)
  {
    ModShift(r + l.spc - 1, l.spc, n);
  }

  lemma ClustersMonotone(l: Layout, j: nat, k: nat)
    requires l.spc > 0 && j <= k
    ensures Clusters(l, j) <= Clusters(l, k)
  {
    var q, p := (j + l.spc - 1) / l.spc, (k + l.spc - 1) / l.spc;
    if q > p {
      MulMonotone(p + 1, q, l.spc);
    }
  }

  lemma ClustersSome(l: Layout, k: nat)
    requires l.spc > 0 && k > 0
    ensures Clusters(l, k) > 0 && Clusters(l, 1) == 1
  {
    DivModUnique(l.spc, l.spc, 1, 0);
    ClustersMonotone(l, 1, k);
  }

  // Growing at the end of the chain by what a run of r sectors asks for is
  // within what k sectors need, and leaves the rest to need.
  lemma NeedFalls(l: Layout, n: nat, r: nat, k: nat)
    requires l.spc > 0 && Capacity(l, n) + r <= k
    ensures Clusters(l, r) <= Need(l, n, k)
    ensures Need(l, n + Clusters(l, r), k) == Need(l, n, k) - Clusters(l, r)
  {
    ClustersStep(l, n, r);
    ClustersMonotone(l, Capacity(l, n) + r, k);
  }

  // Nothing outside the clusters of the chain is written.
  ghost predicate OnlyIn(l: Layout, g: Volume, disk: seq<Sector>, e: seq<Sector>, chain: seq<nat>)
  {
    && |disk| == |e| && l.spc > 0
    && forall x: nat | g.fatEnd <= x < |disk| && disk[x] != e[x] :: InChain(l, chain, x)
  }

  ghost predicate InChain(l: Layout, chain: seq<nat>, x: nat)
  {
    exists i, s: nat :: 0 <= i < |chain| && s < l.spc && chain[i] >= 2 && x == Lba(l, chain[i], s)
  }

  lemma OnlyInWrite(l: Layout, g: Volume, disk: seq<Sector>, e: seq<Sector>, chain: seq<nat>, k: nat, data: seq<Sector>)
    requires Fits(l, g, disk) && Below(l, chain) && k < Capacity(l, |chain|) && |data| > 0 && Within(l, k) + |data| <= l.spc
    requires Index(l, k) < |chain| && Lba(l, chain[Index(l, k)], Within(l, k)) + |data| <= |disk|
    requires SameData(g, e, disk)
    ensures OnlyIn(l, g, e, Overlaid(disk, Lba(l, chain[Index(l, k)], Within(l, k)), data), chain)
  {
    var c, s := chain[Index(l, k)], Within(l, k);
    var after := Overlaid(disk, Lba(l, c, s), data);
    forall x: nat | g.fatEnd <= x < |disk| && e[x] != after[x]
      ensures InChain(l, chain, x)
    {
      assert e[x] == e[g.fatEnd..][x - g.fatEnd] && disk[x] == disk[g.fatEnd..][x - g.fatEnd];
      assert Lba(l, c, s) <= x < Lba(l, c, s) + |data|;
      assert x == Lba(l, c, s + (x - Lba(l, c, s)));
    }
  }

  lemma OnlyInSame(l: Layout, g: Volume, e: seq<Sector>, disk: seq<Sector>, chain: seq<nat>)
    requires SameData(g, e, disk) && l.spc > 0
    ensures OnlyIn(l, g, e, disk, chain)
  {
    forall x: nat | g.fatEnd <= x < |disk|
      ensures e[x] == disk[x]
    {
      assert e[x] == e[g.fatEnd..][x - g.fatEnd] && disk[x] == disk[g.fatEnd..][x - g.fatEnd];
    }
  }

  lemma OnlyInChain(l: Layout, g: Volume, d: seq<Sector>, e: seq<Sector>, h: seq<Sector>, chain: seq<nat>, longer: seq<nat>)
    requires OnlyIn(l, g, d, e, chain) && OnlyIn(l, g, e, h, longer) && chain <= longer
    ensures OnlyIn(l, g, d, h, longer)
  {
    forall x: nat | g.fatEnd <= x < |d| && d[x] != h[x]
      ensures InChain(l, longer, x)
    {
      if d[x] != e[x] {
        var i, s: nat :| 0 <= i < |chain| && s < l.spc && chain[i] >= 2 && x == Lba(l, chain[i], s);
        assert longer[i] == chain[i];
      }
    }
  }

  // What a file operation does to disk and table: the chain grows at its end
  // at most, and past the FAT only sectors of its clusters change.
  ghost predicate Moved(l: Layout, g: Volume, t: FatType, root: nat, d: seq<Sector>, e: seq<Sector>,
                        f: seq<nat>, h: seq<nat>, before: seq<nat>, after: seq<nat>) {
    before <= after && OnlyIn(l, g, d, e, after) && C.Extended(t, f, h, root, before, after)
  }

  lemma MovedSame(l: Layout, g: Volume, t: FatType, root: nat, d: seq<Sector>, e: seq<Sector>, f: seq<nat>, chain: seq<nat>)
    requires SameData(g, d, e) && l.spc > 0 && |chain| > 0 && chain[|chain| - 1] < |f|
    ensures Moved(l, g, t, root, d, e, f, f, chain, chain)
  {
    OnlyInSame(l, g, d, e, chain);
    C.NotExtended(t, f, root, chain);
  }

  lemma MovedTwice(l: Layout, g: Volume, t: FatType, root: nat, d: seq<Sector>, e: seq<Sector>, x: seq<Sector>,
                   f: seq<nat>, h: seq<nat>, y: seq<nat>, a: seq<nat>, b: seq<nat>, c: seq<nat>)
    requires Moved(l, g, t, root, d, e, f, h, a, b) && Moved(l, g, t, root, e, x, h, y, b, c)
    ensures Moved(l, g, t, root, d, x, f, y, a, c)
  {
    OnlyInChain(l, g, d, e, x, b, c);
    C.ExtendedTwice(t, f, h, y, root, a, b, c);
  }

  // So no file on a disjoint chain changes.
  lemma OthersKept(l: Layout, g: Volume, disk: seq<Sector>, e: seq<Sector>, chain: seq<nat>, other: seq<nat>)
    requires Fits(l, g, disk) && Fits(l, g, e) && Below(l, other) && OnlyIn(l, g, disk, e, chain)
    requires C.Disjoint(chain, other)
    ensures OnDisk(l, g, e, other) == OnDisk(l, g, disk, other)
  {
    forall k: nat | k < Capacity(l, |other|)
      ensures Held(l, g, e, other, k) == Held(l, g, disk, other, k)
    {
      IndexBelow(l, k, |other|);
      var d, r := other[Index(l, k)], Within(l, k);
      LbaInside(l, g, disk, d, r);
      if disk[Lba(l, d, r)] != e[Lba(l, d, r)] {
        var i, s: nat :| 0 <= i < |chain| && s < l.spc && chain[i] >= 2 && Lba(l, d, r) == Lba(l, chain[i], s);
        LbaApart(l, d, r, chain[i], s);
        assert false;
      }
    }
  }

  // ------------------------------------------------------------ bytes

  // The first n bytes of a list of sectors.
  function Contents(secs: seq<Sector>, n: nat): (b: seq<byte>)
    requires n <= |secs| * SECTOR
    ensures |b| == n
  {
    seq(n, p requires 0 <= p < n => secs[p / SECTOR][p % SECTOR])
  }

  // Bytes d put at p in a byte array that may grow.
  function Splice(b: seq<byte>, p: nat, d: seq<byte>): (r: seq<byte>)
    requires p <= |b|
    ensures |r| == if p + |d| > |b| then p + |d| else |b|
  {
    b[..p] + d + (if p + |d| < |b| then b[p + |d|..] else [])
  }

  lemma SpliceTwice(b: seq<byte>, p: nat, d: seq<byte>, e: seq<byte>)
    requires p <= |b|
    ensures Splice(Splice(b, p, d), p + |d|, e) == Splice(b, p, d + e)
  {
  }

  function Max(a: nat, b: nat): nat {
    if a < b then b else a
  }

  // Part of one sector.
  function Patched(s: Sector, o: nat, d: seq<byte>): (r: Sector)
    requires o + |d| <= SECTOR
  {
    s[..o] + d + s[o + |d|..]
  }

  // memcpy into sector k is a splice of the contents.
  lemma PatchSplices(secs: seq<Sector>, n: nat, k: nat, o: nat, d: seq<byte>)
    requires n <= |secs| * SECTOR && k < |secs| && o + |d| <= SECTOR && k * SECTOR + o <= n
    ensures Max(n, k * SECTOR + o + |d|) <= |secs| * SECTOR
    ensures Contents(secs[k := Patched(secs[k], o, d)], Max(n, k * SECTOR + o + |d|))
         == Splice(Contents(secs, n), k * SECTOR + o, d)
  {
  }

  // Sectors as the bytes they hold, and back.
  function AsSectors(d: seq<byte>, count: nat): (s: seq<Sector>)
    requires count * SECTOR <= |d|
    ensures |s| == count
  {
    seq(count, i requires 0 <= i < count => d[i * SECTOR..i * SECTOR + SECTOR])
  }

  lemma ReplaceSplices(secs: seq<Sector>, n: nat, k: nat, d: seq<byte>, count: nat)
    requires n <= |secs| * SECTOR && k + count <= |secs| && k * SECTOR <= n && count * SECTOR <= |d|
    ensures Max(n, (k + count) * SECTOR) <= |secs| * SECTOR
    ensures Contents(Overlaid(secs, k, AsSectors(d, count)), Max(n, (k + count) * SECTOR))
         == Splice(Contents(secs, n), k * SECTOR, d[..count * SECTOR])
  {
    var after, m := Overlaid(secs, k, AsSectors(d, count)), Max(n, (k + count) * SECTOR);
    forall p: nat | p < m
      ensures Contents(after, m)[p] == Splice(Contents(secs, n), k * SECTOR, d[..count * SECTOR])[p]
    {
      var j := p / SECTOR;
      if k <= j < k + count {
        assert after[j] == d[(j - k) * SECTOR..(j - k) * SECTOR + SECTOR];
      }
    }
  }

  // The bytes of consecutive sectors are a slice of the contents.
  lemma ReadSlices(secs: seq<Sector>, n: nat, k: nat, o: nat, m: nat)
    requires n <= |secs| * SECTOR && k < |secs| && o + m <= SECTOR && k * SECTOR + o + m <= n
    ensures secs[k][o..o + m] == Contents(secs, n)[k * SECTOR + o..k * SECTOR + o + m]
  {
  }

  function Joined(s: seq<Sector>): (b: seq<byte>)
    ensures |b| == |s| * SECTOR
  {
    Contents(s, |s| * SECTOR)
  }

  lemma ReadWhole(secs: seq<Sector>, n: nat, k: nat, count: nat)
    requires n <= |secs| * SECTOR && k + count <= |secs| && (k + count) * SECTOR <= n
    ensures Joined(secs[k..k + count]) == Contents(secs, n)[k * SECTOR..(k + count) * SECTOR]
  {
  }

  // ------------------------------------------------------------ the buffered sector

  // secs is the file as its user sees it: the sectors d on disk, except that a
  // dirty buffered sector stands in its place, possibly just past the end.
  predicate Cached(d: seq<Sector>, secs: seq<Sector>, sector: Sector, address: nat, dirty: bool) {
    if dirty then
      address <= |d| && secs == (if address < |d| then d[address := sector] else d + [sector])
    else
      secs == d && (address == INVALID || (address < |d| && d[address] == sector))
  }

  lemma CachedAt(d: seq<Sector>, secs: seq<Sector>, sector: Sector, address: nat, dirty: bool)
    requires Cached(d, secs, sector, address, dirty)
    ensures |d| <= |secs| <= |d| + 1
    ensures dirty || address != INVALID ==> address < |secs| && secs[address] == sector
    ensures forall k | 0 <= k < |d| && !(dirty && k == address) :: secs[k] == d[k]
    ensures !dirty ==> secs == d
    ensures |secs| > |d| ==> dirty && address == |d|
  {
  }

  // Writing the dirty sector back changes nothing the user sees.
  lemma FlushedCached(d: seq<Sector>, secs: seq<Sector>, sector: Sector, address: nat, grown: seq<Sector>)
    requires Cached(d, secs, sector, address, true) && d <= grown && address < |grown|
    ensures var e := Overlaid(grown, address, [sector]);
            Cached(e, e, sector, address, false) && secs <= e
  {
  }

  // The same bytes at the start of more sectors.
  lemma ContentsPrefix(secs: seq<Sector>, more: seq<Sector>, n: nat)
    requires n <= |secs| * SECTOR && secs <= more
    ensures n <= |more| * SECTOR && Contents(more, n) == Contents(secs, n)
  {
  }

  // The sectors after bytes are copied into the buffer for sector k, which is
  // one of them or the one just past the end.
  function Touched(secs: seq<Sector>, k: nat, s: Sector): (r: seq<Sector>)
    requires k <= |secs|
    ensures |r| == (if k < |secs| then |secs| else |secs| + 1)
  {
    if k < |secs| then secs[k := s] else secs + [s]
  }

  lemma TouchedSplices(secs: seq<Sector>, n: nat, k: nat, base: Sector, o: nat, d: seq<byte>)
    requires n <= |secs| * SECTOR && k <= |secs| && (k < |secs| ==> secs[k] == base)
    requires o + |d| <= SECTOR && k * SECTOR + o <= n
    ensures var after := Touched(secs, k, Patched(base, o, d));
            && Max(n, k * SECTOR + o + |d|) <= |after| * SECTOR
            && Contents(after, Max(n, k * SECTOR + o + |d|)) == Splice(Contents(secs, n), k * SECTOR + o, d)
  {
    var wide := if k < |secs| then secs else secs + [base];
    ContentsPrefix(secs, wide, n);
    PatchSplices(wide, n, k, o, d);
    assert wide[k := Patched(base, o, d)] == Touched(secs, k, Patched(base, o, d));
  }

  lemma LoadedCached(d: seq<Sector>, k: nat, s: Sector)
    requires k <= |d|
    ensures Cached(d, Touched(d, k, s), s, k, true)
    ensures k < |d| && d[k] == s ==> Cached(d, d, s, k, false)
    ensures Cached(d, d, s, INVALID, false)
  {
  }

  // A direct write of whole sectors is a splice.
  lemma WholeSplices(secs: seq<Sector>, grown: seq<Sector>, n: nat, k: nat, d: seq<byte>, count: nat, m: nat)
    requires n <= |secs| * SECTOR && secs <= grown && k * SECTOR <= n && m <= count && count * SECTOR <= |d| && k + m <= |grown|
    ensures var after := Overlaid(grown, k, AsSectors(d, count)[..m]);
            && Max(n, (k + m) * SECTOR) <= |after| * SECTOR
            && Contents(after, Max(n, (k + m) * SECTOR)) == Splice(Contents(secs, n), k * SECTOR, d[..m * SECTOR])
  {
    ContentsPrefix(secs, grown, n);
    assert AsSectors(d, count)[..m] == AsSectors(d, m);
    ReplaceSplices(grown, n, k, d, m);
  }
}
