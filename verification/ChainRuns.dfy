// Whole runs of allocation and release on the table: chains are started, grown
// and released in any order (fat_write.c:45-120; fat_table.c:389-407).
module ChainRuns {
  import opened FatEntries
  import opened Sequences
  import opened Chains

  // The table and the chains that files and directories own.
  datatype State = State(fat: seq<nat>, chains: seq<seq<nat>>)

  // fatfs_add_free_space on chain k, fatfs_free_cluster_chain of chain k, and
  // the first cluster of a new file.
  datatype Change = Extend(k: nat, n: nat) | Release(k: nat) | Start

  // The volume's clusters are numbered below limit, the search starts at root.
  ghost predicate Good(t: FatType, root: nat, limit: nat, s: State) {
    && Family(t, s.fat, s.chains) && Room(t, s.fat, root, limit, 0)
    && InRange(t, s.fat) && |s.fat| < LAST_CLUSTER
  }

  // There are blank clusters for the change.
  predicate Allowed(t: FatType, root: nat, limit: nat, s: State, c: Change)
    requires limit <= |s.fat|
  {
    match c
    case Extend(k, n) => k < |s.chains| && n <= Blanks(t, s.fat, root, limit)
    case Release(k) => k < |s.chains|
    case Start => 1 <= Blanks(t, s.fat, root, limit)
  }

  ghost function Changed(t: FatType, root: nat, limit: nat, s: State, c: Change): (r: State)
    requires Good(t, root, limit, s) && Allowed(t, root, limit, s, c)
  {
    match c
    case Extend(k, n) =>
      var cs := s.chains[k];
      var r := Grow(t, s.fat, root, cs[|cs| - 1], n);
      State(r.fat, s.chains[k := cs + r.added])
    case Release(k) =>
      State(Freed(t, s.fat, s.chains[k][0]), s.chains[..k] + s.chains[k + 1..])
    case Start =>
      BlankExists(t, s.fat, root, limit);
      var b := FirstBlank(t, s.fat, root);
      State(s.fat[b := Cut(t, LAST_CLUSTER)], s.chains + [[b]])
  }

  // Blank entries and clusters owned.
  function Total(t: FatType, s: State): nat {
    Blanks(t, s.fat, 0, |s.fat|) + Owned(s.chains)
  }

  // ------------------------------------------------------------ growing

  lemma {:induction false} GrowInRange(t: FatType, f: seq<nat>, root: nat, tail: nat, n: nat)
    requires InRange(t, f) && tail < |f| && |f| < LAST_CLUSTER
    ensures InRange(t, Grow(t, f, root, tail, n).fat)
    decreases n
  {
    if n > 0 {
      GrowUnfolds(t, f, root, tail, n);
      var b := FirstBlank(t, f, root);
      if b < |f| {
        LinkedInRange(t, f, tail, b);
        GrowInRange(t, Linked(t, f, tail, b), root, b, n - 1);
      }
    }
  }

  lemma LinkedInRange(t: FatType, f: seq<nat>, tail: nat, b: nat)
    requires InRange(t, f) && tail < |f| && b < |f| < LAST_CLUSTER
    ensures InRange(t, Linked(t, f, tail, b))
  {
    LinkOfCut(t, LAST_CLUSTER);
    assert Link(t, Cut(t, LAST_CLUSTER)) == LAST_CLUSTER;
    CutInRange(t, b, |f|);
  }

  lemma CutInRange(t: FatType, b: nat, n: nat)
    requires b < n < LAST_CLUSTER
    ensures Link(t, Cut(t, b)) == LAST_CLUSTER || Link(t, Cut(t, b)) < n
  {
  }

  lemma ExtendKeeps(t: FatType, root: nat, limit: nat, s: State, k: nat, n: nat)
    requires Good(t, root, limit, s) && Allowed(t, root, limit, s, Extend(k, n))
    ensures Good(t, root, limit, Changed(t, root, limit, s, Extend(k, n)))
    ensures Total(t, Changed(t, root, limit, s, Extend(k, n))) == Total(t, s)
  {
    var cs := s.chains[k];
    FamilyGrows(t, s.fat, s.chains, k, root, limit, n);
    GrowAppends(t, s.fat, root, limit, cs[|cs| - 1], n);
    GrowInRange(t, s.fat, root, cs[|cs| - 1], n);
    hide Grow, Blanks, Owned, Chain, Link, IsBlank;
  }

  // ------------------------------------------------------------ releasing

  lemma {:induction false} OwnedSplit(a: seq<seq<nat>>, b: seq<seq<nat>>)
    ensures Owned(a + b) == Owned(a) + Owned(b)
  {
    if a == [] {
      assert a + b == b;
    } else {
      assert (a + b)[1..] == a[1..] + b;
      OwnedSplit(a[1..], b);
    }
  }

  lemma OwnedWithout(chains: seq<seq<nat>>, k: nat)
    requires k < |chains|
    ensures Owned(chains[..k] + chains[k + 1..]) + |chains[k]| == Owned(chains)
  {
    assert chains == chains[..k] + ([chains[k]] + chains[k + 1..]);
    OwnedSplit(chains[..k], [chains[k]] + chains[k + 1..]);
    OwnedSplit([chains[k]], chains[k + 1..]);
    OwnedSplit(chains[..k], chains[k + 1..]);
  }

  // Entries blank in h but not in f.
  ghost function Emptied(t: FatType, f: seq<nat>, h: seq<nat>, n: nat): set<nat>
    requires n <= |f| == |h|
  {
    set c: nat | c < n && IsBlank(t, h[c]) && !IsBlank(t, f[c])
  }

  lemma {:induction false} BlanksRise(t: FatType, f: seq<nat>, h: seq<nat>, n: nat)
    requires n <= |f| == |h| && forall c | 0 <= c < n :: IsBlank(t, f[c]) ==> IsBlank(t, h[c])
    ensures Blanks(t, h, 0, n) == Blanks(t, f, 0, n) + |Emptied(t, f, h, n)|
  {
    if n == 0 {
      assert Emptied(t, f, h, 0) == {};
    } else {
      BlanksRise(t, f, h, n - 1);
      var m := n - 1;
      var last := if IsBlank(t, h[m]) && !IsBlank(t, f[m]) then {m} else {};
      assert Emptied(t, f, h, n) == Emptied(t, f, h, m) + last;
    }
  }

  // What releasing a whole chain does, entry by entry.
  lemma ReleasedAt(t: FatType, f: seq<nat>, chains: seq<seq<nat>>, k: nat, x: nat)
    requires Family(t, f, chains) && k < |chains| && InRange(t, f) && |f| < LAST_CLUSTER && x < |f|
    ensures Freed(t, f, chains[k][0])[x] == if x in chains[k] then 0 else f[x]
  {
    assert Chain(t, f, chains[k]);
    FreesExactlyReachable(t, f, chains[k][0], x);
    ChainReaches(t, f, chains[k], x);
  }

  lemma ReleaseKeeps(t: FatType, root: nat, limit: nat, s: State, k: nat)
    requires Good(t, root, limit, s) && k < |s.chains|
    ensures Good(t, root, limit, Changed(t, root, limit, s, Release(k)))
    ensures Total(t, Changed(t, root, limit, s, Release(k))) == Total(t, s)
  {
    var f, cs := s.fat, s.chains[k];
    var h := Freed(t, f, cs[0]);
    FamilyShrinks(t, f, s.chains, k);
    OwnedWithout(s.chains, k);
    forall x: nat | x < |f|
      ensures h[x] == if x in cs then 0 else f[x]
    {
      ReleasedAt(t, f, s.chains, k, x);
    }
    assert Chain(t, f, cs);
    ChainIsAcyclic(t, f, cs);
    hide Freed, Family, Owned, Link, IsBlank, Blanks, Chain;
    ReleasedBlanks(t, f, h, cs);
    ReleasedRoom(t, f, h, cs, root, limit);
  }

  lemma ReleasedRoom(t: FatType, f: seq<nat>, h: seq<nat>, cs: seq<nat>, root: nat, limit: nat)
    requires Room(t, f, root, limit, 0) && InRange(t, f) && Chain(t, f, cs) && |h| == |f|
    requires forall x: nat | x < |f| :: h[x] == if x in cs then 0 else f[x]
    ensures Room(t, h, root, limit, 0) && InRange(t, h)
  {
    LinkOfCut(t, 0);
    assert 0 !in cs && 1 !in cs;
    assert h[0] == f[0] && h[1] == f[1];
    hide Link, IsBlank, Blanks, Chain;
  }

  lemma ReleasedBlanks(t: FatType, f: seq<nat>, h: seq<nat>, cs: seq<nat>)
    requires Raw(t, f) && Chain(t, f, cs) && NoRepeats(cs) && |h| == |f|
    requires forall x: nat | x < |f| :: h[x] == if x in cs then 0 else f[x]
    ensures Blanks(t, h, 0, |f|) == Blanks(t, f, 0, |f|) + |cs|
  {
    BlanksRise(t, f, h, |f|);
    forall i | 0 <= i < |cs|
      ensures cs[i] < |f| && !IsBlank(t, f[cs[i]])
    {
      ChainIsUsed(t, f, cs, i);
    }
    assert Emptied(t, f, h, |f|) == Members(cs);
    SetOfDistinct(cs);
  }

  // ------------------------------------------------------------ starting

  lemma StartKeeps(t: FatType, root: nat, limit: nat, s: State)
    requires Good(t, root, limit, s) && Allowed(t, root, limit, s, Start)
    ensures Good(t, root, limit, Changed(t, root, limit, s, Start))
    ensures Total(t, Changed(t, root, limit, s, Start)) == Total(t, s)
  {
    BlankExists(t, s.fat, root, limit);
    var f, b := s.fat, FirstBlank(t, s.fat, root);
    Started(t, f, root, limit, b);
    OwnedSplit(s.chains, [[b]]);
    assert Owned([[b]]) == 1;
    forall m, i | 0 <= m < |s.chains| && 0 <= i < |s.chains[m]|
      ensures s.chains[m][i] != b
    {
      ChainIsUsed(t, f, s.chains[m], i);
    }
    hide Blanks, Owned, FirstBlank, IsBlank, Cut, Link, Family, Room, InRange;
    StartedFamily(t, f, f[b := Cut(t, LAST_CLUSTER)], s.chains, b);
  }

  // The entry of a new one-cluster chain.
  lemma Started(t: FatType, f: seq<nat>, root: nat, limit: nat, b: nat)
    requires Room(t, f, root, limit, 1) && InRange(t, f) && b < |f| && IsBlank(t, f[b])
    ensures var h := f[b := Cut(t, LAST_CLUSTER)];
            && Room(t, h, root, limit, 0) && InRange(t, h) && 2 <= b && Link(t, h[b]) == LAST_CLUSTER
            && Blanks(t, h, 0, |f|) == Blanks(t, f, 0, |f|) - 1
  {
    var h := f[b := Cut(t, LAST_CLUSTER)];
    LinkOfCut(t, b);
    BlankLinks(t, h[b]);
    BlanksUsed(t, f, h, 0, |f|, b);
  }

  lemma StartedFamily(t: FatType, f: seq<nat>, h: seq<nat>, chains: seq<seq<nat>>, b: nat)
    requires Family(t, f, chains) && 2 <= b < |f| == |h| && Link(t, h[b]) == LAST_CLUSTER
    requires forall c | 0 <= c < |f| && c != b :: h[c] == f[c]
    requires forall m, i | 0 <= m < |chains| && 0 <= i < |chains[m]| :: chains[m][i] != b
    ensures Family(t, h, chains + [[b]])
  {
    var after := chains + [[b]];
    hide Link;
    forall m | 0 <= m < |after|
      ensures Chain(t, h, after[m])
    {
      if m < |chains| { ChainFramed(t, f, h, chains[m]); }
    }
    forall m, l | 0 <= m < l < |after|
      ensures Disjoint(after[m], after[l])
    {
      if l < |chains| { assert Disjoint(chains[m], chains[l]); }
    }
  }

  // ------------------------------------------------------------ runs

  lemma ChangeKeeps(t: FatType, root: nat, limit: nat, s: State, c: Change)
    requires Good(t, root, limit, s) && Allowed(t, root, limit, s, c)
    ensures Good(t, root, limit, Changed(t, root, limit, s, c))
    ensures Total(t, Changed(t, root, limit, s, c)) == Total(t, s)
  {
    hide Good, Changed, Total, Blanks;
    match c
    case Extend(k, n) => ExtendKeeps(t, root, limit, s, k, n);
    case Release(k) => ReleaseKeeps(t, root, limit, s, k);
    case Start => StartKeeps(t, root, limit, s);
  }

  // Every change finds the blank clusters it needs when its turn comes.
  ghost predicate Possible(t: FatType, root: nat, limit: nat, s: State, cs: seq<Change>)
    requires Good(t, root, limit, s)
    decreases |cs|
  {
    cs == [] || (Allowed(t, root, limit, s, cs[0])
                 && (ChangeKeeps(t, root, limit, s, cs[0]); Possible(t, root, limit, Changed(t, root, limit, s, cs[0]), cs[1..])))
  }

  ghost function AfterAll(t: FatType, root: nat, limit: nat, s: State, cs: seq<Change>): (r: State)
    requires Good(t, root, limit, s) && Possible(t, root, limit, s, cs)
    decreases |cs|
  {
    if cs == [] then s
    else
      ChangeKeeps(t, root, limit, s, cs[0]);
      AfterAll(t, root, limit, Changed(t, root, limit, s, cs[0]), cs[1..])
  }

  // Whatever is started, grown and released: the chains stay ended, acyclic
  // and pairwise disjoint, and blank entries plus owned clusters are constant.
  lemma {:induction false} RunKeeps(t: FatType, root: nat, limit: nat, s: State, cs: seq<Change>)
    requires Good(t, root, limit, s) && Possible(t, root, limit, s, cs)
    ensures var r := AfterAll(t, root, limit, s, cs);
            && Good(t, root, limit, r) && Total(t, r) == Total(t, s)
            && forall k | 0 <= k < |r.chains| :: NoRepeats(r.chains[k])
    decreases |cs|
  {
    if cs == [] {
      forall k | 0 <= k < |s.chains|
        ensures NoRepeats(s.chains[k])
      {
        ChainIsAcyclic(t, s.fat, s.chains[k]);
      }
    } else {
      hide Good, Allowed, Changed, Total, NoRepeats;
      ChangeKeeps(t, root, limit, s, cs[0]);
      RunKeeps(t, root, limit, Changed(t, root, limit, s, cs[0]), cs[1..]);
    }
  }
}
