// Cluster chains threaded through the FAT (fat_table.c:288-342, 389-440;
// fat_write.c:45-76), on the table of raw entries.
module Chains {
  import opened FatEntries
  import opened Sequences

  // Cluster numbers an entry of this type can name.
  function NameLimit(t: FatType): nat {
    if t.Fat16? then 0xFFF8 else 0x0FFF_FFF8
  }

  lemma LinkOfCut(t: FatType, b: nat)
    ensures b < NameLimit(t) ==> Link(t, Cut(t, b)) == b
    ensures Link(t, Cut(t, LAST_CLUSTER)) == LAST_CLUSTER
    ensures Link(t, 0) == 0
  {
  }

  lemma BlankLinks(t: FatType, v: nat)
    requires v < (if t.Fat16? then 0x1_0000 else 0x1_0000_0000)
    ensures IsBlank(t, v) <==> Link(t, v) == 0
  {
  }

  // Raw words of the table's width.
  predicate Raw(t: FatType, f: seq<nat>) {
    forall c | 0 <= c < |f| :: f[c] < (if t.Fat16? then 0x1_0000 else 0x1_0000_0000)
  }

  // cs follows the links of f.
  predicate Follows(t: FatType, f: seq<nat>, cs: seq<nat>) {
    && (forall i | 0 <= i < |cs| :: 2 <= cs[i] < |f|)
    && (forall i | 0 <= i < |cs| - 1 :: Link(t, f[cs[i]]) == cs[i + 1])
  }

  // A whole chain, from its first cluster to its end mark.
  predicate Chain(t: FatType, f: seq<nat>, cs: seq<nat>) {
    |cs| > 0 && Follows(t, f, cs) && Link(t, f[cs[|cs| - 1]]) == LAST_CLUSTER
  }

  predicate NoRepeats(cs: seq<nat>) {
    forall i, j | 0 <= i < j < |cs| :: cs[i] != cs[j]
  }

  predicate Disjoint(cs: seq<nat>, ds: seq<nat>) {
    forall i, j | 0 <= i < |cs| && 0 <= j < |ds| :: cs[i] != ds[j]
  }

  // A chain that ends visits no cluster twice.
  lemma {:induction false} ChainIsAcyclic(t: FatType, f: seq<nat>, cs: seq<nat>)
    requires Chain(t, f, cs) && |f| < LAST_CLUSTER
    ensures NoRepeats(cs)
  {
    forall i, j | 0 <= i < j < |cs|
      ensures cs[i] != cs[j]
    {
      if cs[i] == cs[j] { RepeatRuns(t, f, cs, i, j); }
    }
  }

  lemma {:induction false} RepeatRuns(t: FatType, f: seq<nat>, cs: seq<nat>, i: nat, j: nat)
    requires Chain(t, f, cs) && |f| < LAST_CLUSTER && i < j < |cs|
    ensures cs[i] != cs[j]
    decreases |cs| - j
  {
    assert Link(t, f[cs[i]]) == cs[i + 1] < |f|;
    if j + 1 < |cs| {
      RepeatRuns(t, f, cs, i + 1, j + 1);
      assert Link(t, f[cs[j]]) == cs[j + 1];
    }
  }

  // No member of a chain is blank.
  lemma ChainIsUsed(t: FatType, f: seq<nat>, cs: seq<nat>, i: nat)
    requires Raw(t, f) && Chain(t, f, cs) && i < |cs|
    ensures !IsBlank(t, f[cs[i]])
  {
    BlankLinks(t, f[cs[i]]);
    if i + 1 < |cs| {
      assert Link(t, f[cs[i]]) == cs[i + 1];
    }
  }

  // ------------------------------------------------------------ allocation

  // The least blank entry from c on, |f| if there is none.
  function FirstBlank(t: FatType, f: seq<nat>, c: nat): (b: nat)
    ensures c < |f| ==> c <= b <= |f|
    ensures b < |f| ==> c <= b && IsBlank(t, f[b])
    ensures forall d | c <= d < b && d < |f| :: !IsBlank(t, f[d])
    decreases |f| - c
  {
    if c >= |f| then |f| else if IsBlank(t, f[c]) then c else FirstBlank(t, f, c + 1)
  }

  lemma {:induction false} FirstBlankIs(t: FatType, f: seq<nat>, c: nat, b: nat)
    requires forall d | c <= d < b && d < |f| :: !IsBlank(t, f[d])
    requires c <= b && (b < |f| ==> IsBlank(t, f[b]))
    ensures if b < |f| then FirstBlank(t, f, c) == b else FirstBlank(t, f, c) >= |f|
    decreases |f| - c
  {
    if c < |f| && c < b { FirstBlankIs(t, f, c + 1, b); }
  }

  datatype Grown = Grown(ok: bool, fat: seq<nat>, added: seq<nat>)

  // fatfs_add_free_space on the table: n times, the least blank entry from
  // root on is linked after the tail and marked as the end.
  function Grow(t: FatType, f: seq<nat>, root: nat, tail: nat, n: nat): (r: Grown)
    requires tail < |f|
    ensures |r.fat| == |f| && |r.added| <= n && (r.ok <==> |r.added| == n)
    decreases n
  {
    if n == 0 then Grown(true, f, [])
    else
      var b := FirstBlank(t, f, root);
      if b >= |f| then Grown(false, f, [])
      else
        var r := Grow(t, f[tail := Cut(t, b)][b := Cut(t, LAST_CLUSTER)], root, b, n - 1);
        Grown(r.ok, r.fat, [b] + r.added)
  }

  lemma GrowNothing(t: FatType, f: seq<nat>, root: nat, tail: nat)
    requires tail < |f|
    ensures Grow(t, f, root, tail, 0) == Grown(true, f, [])
  {
  }

  lemma GrowUnfolds(t: FatType, f: seq<nat>, root: nat, tail: nat, n: nat)
    requires tail < |f| && n > 0
    ensures var b := FirstBlank(t, f, root);
            if b >= |f| then Grow(t, f, root, tail, n) == Grown(false, f, [])
            else var r := Grow(t, Linked(t, f, tail, b), root, b, n - 1);
                 Grow(t, f, root, tail, n) == Grown(r.ok, r.fat, [b] + r.added)
  {
  }

  // Growing by n and then by m is growing by n + m.
  lemma {:induction false} GrowTwice(t: FatType, f: seq<nat>, root: nat, tail: nat, n: nat, m: nat)
    requires tail < |f| && Grow(t, f, root, tail, n).ok
    ensures var r := Grow(t, f, root, tail, n);
            var end := ([tail] + r.added)[n];
            && end < |f|
            && var q := Grow(t, r.fat, root, end, m);
               Grow(t, f, root, tail, n + m) == Grown(q.ok, q.fat, r.added + q.added)
    decreases n
  {
    hide Grow, FirstBlank, Linked;
    if n == 0 {
      GrowNothing(t, f, root, tail);
      var q := Grow(t, f, root, tail, m);
      assert [] + q.added == q.added;
    } else {
      GrowUnfolds(t, f, root, tail, n);
      GrowUnfolds(t, f, root, tail, n + m);
      var b := FirstBlank(t, f, root);
      var h, k: nat := Linked(t, f, tail, b), n - 1;
      GrowTwice(t, h, root, b, k, m);
      assert n + m - 1 == k + m;
      hide *;
      var r := Grow(t, h, root, b, k);
      EndOf(tail, b, r.added, n);
      var end := ([b] + r.added)[k];
      var q := Grow(t, r.fat, root, end, m);
      assert Grow(t, f, root, tail, n) == Grown(r.ok, r.fat, [b] + r.added);
      assert Grow(t, f, root, tail, n + m) == Grown(q.ok, q.fat, [b] + (r.added + q.added));
      assert [b] + (r.added + q.added) == ([b] + r.added) + q.added;
    }
  }

  lemma EndOf(tail: nat, b: nat, added: seq<nat>, n: nat)
    requires 0 < n <= |added| + 1
    ensures ([tail] + ([b] + added))[n] == ([b] + added)[n - 1]
  {
  }

  // The number of blank entries in f[lo..hi].
  function Blanks(t: FatType, f: seq<nat>, lo: nat, hi: nat): (n: nat)
    requires hi <= |f|
    ensures lo < hi ==> n <= hi - lo
    ensures lo >= hi ==> n == 0
    decreases hi - lo
  {
    if lo >= hi then 0 else Blanks(t, f, lo, hi - 1) + (if IsBlank(t, f[hi - 1]) then 1 else 0)
  }

  lemma {:induction false} BlanksSame(t: FatType, f: seq<nat>, h: seq<nat>, lo: nat, hi: nat)
    requires hi <= |f| == |h| && forall c | lo <= c < hi :: IsBlank(t, f[c]) == IsBlank(t, h[c])
    ensures Blanks(t, f, lo, hi) == Blanks(t, h, lo, hi)
    decreases hi
  {
    if lo < hi { BlanksSame(t, f, h, lo, hi - 1); }
  }

  // Using one blank entry up lowers the count by one.
  lemma {:induction false} BlanksUsed(t: FatType, f: seq<nat>, h: seq<nat>, lo: nat, hi: nat, b: nat)
    requires hi <= |f| == |h| && lo <= b < hi && IsBlank(t, f[b]) && !IsBlank(t, h[b])
    requires forall c | lo <= c < hi && c != b :: IsBlank(t, f[c]) == IsBlank(t, h[c])
    ensures Blanks(t, h, lo, hi) == Blanks(t, f, lo, hi) - 1
    decreases hi
  {
    if b == hi - 1 {
      BlanksSame(t, f, h, lo, hi - 1);
    } else {
      BlanksUsed(t, f, h, lo, hi - 1, b);
    }
  }

  lemma {:induction false} BlankExists(t: FatType, f: seq<nat>, lo: nat, hi: nat)
    requires hi <= |f| && Blanks(t, f, lo, hi) > 0
    ensures lo <= FirstBlank(t, f, lo) < hi
    decreases hi
  {
    if IsBlank(t, f[hi - 1]) {
      assert FirstBlank(t, f, lo) <= hi - 1;
    } else {
      BlankExists(t, f, lo, hi - 1);
    }
  }

  // What the volume promises the allocator: entries 0 and 1 are used, and
  // enough blank entries lie among the clusters the volume really has.
  predicate Room(t: FatType, f: seq<nat>, root: nat, limit: nat, n: nat) {
    && Raw(t, f) && limit <= |f| && limit <= NameLimit(t) && root < limit
    && |f| > 2 && !IsBlank(t, f[0]) && !IsBlank(t, f[1])
    && n <= Blanks(t, f, root, limit)
  }

  // The table after the first of the links Grow adds.
  function Linked(t: FatType, f: seq<nat>, tail: nat, b: nat): (h: seq<nat>)
    requires tail < |f| && b < |f|
    ensures |h| == |f|
  {
    f[tail := Cut(t, b)][b := Cut(t, LAST_CLUSTER)]
  }

  // One cluster: the tail's link names it, it ends the chain, and one blank
  // entry fewer is left.
  lemma GrowOne(t: FatType, f: seq<nat>, root: nat, limit: nat, n: nat, tail: nat)
    requires Room(t, f, root, limit, n) && n > 0 && 2 <= tail < |f| && !IsBlank(t, f[tail])
    ensures var b := FirstBlank(t, f, root);
            && 2 <= b < limit && b != tail && IsBlank(t, f[b])
            && var h := Linked(t, f, tail, b);
            && Link(t, h[tail]) == b && Link(t, h[b]) == LAST_CLUSTER
            && !IsBlank(t, h[tail]) && !IsBlank(t, h[b])
            && Room(t, h, root, limit, n - 1)
            && Blanks(t, h, 0, |f|) == Blanks(t, f, 0, |f|) - 1
  {
    BlankExists(t, f, root, limit);
    var b := FirstBlank(t, f, root);
    var h := Linked(t, f, tail, b);
    LinkOfCut(t, b);
    BlankLinks(t, h[tail]);
    BlankLinks(t, h[b]);
    BlanksUsed(t, f, h, root, limit, b);
    BlanksUsed(t, f, h, 0, |f|, b);
  }

  // A successful growth appends exactly n clusters, all blank before and each
  // the least blank one at its turn, and touches no entry but theirs and the
  // old tail's.
  ghost predicate Appended(t: FatType, f: seq<nat>, root: nat, limit: nat, tail: nat, n: nat, r: Grown)
    requires |r.fat| == |f| && limit <= |f|
  {
    && r.ok && |r.added| == n && Raw(t, r.fat)
    && (forall i | 0 <= i < n :: 2 <= r.added[i] < limit && root <= r.added[i] && IsBlank(t, f[r.added[i]]))
    && (forall i, j | 0 <= i < j < n :: r.added[i] < r.added[j])
    && (forall c | 0 <= c < |f| && c != tail && c !in r.added :: r.fat[c] == f[c])
    && Blanks(t, r.fat, 0, |f|) == Blanks(t, f, 0, |f|) - n
  }

  lemma {:induction false} GrowAppends(t: FatType, f: seq<nat>, root: nat, limit: nat, tail: nat, n: nat)
    requires Room(t, f, root, limit, n) && 2 <= tail < |f| && Link(t, f[tail]) == LAST_CLUSTER
    ensures Appended(t, f, root, limit, tail, n, Grow(t, f, root, tail, n))
    ensures var r := Grow(t, f, root, tail, n);
            Chain(t, r.fat, [tail] + r.added)
    decreases n
  {
    hide Grow, FirstBlank, Blanks, Linked, Link, IsBlank, Room, Chain, Appended;
    OpenRoom(t, f, root, limit, n);
    BlankLinks(t, f[tail]);
    if n > 0 {
      GrowOne(t, f, root, limit, n, tail);
      var b := FirstBlank(t, f, root);
      GrowAppends(t, Linked(t, f, tail, b), root, limit, b, n - 1);
      GrowStep(t, f, root, limit, tail, n);
    } else {
      NothingAppended(t, f, root, limit, tail);
    }
  }

  lemma NothingAppended(t: FatType, f: seq<nat>, root: nat, limit: nat, tail: nat)
    requires Room(t, f, root, limit, 0) && 2 <= tail < |f| && Link(t, f[tail]) == LAST_CLUSTER
    ensures Appended(t, f, root, limit, tail, 0, Grow(t, f, root, tail, 0))
    ensures Chain(t, Grow(t, f, root, tail, 0).fat, [tail] + Grow(t, f, root, tail, 0).added)
  {
    hide Link;
    assert [tail] + [] == [tail];
  }

  lemma OpenRoom(t: FatType, f: seq<nat>, root: nat, limit: nat, n: nat)
    requires Room(t, f, root, limit, n)
    ensures limit <= |f| && forall c | 0 <= c < |f| :: f[c] < (if t.Fat16? then 0x1_0000 else 0x1_0000_0000)
  {
  }

  lemma GrowStep(t: FatType, f: seq<nat>, root: nat, limit: nat, tail: nat, n: nat)
    requires Room(t, f, root, limit, n) && n > 0 && 2 <= tail < |f| && !IsBlank(t, f[tail])
    requires var b := FirstBlank(t, f, root);
             && 2 <= b < limit && b != tail && IsBlank(t, f[b])
             && var h := Linked(t, f, tail, b);
             && var r := Grow(t, h, root, b, n - 1);
             && Appended(t, h, root, limit, b, n - 1, r) && Chain(t, r.fat, [b] + r.added)
             && Link(t, h[tail]) == b && !IsBlank(t, h[tail]) && !IsBlank(t, h[b])
             && Blanks(t, h, 0, |f|) == Blanks(t, f, 0, |f|) - 1
    ensures var r := Grow(t, f, root, tail, n);
            Appended(t, f, root, limit, tail, n, r) && Chain(t, r.fat, [tail] + r.added)
  {
    var b := FirstBlank(t, f, root);
    var h := Linked(t, f, tail, b);
    var rest, r := Grow(t, h, root, b, n - 1), Grow(t, f, root, tail, n);
    assert r == Grown(rest.ok, rest.fat, [b] + rest.added);
    assert h == f[tail := h[tail]][b := h[b]];
    assert root <= b && forall c | root <= c < b :: !IsBlank(t, f[c]);
    hide Grow, FirstBlank, Linked, Blanks, IsBlank, Link;
    assert tail !in rest.added;
    AppendedStep(t, f, h, root, limit, tail, b, n, rest);
    ChainStep(t, rest.fat, tail, b, rest.added);
  }

  lemma ChainStep(t: FatType, f: seq<nat>, tail: nat, b: nat, added: seq<nat>)
    requires 2 <= tail < |f| && Link(t, f[tail]) == b && Chain(t, f, [b] + added)
    ensures Chain(t, f, [tail] + ([b] + added))
  {
    hide Link;
    var ds := [b] + added;
    var cs := [tail] + ds;
    assert forall i | 0 < i < |cs| :: cs[i] == ds[i - 1];
  }

  lemma AppendedStep(t: FatType, f: seq<nat>, h: seq<nat>, root: nat, limit: nat, tail: nat, b: nat, n: nat, rest: Grown)
    requires |rest.fat| == |f| == |h| && limit <= |f| && n > 0 && tail < |f| && 2 <= b < limit && root <= b
    requires IsBlank(t, f[b]) && !IsBlank(t, h[tail]) && !IsBlank(t, h[b]) && tail != b
    requires h == f[tail := h[tail]][b := h[b]] && forall c | root <= c < b :: !IsBlank(t, f[c])
    requires Appended(t, h, root, limit, b, n - 1, rest)
    requires Blanks(t, h, 0, |f|) == Blanks(t, f, 0, |f|) - 1
    ensures Appended(t, f, root, limit, tail, n, Grown(rest.ok, rest.fat, [b] + rest.added))
  {
    hide IsBlank, Blanks;
    var added := [b] + rest.added;
    forall i | 0 <= i < n - 1
      ensures b < rest.added[i] && rest.added[i] != tail && IsBlank(t, f[rest.added[i]])
    {
      assert IsBlank(t, h[rest.added[i]]);
    }
    assert forall i | 0 < i < n :: added[i] == rest.added[i - 1];
    forall c | 0 <= c < |f| && c != tail && c !in added
      ensures rest.fat[c] == f[c]
    {
      assert c != b && c !in rest.added;
    }
  }

  // Entries no more than the width of a link can number.
  predicate Sized(t: FatType, f: seq<nat>) {
    Raw(t, f) && 2 < |f| <= (if t.Fat16? then 0x1_0000 else 0x1000_0000) && !IsBlank(t, f[0]) && !IsBlank(t, f[1])
  }

  lemma {:induction false} NoBlanks(t: FatType, f: seq<nat>, lo: nat, hi: nat)
    requires hi <= |f| && forall c | lo <= c < hi :: !IsBlank(t, f[c])
    ensures Blanks(t, f, lo, hi) == 0
    decreases hi
  {
    if lo < hi { NoBlanks(t, f, lo, hi - 1); }
  }

  // The allocator succeeds exactly when enough blank entries are left from
  // root on; when it fails, none is.
  lemma {:induction false} GrowSucceeds(t: FatType, f: seq<nat>, root: nat, tail: nat, n: nat)
    requires Sized(t, f) && 2 <= tail < |f| && !IsBlank(t, f[tail])
    ensures Grow(t, f, root, tail, n).ok <==> n <= Blanks(t, f, root, |f|)
    ensures !Grow(t, f, root, tail, n).ok ==> Blanks(t, Grow(t, f, root, tail, n).fat, root, |f|) == 0
    decreases n
  {
    if n > 0 {
      var b := FirstBlank(t, f, root);
      if b >= |f| {
        NoBlanks(t, f, root, |f|);
      } else {
        var h := Linked(t, f, tail, b);
        LinkedIsSized(t, f, tail, b);
        BlanksUsed(t, f, h, root, |f|, b);
        hide Linked, IsBlank, Cut, Blanks, FirstBlank;
        assert Grow(t, f, root, tail, n).ok == Grow(t, h, root, b, n - 1).ok;
        GrowSucceeds(t, h, root, b, n - 1);
      }
    }
  }

  // The table has entries past the volume's last cluster. Growth hands out
  // clusters of the volume alone exactly when enough of those are blank.
  lemma {:induction false} GrowStaysBelow(t: FatType, f: seq<nat>, root: nat, limit: nat, tail: nat, n: nat)
    requires Sized(t, f) && limit <= |f| && 2 <= tail < |f| && !IsBlank(t, f[tail])
    ensures var r := Grow(t, f, root, tail, n);
            (r.ok && forall i | 0 <= i < |r.added| :: r.added[i] < limit) <==> n <= Blanks(t, f, root, limit)
    decreases n
  {
    if n > 0 {
      var b := FirstBlank(t, f, root);
      if b >= |f| || b >= limit {
        NoBlanks(t, f, root, limit);
        assert b < |f| ==> Grow(t, f, root, tail, n).added[0] == b;
      } else {
        var h := Linked(t, f, tail, b);
        LinkedIsSized(t, f, tail, b);
        BlanksUsed(t, f, h, root, limit, b);
        hide Linked, IsBlank, Cut, Blanks, FirstBlank;
        GrowUnfolds(t, f, root, tail, n);
        GrowStaysBelow(t, h, root, limit, b, n - 1);
        BelowAll(b, Grow(t, h, root, b, n - 1).added, limit);
      }
    }
  }

  lemma BelowAll(b: nat, rest: seq<nat>, limit: nat)
    requires b < limit
    ensures (forall i | 0 <= i < |rest| :: rest[i] < limit) <==> forall i | 0 <= i < |[b] + rest| :: ([b] + rest)[i] < limit
  {
    assert forall i | 0 <= i < |rest| :: ([b] + rest)[i + 1] == rest[i];
  }

  lemma LinkedIsSized(t: FatType, f: seq<nat>, tail: nat, b: nat)
    requires Sized(t, f) && 2 <= tail < |f| && !IsBlank(t, f[tail]) && b < |f| && IsBlank(t, f[b])
    ensures var h := Linked(t, f, tail, b);
            && Sized(t, h) && 2 <= b && b != tail && !IsBlank(t, h[tail]) && !IsBlank(t, h[b])
            && h == f[tail := h[tail]][b := h[b]] && h == f[tail := Cut(t, b)][b := Cut(t, LAST_CLUSTER)]
  {
  }

  // A walk along links from its first cluster until an end mark or a zero link.
  predicate Trail(t: FatType, f: seq<nat>, cs: seq<nat>) {
    && |cs| > 0 && (forall i | 0 <= i < |cs| :: 0 < cs[i] < |f|)
    && (forall i | 0 <= i < |cs| - 1 :: Link(t, f[cs[i]]) == cs[i + 1])
    && Stops(Link(t, f[cs[|cs| - 1]]))
  }

  lemma TrailAt(t: FatType, f: seq<nat>, cs: seq<nat>, i: nat)
    requires Trail(t, f, cs) && i < |cs|
    ensures 0 < cs[i] < |f|
    ensures if i + 1 < |cs| then Link(t, f[cs[i]]) == cs[i + 1] > 0 else Stops(Link(t, f[cs[i]]))
  {
  }

  lemma TrailEnds(t: FatType, f: seq<nat>, cs: seq<nat>)
    requires Trail(t, f, cs)
    ensures |cs| > 0 && 0 < cs[0] && cs[0] < |f| && cs[|cs| - 1] < |f|
  {
  }

  // What is not used of the room is still there.
  lemma {:induction false} GrowLeavesRoom(t: FatType, f: seq<nat>, root: nat, limit: nat, tail: nat, n: nat, m: nat)
    requires Room(t, f, root, limit, m) && n <= m && 2 <= tail < |f| && !IsBlank(t, f[tail])
    ensures Room(t, Grow(t, f, root, tail, n).fat, root, limit, m - n)
    decreases n
  {
    if n > 0 {
      GrowOne(t, f, root, limit, m, tail);
      var b := FirstBlank(t, f, root);
      GrowLeavesRoom(t, Linked(t, f, tail, b), root, limit, b, n - 1, m - 1);
      GrowUnfolds(t, f, root, tail, n);
    }
  }

  // ------------------------------------------------------------ families

  // The chains the files and directories own: each whole, no two sharing a cluster.
  ghost predicate Family(t: FatType, f: seq<nat>, chains: seq<seq<nat>>) {
    && (forall k | 0 <= k < |chains| :: Chain(t, f, chains[k]))
    && (forall k, m | 0 <= k < m < |chains| :: Disjoint(chains[k], chains[m]))
  }

  function Owned(chains: seq<seq<nat>>): nat {
    if chains == [] then 0 else |chains[0]| + Owned(chains[1..])
  }

  lemma {:induction false} OwnedGrows(chains: seq<seq<nat>>, k: nat, more: seq<nat>)
    requires k < |chains|
    ensures Owned(chains[k := chains[k] + more]) == Owned(chains) + |more|
  {
    var after := chains[k := chains[k] + more];
    if k == 0 {
      assert after[1..] == chains[1..];
    } else {
      assert after[1..] == chains[1..][k - 1 := chains[1..][k - 1] + more];
      OwnedGrows(chains[1..], k - 1, more);
    }
  }

  // A chain whose entries did not change is still one.
  lemma ChainFramed(t: FatType, f: seq<nat>, h: seq<nat>, cs: seq<nat>)
    requires Chain(t, f, cs) && |h| == |f| && forall i | 0 <= i < |cs| :: h[cs[i]] == f[cs[i]]
    ensures Chain(t, h, cs)
  {
  }

  lemma ChainExtended(t: FatType, f: seq<nat>, h: seq<nat>, cs: seq<nat>, added: seq<nat>)
    requires Chain(t, f, cs) && |h| == |f| && forall i | 0 <= i < |cs| - 1 :: h[cs[i]] == f[cs[i]]
    requires Chain(t, h, [cs[|cs| - 1]] + added)
    ensures Chain(t, h, cs + added)
  {
    hide Link;
    var es, ds := cs + added, [cs[|cs| - 1]] + added;
    var n := |cs| - 1;
    assert es == cs[..n] + ds;
    forall i | 0 <= i < |es| - 1
      ensures Link(t, h[es[i]]) == es[i + 1]
    {
      if i < n {
        assert es[i] == cs[i] && es[i + 1] == cs[i + 1];
      } else {
        assert es[i] == ds[i - n] && es[i + 1] == ds[i - n + 1];
      }
    }
    assert es[|es| - 1] == ds[|ds| - 1];
  }

  // Growing chain k appends to it alone: the family stays whole and disjoint,
  // and free plus owned clusters are conserved.
  lemma FamilyGrows(t: FatType, f: seq<nat>, chains: seq<seq<nat>>, k: nat, root: nat, limit: nat, n: nat)
    requires Family(t, f, chains) && k < |chains| && Room(t, f, root, limit, n) && |f| < LAST_CLUSTER
    ensures var cs := chains[k];
            var r := Grow(t, f, root, cs[|cs| - 1], n);
            var after := chains[k := cs + r.added];
            && r.ok && |r.added| == n && Family(t, r.fat, after)
            && Blanks(t, r.fat, 0, |f|) + Owned(after) == Blanks(t, f, 0, |f|) + Owned(chains)
  {
    var cs := chains[k];
    var tail := cs[|cs| - 1];
    var r := Grow(t, f, root, tail, n);
    GrowAppends(t, f, root, limit, tail, n);
    OwnedGrows(chains, k, r.added);
    ChainIsAcyclic(t, f, cs);
    forall m, i | 0 <= m < |chains| && 0 <= i < |chains[m]|
      ensures chains[m][i] !in r.added
    {
      ChainIsUsed(t, f, chains[m], i);
    }
    hide Grow, Blanks, Room, IsBlank, Owned, Link;
    FamilyExtended(t, f, chains, k, r.fat, r.added, tail);
  }

  lemma FamilyExtended(t: FatType, f: seq<nat>, chains: seq<seq<nat>>, k: nat, h: seq<nat>, added: seq<nat>, tail: nat)
    requires Family(t, f, chains) && k < |chains| && |h| == |f| && NoRepeats(chains[k])
    requires |chains[k]| > 0 && tail == chains[k][|chains[k]| - 1] && Chain(t, h, [tail] + added)
    requires forall c | 0 <= c < |f| && c != tail && c !in added :: h[c] == f[c]
    requires forall m, i | 0 <= m < |chains| && 0 <= i < |chains[m]| :: chains[m][i] !in added
    ensures Family(t, h, chains[k := chains[k] + added])
  {
    var cs, after := chains[k], chains[k := chains[k] + added];
    forall m | 0 <= m < |chains|
      ensures Chain(t, h, after[m])
    {
      if m == k {
        ChainExtended(t, f, h, cs, added);
      } else {
        assert Disjoint(chains[m], cs) by { assert if m < k then Disjoint(chains[m], cs) else Disjoint(cs, chains[m]); }
        ChainFramed(t, f, h, chains[m]);
      }
    }
    forall m, l | 0 <= m < l < |chains|
      ensures Disjoint(after[m], after[l])
    {
      assert Disjoint(chains[m], chains[l]);
    }
  }

  // The chain before has grown to after by n clusters.
  predicate GrewBy(t: FatType, f: seq<nat>, h: seq<nat>, root: nat, before: seq<nat>, after: seq<nat>, n: nat) {
    && |before| > 0 && before[|before| - 1] < |f| && before <= after
    && Grow(t, f, root, before[|before| - 1], n) == Grown(true, h, after[|before|..])
  }

  ghost predicate Extended(t: FatType, f: seq<nat>, h: seq<nat>, root: nat, before: seq<nat>, after: seq<nat>) {
    exists n: nat :: GrewBy(t, f, h, root, before, after, n)
  }

  lemma NotExtended(t: FatType, f: seq<nat>, root: nat, chain: seq<nat>)
    requires |chain| > 0 && chain[|chain| - 1] < |f|
    ensures Extended(t, f, f, root, chain, chain)
  {
    assert chain[|chain|..] == [];
    assert GrewBy(t, f, f, root, chain, chain, 0);
  }

  lemma ExtendedOnce(t: FatType, f: seq<nat>, root: nat, chain: seq<nat>, n: nat)
    requires |chain| > 0 && chain[|chain| - 1] < |f| && Grow(t, f, root, chain[|chain| - 1], n).ok
    ensures var r := Grow(t, f, root, chain[|chain| - 1], n);
            Extended(t, f, r.fat, root, chain, chain + r.added)
  {
    var r := Grow(t, f, root, chain[|chain| - 1], n);
    assert (chain + r.added)[|chain|..] == r.added;
    assert GrewBy(t, f, r.fat, root, chain, chain + r.added, n);
  }

  lemma ExtendedTwice(t: FatType, f: seq<nat>, h: seq<nat>, e: seq<nat>, root: nat, a: seq<nat>, b: seq<nat>, c: seq<nat>)
    requires Extended(t, f, h, root, a, b) && Extended(t, h, e, root, b, c)
    ensures Extended(t, f, e, root, a, c)
  {
    var n: nat :| GrewBy(t, f, h, root, a, b, n);
    var m: nat :| GrewBy(t, h, e, root, b, c, m);
    hide Grow;
    GrowTwice(t, f, root, a[|a| - 1], n, m);
    TwoTails(a, b, c);
    assert GrewBy(t, f, e, root, a, c, n + m);
  }

  lemma TwoTails(a: seq<nat>, b: seq<nat>, c: seq<nat>)
    requires 0 < |a| && a <= b <= c
    ensures ([a[|a| - 1]] + b[|a|..])[|b| - |a|] == b[|b| - 1]
    ensures b[|a|..] + c[|b|..] == c[|a|..] && |b[|a|..]| == |b| - |a|
  {
  }

  // What a file operation does to the family of chains when there is room.
  lemma FamilyAfter(t: FatType, f: seq<nat>, h: seq<nat>, root: nat, limit: nat, chains: seq<seq<nat>>, k: nat,
                    after: seq<nat>, m: nat)
    requires Family(t, f, chains) && k < |chains| && |f| < LAST_CLUSTER && Room(t, f, root, limit, m)
    requires Extended(t, f, h, root, chains[k], after) && |after| <= |chains[k]| + m
    ensures |h| == |f| && Family(t, h, chains[k := after])
    ensures Blanks(t, h, 0, |f|) + Owned(chains[k := after]) == Blanks(t, f, 0, |f|) + Owned(chains)
  {
    var n: nat :| GrewBy(t, f, h, root, chains[k], after, n);
    FamilyGrows(t, f, chains, k, root, limit, n);
    assert after == chains[k] + after[|chains[k]|..];
  }

  // ------------------------------------------------------------ release

  // fatfs_free_cluster_chain on the table: each visited entry is cleared after
  // its link is read. Every link lies in the table, cycles allowed.
  predicate InRange(t: FatType, f: seq<nat>) {
    forall c | 0 <= c < |f| :: Link(t, f[c]) == LAST_CLUSTER || Link(t, f[c]) < |f|
  }

  predicate Stops(c: nat) {
    c == LAST_CLUSTER || c == 0
  }

  // Entries that link somewhere or end a chain: what is left to clear.
  function Used(t: FatType, f: seq<nat>): nat {
    if f == [] then 0 else Used(t, f[..|f| - 1]) + (if Link(t, f[|f| - 1]) != 0 then 1 else 0)
  }

  lemma {:induction false} UsedFalls(t: FatType, f: seq<nat>, c: nat)
    requires c < |f|
    ensures Used(t, f[c := 0]) == Used(t, f) - (if Link(t, f[c]) != 0 then 1 else 0)
  {
    var n := |f| - 1;
    LinkOfCut(t, 0);
    if c == n {
      assert f[c := 0][..n] == f[..n];
    } else {
      assert f[c := 0][..n] == f[..n][c := 0];
      UsedFalls(t, f[..n], c);
    }
  }

  // Clusters left before the loop stops: it runs on from c at most this often.
  function Left(t: FatType, f: seq<nat>, c: nat): nat {
    Used(t, f) + (if Stops(c) then 0 else 1)
  }

  lemma LeftFalls(t: FatType, f: seq<nat>, c: nat)
    requires !Stops(c) && c < |f|
    ensures Left(t, f[c := 0], Link(t, f[c])) < Left(t, f, c)
  {
    UsedFalls(t, f, c);
  }

  lemma InRangeKept(t: FatType, f: seq<nat>, c: nat)
    requires InRange(t, f) && c < |f|
    ensures InRange(t, f[c := 0])
  {
    LinkOfCut(t, 0);
  }

  function Freed(t: FatType, f: seq<nat>, c: nat): (h: seq<nat>)
    requires InRange(t, f) && (Stops(c) || c < |f|)
    ensures |h| == |f|
    decreases Left(t, f, c)
  {
    if Stops(c) then f
    else
      LeftFalls(t, f, c);
      InRangeKept(t, f, c);
      Freed(t, f[c := 0], Link(t, f[c]))
  }

  // p is a path of links from its first cluster.
  predicate Path(t: FatType, f: seq<nat>, p: seq<nat>) {
    && |p| > 0 && (forall i | 0 <= i < |p| :: p[i] < |f| && !Stops(p[i]))
    && (forall i | 0 <= i < |p| - 1 :: p[i + 1] == Link(t, f[p[i]]))
  }

  ghost predicate Reaches(t: FatType, f: seq<nat>, c: nat, x: nat) {
    exists p :: Path(t, f, p) && p[0] == c && p[|p| - 1] == x
  }

  lemma {:induction false} FreedOnlyZeroes(t: FatType, f: seq<nat>, c: nat, x: nat)
    requires InRange(t, f) && (Stops(c) || c < |f|) && x < |f|
    ensures Freed(t, f, c)[x] == 0 || Freed(t, f, c)[x] == f[x]
    decreases Left(t, f, c)
  {
    if !Stops(c) {
      LeftFalls(t, f, c);
      InRangeKept(t, f, c);
      FreedOnlyZeroes(t, f[c := 0], Link(t, f[c]), x);
    }
  }

  // Every cluster on the path is cleared.
  lemma {:induction false} PathIsFreed(t: FatType, f: seq<nat>, p: seq<nat>)
    requires InRange(t, f) && Path(t, f, p)
    ensures Freed(t, f, p[0])[p[|p| - 1]] == 0
    decreases |p|
  {
    var c, x := p[0], p[|p| - 1];
    LeftFalls(t, f, c);
    InRangeKept(t, f, c);
    if x == c {
      FreedOnlyZeroes(t, f[c := 0], Link(t, f[c]), x);
    } else {
      var k := LastVisit(p, c);
      var q := p[k + 1..];
      assert q[0] == Link(t, f[c]) by { assert p[k + 1] == Link(t, f[p[k]]); }
      assert Path(t, f[c := 0], q) by {
        forall i | 0 <= i < |q| - 1
          ensures q[i + 1] == Link(t, f[c := 0][q[i]])
        {
          assert q[i] == p[k + 1 + i] && q[i + 1] == p[k + 2 + i] == Link(t, f[p[k + 1 + i]]);
        }
      }
      PathIsFreed(t, f[c := 0], q);
    }
  }

  lemma LastVisit(p: seq<nat>, c: nat) returns (k: nat)
    requires |p| > 0 && p[0] == c && p[|p| - 1] != c
    ensures k < |p| - 1 && p[k] == c && forall i | k < i < |p| :: p[i] != c
  {
    k := |p| - 1;
    while p[k] != c
      decreases k
      invariant k < |p| && forall i | k < i < |p| :: p[i] != c
    {
      k := k - 1;
    }
  }

  // A path cannot go on from a cleared cluster.
  lemma AvoidsCleared(t: FatType, h: seq<nat>, q: seq<nat>, c: nat)
    requires Path(t, h, q) && c < |h| && h[c] == 0 && q[|q| - 1] != c
    ensures c !in q
  {
    LinkOfCut(t, 0);
    forall i | 0 <= i < |q|
      ensures q[i] != c
    {
      if i < |q| - 1 {
        assert q[i + 1] == Link(t, h[q[i]]) && !Stops(q[i + 1]);
      }
    }
  }

  // Every cleared cluster was on a path.
  lemma {:induction false} FreedWasReached(t: FatType, f: seq<nat>, c: nat, x: nat) returns (p: seq<nat>)
    requires InRange(t, f) && (Stops(c) || c < |f|) && x < |f| && Freed(t, f, c)[x] != f[x]
    ensures Path(t, f, p) && p[0] == c && p[|p| - 1] == x
    decreases Left(t, f, c)
  {
    if c == x {
      p := [c];
    } else {
      LeftFalls(t, f, c);
      InRangeKept(t, f, c);
      LinkOfCut(t, 0);
      var h := f[c := 0];
      var q := FreedWasReached(t, h, Link(t, f[c]), x);
      AvoidsCleared(t, h, q, c);
      p := [c] + q;
      forall i | 0 <= i < |p| - 1
        ensures p[i + 1] == Link(t, f[p[i]])
      {
        if i > 0 { assert q[i] == Link(t, h[q[i - 1]]); }
      }
    }
  }

  // The release clears exactly the clusters reachable from the start.
  lemma FreesExactlyReachable(t: FatType, f: seq<nat>, c: nat, x: nat)
    requires InRange(t, f) && (Stops(c) || c < |f|) && x < |f|
    ensures Freed(t, f, c)[x] == if Reaches(t, f, c, x) then 0 else f[x]
  {
    if Reaches(t, f, c, x) {
      var p :| Path(t, f, p) && p[0] == c && p[|p| - 1] == x;
      PathIsFreed(t, f, p);
    } else if Freed(t, f, c)[x] != f[x] {
      var p := FreedWasReached(t, f, c, x);
      assert false;
    }
  }

  // The zero words gained are the distinct clusters whose entry was not
  // already zero.
  ghost function Cleared(f: seq<nat>, h: seq<nat>): set<nat>
    requires |f| == |h|
  {
    set c: nat | c < |f| && h[c] != f[c]
  }

  lemma {:induction false} ZerosRise(f: seq<nat>, h: seq<nat>)
    requires |f| == |h| && forall c | 0 <= c < |f| :: h[c] == f[c] || (h[c] == 0 && f[c] != 0)
    ensures Zeros(h) == Zeros(f) + |Cleared(f, h)|
  {
    if f != [] {
      var n := |f| - 1;
      ZerosRise(f[..n], h[..n]);
      var rest := Cleared(f[..n], h[..n]);
      assert Cleared(f, h) == rest + (if h[n] != f[n] then {n} else {});
    } else {
      assert Cleared(f, h) == {};
    }
  }

  // The count of free clusters rises by the number of distinct clusters
  // released, that is reached while holding a nonzero word.
  lemma FreeCountRises(t: FatType, f: seq<nat>, c: nat)
    requires InRange(t, f) && (Stops(c) || c < |f|)
    ensures var released := set x: nat | x < |f| && Reaches(t, f, c, x) && f[x] != 0;
            Zeros(Freed(t, f, c)) == Zeros(f) + |released|
  {
    var h, released := Freed(t, f, c), set x: nat | x < |f| && Reaches(t, f, c, x) && f[x] != 0;
    forall x: nat | x < |f|
      ensures h[x] == if Reaches(t, f, c, x) then 0 else f[x]
    {
      FreesExactlyReachable(t, f, c, x);
    }
    ZerosRise(f, h);
    assert Cleared(f, h) == released;
  }

  // Releasing a whole chain clears its clusters and leaves every other chain
  // of the family as it was.
  lemma FamilyShrinks(t: FatType, f: seq<nat>, chains: seq<seq<nat>>, k: nat)
    requires Family(t, f, chains) && k < |chains| && InRange(t, f) && |f| < LAST_CLUSTER
    ensures var cs := chains[k];
            var h := Freed(t, f, cs[0]);
            && (forall i | 0 <= i < |cs| :: h[cs[i]] == 0)
            && Family(t, h, chains[..k] + chains[k + 1..])
            && Zeros(h) == Zeros(f) + |cs|
  {
    var cs := chains[k];
    var h := Freed(t, f, cs[0]);
    forall x: nat | x < |f|
      ensures h[x] == if x in cs then 0 else f[x]
    {
      FreesExactlyReachable(t, f, cs[0], x);
      ChainReaches(t, f, cs, x);
    }
    ChainZeros(t, f, h, cs);
    FamilyWithout(t, f, chains, k, h);
  }

  lemma FamilyWithout(t: FatType, f: seq<nat>, chains: seq<seq<nat>>, k: nat, h: seq<nat>)
    requires Family(t, f, chains) && k < |chains| && |h| == |f|
    requires forall x: nat | x < |f| :: h[x] == if x in chains[k] then 0 else f[x]
    ensures Family(t, h, chains[..k] + chains[k + 1..])
  {
    hide Link, Chain;
    var cs, rest := chains[k], chains[..k] + chains[k + 1..];
    forall m | 0 <= m < |rest|
      ensures Chain(t, h, rest[m])
    {
      OtherChain(t, f, chains, k, h, if m < k then m else m + 1);
    }
    forall m, l | 0 <= m < l < |rest|
      ensures Disjoint(rest[m], rest[l])
    {
      var m', l' := if m < k then m else m + 1, if l < k then l else l + 1;
      assert Disjoint(chains[m'], chains[l']);
    }
  }

  lemma OtherChain(t: FatType, f: seq<nat>, chains: seq<seq<nat>>, k: nat, h: seq<nat>, m: nat)
    requires Family(t, f, chains) && k < |chains| && |h| == |f| && m < |chains| && m != k
    requires forall x: nat | x < |f| :: h[x] == if x in chains[k] then 0 else f[x]
    ensures Chain(t, h, chains[m])
  {
    hide Link;
    var cs, ds := chains[k], chains[m];
    assert Disjoint(ds, cs) by { assert if m < k then Disjoint(ds, cs) else Disjoint(cs, ds); }
    ChainFramed(t, f, h, ds);
  }

  lemma ChainReaches(t: FatType, f: seq<nat>, cs: seq<nat>, x: nat)
    requires Chain(t, f, cs) && |f| < LAST_CLUSTER
    ensures Reaches(t, f, cs[0], x) <==> x in cs
  {
    if x in cs {
      var i :| 0 <= i < |cs| && cs[i] == x;
      var p := cs[..i + 1];
      assert Path(t, f, p) && p[0] == cs[0] && p[|p| - 1] == x;
    }
    if Reaches(t, f, cs[0], x) {
      var p :| Path(t, f, p) && p[0] == cs[0] && p[|p| - 1] == x;
      PathIsPrefix(t, f, cs, p, |p| - 1);
    }
  }

  lemma {:induction false} PathIsPrefix(t: FatType, f: seq<nat>, cs: seq<nat>, p: seq<nat>, i: nat)
    requires Chain(t, f, cs) && Path(t, f, p) && p[0] == cs[0] && i < |p|
    ensures i < |cs| && p[i] == cs[i]
  {
    if i > 0 {
      PathIsPrefix(t, f, cs, p, i - 1);
      assert p[i - 1 + 1] == Link(t, f[p[i - 1]]) && !Stops(p[i]);
      assert i < |cs| ==> Link(t, f[cs[i - 1]]) == cs[i - 1 + 1];
    }
  }

  lemma ChainZeros(t: FatType, f: seq<nat>, h: seq<nat>, cs: seq<nat>)
    requires Chain(t, f, cs) && |f| == |h| && |f| < LAST_CLUSTER
    requires forall x: nat | x < |f| :: h[x] == if x in cs then 0 else f[x]
    ensures Zeros(h) == Zeros(f) + |cs|
  {
    LinkOfCut(t, 0);
    forall i | 0 <= i < |cs|
      ensures f[cs[i]] != 0
    {
      if i < |cs| - 1 {
        assert Link(t, f[cs[i]]) == cs[i + 1];
      }
      assert Link(t, f[cs[i]]) != 0;
    }
    ZerosRise(f, h);
    assert Cleared(f, h) == Members(cs);
    ChainIsAcyclic(t, f, cs);
    SetOfDistinct(cs);
  }

  ghost function Members(cs: seq<nat>): set<nat> {
    set x | x in cs
  }

  lemma {:induction false} SetOfDistinct(cs: seq<nat>)
    requires NoRepeats(cs)
    ensures |Members(cs)| == |cs|
  {
    if cs == [] {
      assert Members(cs) == {};
    } else {
      var n := |cs| - 1;
      SetOfDistinct(cs[..n]);
      assert Members(cs) == Members(cs[..n]) + {cs[n]};
      assert cs[n] !in cs[..n];
    }
  }

  ghost function Numbers(n: nat): (s: set<nat>)
    ensures |s| == n
    ensures forall x: nat :: x in s <==> x < n
  {
    if n == 0 then {} else Numbers(n - 1) + {n - 1}
  }

  // Distinct clusters are no more than there are.
  lemma DistinctAreFew(cs: seq<nat>, n: nat)
    requires NoRepeats(cs) && forall i | 0 <= i < |cs| :: cs[i] < n
    ensures |cs| <= n
  {
    SetOfDistinct(cs);
    SubsetIsSmaller(Members(cs), Numbers(n));
  }

}
