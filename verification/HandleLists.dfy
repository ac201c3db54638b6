// The intrusive doubly linked lists of fat_list.h, and the open and free lists
// of file handles built on them (fat_filelib.c:71-115, 324-543).
module HandleLists {
  import opened Bytes
  import CompareNames

  // struct fat_node inside FL_FILE, with the names that identify a handle.
  class Handle {
    var previous: Handle?
    var next: Handle?
    var path: seq<byte>
    var filename: seq<byte>

    constructor ()
      ensures previous == null && next == null && path == [] && filename == []
    {
      previous, next, path, filename := null, null, [], [];
    }
  }

  ghost function At(l: seq<Handle>, i: int): Handle? {
    if 0 <= i < |l| then l[i] else null
  }

  ghost predicate Distinct(l: seq<Handle>) {
    forall i, j | 0 <= i < j < |l| :: l[i] != l[j]
  }

  // Each node of l points to the next in l, and to the one before.
  ghost predicate Forward(l: seq<Handle>)
    reads l`next
  {
    forall i | 0 <= i < |l| :: l[i].next == At(l, i + 1)
  }

  ghost predicate Backward(l: seq<Handle>)
    reads l`previous
  {
    forall i | 0 <= i < |l| :: l[i].previous == At(l, i - 1)
  }

  lemma Apart(l: seq<Handle>, i: nat, j: nat)
    requires Distinct(l) && i < |l| && j < |l| && i != j
    ensures l[i] != l[j]
  {
  }

  lemma Neighbours(l: seq<Handle>, k: nat)
    requires Forward(l) && Backward(l) && k < |l|
    ensures l[k].previous == At(l, k - 1) && l[k].next == At(l, k + 1) && l[k] in l
    ensures if k > 0 then l[k - 1] in l && At(l, k - 1) == l[k - 1] else At(l, k - 1) == null
    ensures if k + 1 < |l| then l[k + 1] in l && At(l, k + 1) == l[k + 1] else At(l, k + 1) == null
    ensures At(l, k) == l[k]
  {
  }

  // The neighbours of node j of l when a gap before place k leads elsewhere.
  ghost function After(l: seq<Handle>, k: int, j: int, there: Handle?): Handle? {
    if j == k then there else At(l, j + 1)
  }

  ghost function Before(l: seq<Handle>, k: int, j: int, there: Handle?): Handle? {
    if j == k then there else At(l, j - 1)
  }

  // Following next from the k-th node of l leads there, from others on in l.
  ghost predicate ForwardBut(l: seq<Handle>, k: int, there: Handle?)
    reads l`next
  {
    forall j | 0 <= j < |l| :: l[j].next == After(l, k, j, there)
  }

  ghost predicate BackwardBut(l: seq<Handle>, k: int, there: Handle?)
    reads l`previous
  {
    forall j | 0 <= j < |l| :: l[j].previous == Before(l, k, j, there)
  }

  // Set one pointer of the k-th node of the list.
  method SetNext(node: Handle, there: Handle?, ghost l: seq<Handle>, ghost k: nat)
    requires Distinct(l) && Forward(l) && k < |l| && l[k] == node
    modifies node`next
    ensures ForwardBut(l, k, there)
  {
    node.next := there;
    forall j | 0 <= j < |l|
      ensures l[j].next == After(l, k, j, there)
    {
      if j != k { Apart(l, j, k); }
    }
  }

  method SetPrevious(node: Handle, there: Handle?, ghost l: seq<Handle>, ghost k: nat)
    requires Distinct(l) && Backward(l) && k < |l| && l[k] == node
    modifies node`previous
    ensures BackwardBut(l, k, there)
  {
    node.previous := there;
    forall j | 0 <= j < |l|
      ensures l[j].previous == Before(l, k, j, there)
    {
      if j != k { Apart(l, j, k); }
    }
  }

  lemma NoGap(l: seq<Handle>, there: Handle?)
    ensures Forward(l) ==> ForwardBut(l, -1, there)
    ensures Backward(l) ==> BackwardBut(l, |l|, there)
  {
  }

  function Cut(l: seq<Handle>, k: nat): (r: seq<Handle>)
    requires k < |l|
    ensures |r| == |l| - 1
    ensures forall i | 0 <= i < k :: r[i] == l[i]
    ensures forall i | k <= i < |r| :: r[i] == l[i + 1]
  {
    l[..k] + l[k + 1..]
  }

  lemma CutEnds(l: seq<Handle>, k: nat)
    requires k < |l|
    ensures At(Cut(l, k), 0) == if k == 0 then At(l, 1) else At(l, 0)
    ensures At(Cut(l, k), |Cut(l, k)| - 1) == if k + 1 == |l| then At(l, k - 1) else At(l, |l| - 1)
  {
  }

  lemma InsertedEnds(l: seq<Handle>, k: nat, n: Handle)
    requires k <= |l|
    ensures At(Inserted(l, k, n), 0) == if k == 0 then n else At(l, 0)
    ensures At(Inserted(l, k, n), |l|) == if k == |l| then n else At(l, |l| - 1)
  {
  }

  lemma CutDistinct(l: seq<Handle>, k: nat)
    requires Distinct(l) && k < |l|
    ensures Distinct(Cut(l, k)) && l[k] !in Cut(l, k)
  {
    var rest := Cut(l, k);
    forall i, j | 0 <= i < j < |rest|
      ensures rest[i] != rest[j]
    {
      Apart(l, if i < k then i else i + 1, if j < k then j else j + 1);
    }
    forall i | 0 <= i < |rest|
      ensures rest[i] != l[k]
    {
      Apart(l, if i < k then i else i + 1, k);
    }
  }

  lemma CutIsChained(l: seq<Handle>, k: nat)
    requires k < |l| && ForwardBut(l, k - 1, At(l, k + 1)) && BackwardBut(l, k + 1, At(l, k - 1))
    ensures Forward(Cut(l, k)) && Backward(Cut(l, k))
  {
    var rest := Cut(l, k);
    forall i | 0 <= i < |rest|
      ensures rest[i].previous == At(rest, i - 1) && rest[i].next == At(rest, i + 1)
    {
      var j := if i < k then i else i + 1;
      assert l[j].previous == Before(l, k + 1, j, At(l, k - 1));
      assert l[j].next == After(l, k - 1, j, At(l, k + 1));
    }
  }

  function Inserted(l: seq<Handle>, k: nat, n: Handle): (r: seq<Handle>)
    requires k <= |l|
    ensures |r| == |l| + 1 && r[k] == n
    ensures forall i | 0 <= i < k :: r[i] == l[i]
    ensures forall i | k < i < |r| :: r[i] == l[i - 1]
  {
    l[..k] + [n] + l[k..]
  }

  lemma InsertedDistinct(l: seq<Handle>, k: nat, n: Handle)
    requires Distinct(l) && n !in l && k <= |l|
    ensures Distinct(Inserted(l, k, n))
  {
    var all := Inserted(l, k, n);
    forall i, j | 0 <= i < j < |all|
      ensures all[i] != all[j]
    {
      if i != k && j != k {
        Apart(l, if i < k then i else i - 1, if j < k then j else j - 1);
      }
    }
  }

  lemma InsertedIsChained(l: seq<Handle>, k: nat, n: Handle)
    requires k <= |l| && ForwardBut(l, k - 1, n) && BackwardBut(l, k, n)
    requires n.previous == At(l, k - 1) && n.next == At(l, k)
    ensures Forward(Inserted(l, k, n)) && Backward(Inserted(l, k, n))
  {
    var all := Inserted(l, k, n);
    forall i | 0 <= i < |all|
      ensures all[i].previous == At(all, i - 1) && all[i].next == At(all, i + 1)
    {
      if i != k {
        var j := if i < k then i else i - 1;
        assert l[j].previous == Before(l, k, j, n);
        assert l[j].next == After(l, k - 1, j, n);
      }
    }
  }

  class FatList {
    var head: Handle?
    var tail: Handle?
    ghost var nodes: seq<Handle>

    ghost predicate Valid()
      reads this, nodes`previous, nodes`next
    {
      && Distinct(nodes) && Forward(nodes) && Backward(nodes)
      && head == At(nodes, 0) && tail == At(nodes, |nodes| - 1)
    }

    // fat_list_init.
    constructor ()
      ensures Valid() && nodes == []
    {
      head, tail, nodes := null, null, [];
    }

    // fat_list_remove.
    method Remove(node: Handle, ghost k: nat)
      requires Valid() && k < |nodes| && nodes[k] == node
      modifies this, nodes`previous, nodes`next
      ensures Valid() && nodes == Cut(old(nodes), k)
    {
      hide At, Cut, Distinct, Forward, Backward, ForwardBut, BackwardBut;
      Neighbours(nodes, k);
      if k > 0 { Apart(nodes, k - 1, k); }
      CutEnds(nodes, k);
      if node.previous == null {
        head := node.next;
        NoGap(nodes, node.next);
      } else {
        SetNext(node.previous, node.next, nodes, k - 1);
      }
      if node.next == null {
        tail := node.previous;
        NoGap(nodes, node.previous);
      } else {
        SetPrevious(node.next, node.previous, nodes, k + 1);
      }
      CutIsChained(nodes, k);
      CutDistinct(nodes, k);
      nodes := Cut(nodes, k);
    }

    // fat_list_insert_after.
    method InsertAfter(node: Handle, newNode: Handle, ghost k: nat)
      requires Valid() && k < |nodes| && nodes[k] == node && newNode !in nodes
      modifies this, nodes`previous, nodes`next, newNode`previous, newNode`next
      ensures Valid() && nodes == Inserted(old(nodes), k + 1, newNode)
    {
      hide At, Inserted, Distinct, Forward, Backward, ForwardBut, BackwardBut;
      Neighbours(nodes, k);
      InsertedEnds(nodes, k + 1, newNode);
      newNode.previous := node;
      newNode.next := node.next;
      if node.next == null {
        tail := newNode;
        NoGap(nodes, newNode);
      } else {
        SetPrevious(node.next, newNode, nodes, k + 1);
      }
      SetNext(node, newNode, nodes, k);
      InsertedIsChained(nodes, k + 1, newNode);
      InsertedDistinct(nodes, k + 1, newNode);
      nodes := Inserted(nodes, k + 1, newNode);
    }

    // fat_list_insert_before.
    method InsertBefore(node: Handle, newNode: Handle, ghost k: nat)
      requires Valid() && k < |nodes| && nodes[k] == node && newNode !in nodes
      modifies this, nodes`previous, nodes`next, newNode`previous, newNode`next
      ensures Valid() && nodes == Inserted(old(nodes), k, newNode)
    {
      hide At, Inserted, Distinct, Forward, Backward, ForwardBut, BackwardBut;
      Neighbours(nodes, k);
      InsertedEnds(nodes, k, newNode);
      newNode.previous := node.previous;
      newNode.next := node;
      if node.previous == null {
        head := newNode;
        NoGap(nodes, newNode);
      } else {
        SetNext(node.previous, newNode, nodes, k - 1);
      }
      SetPrevious(node, newNode, nodes, k);
      InsertedIsChained(nodes, k, newNode);
      InsertedDistinct(nodes, k, newNode);
      nodes := Inserted(nodes, k, newNode);
    }

    // fat_list_insert_first.
    method InsertFirst(node: Handle)
      requires Valid() && node !in nodes
      modifies this, nodes`previous, nodes`next, node`previous, node`next
      ensures Valid() && nodes == Inserted(old(nodes), 0, node)
    {
      if head == null {
        head := node;
        tail := node;
        node.previous := null;
        node.next := null;
        nodes := [node];
      } else {
        InsertBefore(head, node, 0);
      }
    }

    // fat_list_insert_last.
    method InsertLast(node: Handle)
      requires Valid() && node !in nodes
      modifies this, nodes`previous, nodes`next, node`previous, node`next
      ensures Valid() && nodes == Inserted(old(nodes), |old(nodes)|, node)
    {
      if tail == null {
        InsertFirst(node);
      } else {
        InsertAfter(tail, node, |nodes| - 1);
      }
    }

    // fat_list_pop_head.
    method PopHead() returns (node: Handle?)
      requires Valid()
      modifies this, nodes`previous, nodes`next
      ensures Valid() && node == At(old(nodes), 0)
      ensures nodes == if old(nodes) == [] then [] else Cut(old(nodes), 0)
    {
      node := head;
      if node != null {
        Remove(node, 0);
      }
    }
  }

  // Path and name of two handles match as _check_file_open compares them.
  ghost predicate Matches(a: Handle, b: Handle)
    reads a`path, a`filename, b`path, b`filename
  {
    && CompareNames.NormalForm(a.path) == CompareNames.NormalForm(b.path)
    && CompareNames.NormalForm(a.filename) == CompareNames.NormalForm(b.filename)
  }

  ghost predicate Named(l: seq<Handle>)
    reads l`path, l`filename
  {
    forall h | h in l :: CompareNames.Text(h.path) && CompareNames.Text(h.filename)
  }

  // No two handles of l match.
  ghost predicate Unmatched(l: seq<Handle>)
    reads l`path, l`filename
  {
    forall i, j | 0 <= i < j < |l| :: !Matches(l[i], l[j])
  }

  // Of two open handles whose paths are the same letters up to case, the names
  // are not.
  lemma NeverTwice(l: seq<Handle>, i: nat, j: nat)
    requires Unmatched(l) && i < j < |l| && CompareNames.SameLetters(l[i].path, l[j].path)
    ensures !CompareNames.SameLetters(l[i].filename, l[j].filename)
  {
    CompareNames.CaseIsAside(l[i].path, l[j].path);
    CompareNames.CaseIsAside(l[i].filename, l[j].filename);
    hide CompareNames.NormalForm, CompareNames.SameLetters;
  }

  // Every handle of the pool is on exactly one of the lists.
  ghost predicate Partition(pool: seq<Handle>, a: seq<Handle>, b: seq<Handle>) {
    && Distinct(pool) && |a| + |b| == |pool| && (forall h | h in a :: h !in b)
    && (forall h | h in a :: h in pool) && (forall h | h in b :: h in pool)
    && (forall h | h in pool :: h in a || h in b)
  }

  // _files with the open and free lists of fat_filelib.c.
  class FileLib {
    const files: seq<Handle>
    const openList: FatList
    const freeList: FatList

    ghost predicate Lists()
      reads openList, freeList, openList.nodes, freeList.nodes
    {
      && openList != freeList && Partition(files, openList.nodes, freeList.nodes)
      && openList.Valid() && freeList.Valid()
    }

    // The lists partition the pool, and no two open handles match.
    ghost predicate Valid()
      reads openList, freeList, openList.nodes, freeList.nodes
    {
      Lists() && Named(openList.nodes) && Unmatched(openList.nodes)
    }

    // fl_init.
    constructor (count: nat)
      ensures Valid() && |files| == count && openList.nodes == []
      ensures fresh(openList) && fresh(freeList) && forall h | h in files :: fresh(h)
    {
      var pool := MakePool(count);
      var freeNodes := ListOf(pool);
      var openNodes := new FatList();
      files, openList, freeList := pool, openNodes, freeNodes;
    }

    // _allocate_file.
    method AllocateFile() returns (file: Handle?)
      requires Lists()
      modifies openList, freeList, files`previous, files`next
      ensures Lists() && (file == null <==> old(freeList.nodes) == [])
      ensures file == null ==> openList.nodes == old(openList.nodes)
      ensures file != null ==> file in files && file !in old(openList.nodes)
                               && openList.nodes == Inserted(old(openList.nodes), |old(openList.nodes)|, file)
    {
      hide FatList.Valid, Partition, Forward, Backward, Distinct, Cut, Inserted;
      InPool();
      ghost var a, b := openList.nodes, freeList.nodes;
      file := freeList.PopHead();
      if file != null {
        HeadMoves(files, a, b);
        openList.InsertLast(file);
      }
    }

    lemma InPool()
      requires Lists()
      ensures forall i | 0 <= i < |openList.nodes| :: openList.nodes[i] in files
      ensures forall i | 0 <= i < |freeList.nodes| :: freeList.nodes[i] in files
      ensures freeList.nodes != [] ==> freeList.nodes[0] in files && freeList.nodes[0] !in openList.nodes
      ensures forall i | 0 <= i < |openList.nodes| :: openList.nodes[i] !in freeList.nodes
      ensures Distinct(openList.nodes) && Distinct(freeList.nodes)
    {
    }

    // _free_file, for the k-th open handle.
    method FreeFile(file: Handle, ghost k: nat)
      requires Lists() && k < |openList.nodes| && openList.nodes[k] == file
      modifies openList, freeList, files`previous, files`next
      ensures Lists() && openList.nodes == Cut(old(openList.nodes), k)
    {
      hide FatList.Valid, Partition, Forward, Backward, Distinct, Cut, Inserted;
      InPool();
      NodeMoves(files, openList.nodes, freeList.nodes, k);
      openList.Remove(file, k);
      freeList.InsertLast(file);
    }

    // _check_file_open: another open handle has the same path and name.
    method CheckFileOpen(file: Handle) returns (found: bool)
      requires openList.Valid() && Named(openList.nodes) && file in openList.nodes
      ensures found <==> exists h :: h in openList.nodes && h != file && Matches(h, file)
    {
      hide Distinct, Forward, Backward, Named, Matches;
      var node := openList.head;
      ghost var i := 0;
      while node != null
        invariant 0 <= i <= |openList.nodes| && node == At(openList.nodes, i)
        invariant forall j | 0 <= j < i :: openList.nodes[j] != file ==> !Matches(openList.nodes[j], file)
        decreases |openList.nodes| - i
      {
        Neighbours(openList.nodes, i);
        if node != file {
          var same := SameNames(node, file, openList.nodes);
          if same {
            return true;
          }
        }
        node := node.next;
        i := i + 1;
      }
      found := false;
    }

    // A handle just taken goes back.
    method GiveBack(file: Handle, ghost before: seq<Handle>)
      requires Lists() && openList.nodes == Inserted(before, |before|, file) && Named(before) && Unmatched(before)
      modifies openList, freeList, files`previous, files`next
      ensures Valid() && openList.nodes == before
    {
      hide FatList.Valid, Partition, Cut, Inserted, Named, Unmatched, Matches;
      LastOpen(before, file);
      FreeFile(file, |before|);
    }

    // The handle's part of _open_file and _create_file: the path is split or
    // not, and what the directory and the disk then say is one answer.
    method Acquire(split: CompareNames.Option<(seq<byte>, seq<byte>)>, succeeds: bool) returns (file: Handle?)
      requires Valid()
      requires split.Some? ==> CompareNames.Text(split.value.0) && CompareNames.Text(split.value.1)
      modifies openList, freeList, files
      ensures Valid() && forall h | h in old(openList.nodes) :: h.path == old(h.path) && h.filename == old(h.filename)
      ensures file == null ==> openList.nodes == old(openList.nodes)
      ensures file != null ==>
                && openList.nodes == Inserted(old(openList.nodes), |old(openList.nodes)|, file) && split.Some?
                && file !in old(openList.nodes) && file.path == split.value.0 && file.filename == split.value.1
      ensures file != null <==>
                && old(freeList.nodes) != [] && split.Some? && succeeds
                && !old(Busy(openList.nodes, split.value.0, split.value.1))
    {
      hide FatList.Valid, Partition, Forward, Backward, Distinct, Cut, Inserted, Named, Unmatched, Busy, Matches;
      ghost var before := openList.nodes;
      InPool();
      file := AllocateFile();
      if file == null {
        return;
      }
      file.path := [];
      file.filename := [];
      if split.None? {
        GiveBack(file, before);
        return null;
      }
      file.path := split.value.0;
      file.filename := split.value.1;
      NamedMore(before, file);
      var open := CheckFileOpen(file);
      BusyIs(before, file);
      if open {
        GiveBack(file, before);
        return null;
      }
      if !succeeds {
        GiveBack(file, before);
        return null;
      }
      UnmatchedMore(before, file);
    }

    // fl_fclose, for the k-th open handle.
    method Close(file: Handle, ghost k: nat)
      requires Valid() && k < |openList.nodes| && openList.nodes[k] == file
      modifies openList, freeList, files`previous, files`next
      ensures Valid() && openList.nodes == Cut(old(openList.nodes), k)
    {
      hide FatList.Valid, Partition, Forward, Backward, Distinct, Cut, Named, Unmatched;
      UnmatchedFewer(openList.nodes, k);
      FreeFile(file, k);
    }
  }

  // Some handle of l has this path and name, up to the comparison.
  ghost predicate Busy(l: seq<Handle>, path: seq<byte>, name: seq<byte>)
    reads l`path, l`filename
  {
    exists h :: h in l && CompareNames.NormalForm(h.path) == CompareNames.NormalForm(path)
                && CompareNames.NormalForm(h.filename) == CompareNames.NormalForm(name)
  }

  lemma LastOpen(l: seq<Handle>, file: Handle)
    ensures var more := Inserted(l, |l|, file);
            more[|l|] == file && file in more && Cut(more, |l|) == l
  {
  }

  lemma NamedMore(l: seq<Handle>, file: Handle)
    requires Named(l) && CompareNames.Text(file.path) && CompareNames.Text(file.filename)
    ensures Named(Inserted(l, |l|, file))
  {
  }

  lemma BusyIs(l: seq<Handle>, file: Handle)
    requires file !in l
    ensures Busy(l, file.path, file.filename) <==>
              exists h :: h in Inserted(l, |l|, file) && h != file && Matches(h, file)
  {
    var more := Inserted(l, |l|, file);
    assert forall h :: h in more <==> h in l || h == file;
  }

  lemma UnmatchedMore(l: seq<Handle>, file: Handle)
    requires Unmatched(l) && file !in l && !Busy(l, file.path, file.filename)
    ensures Unmatched(Inserted(l, |l|, file))
  {
  }

  lemma UnmatchedFewer(l: seq<Handle>, k: nat)
    requires Unmatched(l) && Named(l) && k < |l|
    ensures Unmatched(Cut(l, k)) && Named(Cut(l, k))
  {
    var rest := Cut(l, k);
    forall i, j | 0 <= i < j < |rest|
      ensures !Matches(rest[i], rest[j])
    {
      var i', j' := if i < k then i else i + 1, if j < k then j else j + 1;
      assert !Matches(l[i'], l[j']);
    }
  }

  // The comparison of _check_file_open.
  method SameNames(a: Handle, b: Handle, ghost l: seq<Handle>) returns (same: bool)
    requires Named(l) && a in l && b in l
    ensures same <==> Matches(a, b)
  {
    same := CompareNames.CompareNames(a.path, b.path);
    if same {
      same := CompareNames.CompareNames(a.filename, b.filename);
    }
  }

  method MakePool(count: nat) returns (pool: seq<Handle>)
    ensures |pool| == count && Distinct(pool) && forall i | 0 <= i < |pool| :: fresh(pool[i])
  {
    pool := [];
    while |pool| < count
      invariant |pool| <= count && Distinct(pool)
      invariant forall i | 0 <= i < |pool| :: fresh(pool[i])
    {
      var h := new Handle();
      pool := pool + [h];
    }
  }

  // The loop of fl_init: every handle goes to the end of the free list.
  method ListOf(pool: seq<Handle>) returns (l: FatList)
    requires Distinct(pool)
    modifies pool`previous, pool`next
    ensures fresh(l) && l.Valid() && l.nodes == pool
  {
    l := new FatList();
    var i := 0;
    while i < |pool|
      invariant 0 <= i <= |pool| && l.Valid() && l.nodes == pool[..i] && fresh(l)
    {
      NextOfPool(pool, i);
      hide Distinct, Forward, Backward, Inserted;
      l.InsertLast(pool[i]);
      i := i + 1;
    }
    assert pool[..i] == pool;
  }

  lemma NextOfPool(pool: seq<Handle>, i: nat)
    requires Distinct(pool) && i < |pool|
    ensures pool[i] !in pool[..i] && Inserted(pool[..i], i, pool[i]) == pool[..i + 1]
    ensures forall h | h in pool[..i] :: h in pool
  {
  }

  // Moving the head of b to the end of a, or a node of a to the end of b,
  // keeps the partition.
  lemma HeadMoves(pool: seq<Handle>, a: seq<Handle>, b: seq<Handle>)
    requires Partition(pool, a, b) && Distinct(b) && b != []
    ensures Partition(pool, Inserted(a, |a|, b[0]), Cut(b, 0))
  {
    CutDistinct(b, 0);
    Shuffle(pool, b, a, 0);
  }

  lemma NodeMoves(pool: seq<Handle>, a: seq<Handle>, b: seq<Handle>, k: nat)
    requires Partition(pool, a, b) && Distinct(a) && k < |a|
    ensures Partition(pool, Cut(a, k), Inserted(b, |b|, a[k])) && a[k] !in b && a[k] in pool
    ensures forall h | h in Cut(a, k) :: h in pool
  {
    CutDistinct(a, k);
    Shuffle(pool, a, b, k);
  }

  lemma Shuffle(pool: seq<Handle>, a: seq<Handle>, b: seq<Handle>, k: nat)
    requires Distinct(a) && k < |a| && a[k] !in Cut(a, k)
    ensures forall h :: h in Cut(a, k) <==> h in a && h != a[k]
    ensures forall h :: h in Inserted(b, |b|, a[k]) <==> h in b || h == a[k]
  {
  }
}
