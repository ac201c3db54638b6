// Directory slots: which of them are in use, which short entries a listing
// shows with which long-name slots, and what placing a new entry in a free run
// does to it (fat_misc.c:114-188; fat_write.c:130-262; fat_access.c:768-903).
module DirSlots {
  import opened Arith
  import opened Bytes
  import opened Sequences
  import Lfn

  const SLOT := 32
  const PER_SECTOR := 16
  const BLANK := 0x00
  const DELETED := 0xE5

  type Slot = s: seq<byte> | |s| == SLOT witness seq(SLOT, _ => 0)

  // Bits of an attribute byte: all four low ones make a long-name slot.
  predicate LfnText(s: Slot) {
    s[11] % 16 == 15
  }

  // Hidden or system bit.
  predicate SysHid(s: Slot) {
    s[11] / 2 % 4 != 0
  }

  predicate Gone(s: Slot) {
    s[0] == BLANK || s[0] == DELETED
  }

  // fatfs_entry_lfn_invalid.
  predicate Invalid(s: Slot) {
    Gone(s) || s[11] == 0x08 || SysHid(s)
  }

  // fatfs_entry_sfn_only, and fatfs_entry_lfn_exists given collected text.
  predicate Shown(s: Slot) {
    s[11] != 0x0F && !Gone(s) && s[11] != 0x08 && !SysHid(s)
  }

  // A short entry in use, shown or not: what a free run may not contain.
  predicate Taken(s: Slot) {
    !LfnText(s) && !Gone(s)
  }

  lemma ShownIsTheRest(s: Slot)
    ensures !LfnText(s) && !Invalid(s) <==> Shown(s)
  {
  }

  // One line of a listing: the short entry and the long-name slots collected
  // for it.
  datatype Listed = Listed(long: seq<Slot>, short: Slot)

  // The calls of fatfs_list_directory_next over a directory.
  function Listing(slots: seq<Slot>, pending: seq<Slot>): seq<Listed>
    decreases |slots|
  {
    if slots == [] then []
    else if LfnText(slots[0]) then Listing(slots[1..], pending + [slots[0]])
    else if Invalid(slots[0]) then Listing(slots[1..], [])
    else [Listed(pending, slots[0])] + Listing(slots[1..], [])
  }

  // Which slots are listed, by the bits of the attribute byte: those in use
  // that are not hidden, not system and not the volume's label. A long-name slot
  // has the four low bits set. A free run takes slots not in use and long-name
  // slots.
  lemma ByAttribute(s: Slot, readOnly: nat, hidden: nat, system: nat, volume: nat, rest: nat)
    requires readOnly <= 1 && hidden <= 1 && system <= 1 && volume <= 1
    requires s[11] == readOnly + 2 * hidden + 4 * system + 8 * volume + 16 * rest
    ensures LfnText(s) <==> readOnly == hidden == system == volume == 1
    ensures Shown(s) <==> s[0] != 0 && s[0] != 0xE5 && hidden == system == 0 && s[11] != 8
    ensures Taken(s) <==> s[0] != 0 && s[0] != 0xE5 && !(readOnly == hidden == system == volume == 1)
    ensures Listing([s], []) == if s[0] != 0 && s[0] != 0xE5 && hidden == system == 0 && s[11] != 8 then [Listed([], s)] else []
  {
    OneListed(s);
    hide Listing;
  }

  lemma OneListed(s: Slot)
    ensures Listing([s], []) == if Shown(s) then [Listed([], s)] else []
  {
    ShownIsTheRest(s);
    hide LfnText, Invalid, Shown;
    assert [s][1..] == [];
    assert Listing([s][1..], []) == [] == Listing([s][1..], [] + [s]);
  }

  // The slots shown, in order.
  function ShownOf(slots: seq<Slot>): seq<Slot> {
    if slots == [] then [] else ShownOf(slots[..|slots| - 1]) + (if Shown(slots[|slots| - 1]) then [slots[|slots| - 1]] else [])
  }

  function Shorts(lines: seq<Listed>): (r: seq<Slot>)
    ensures |r| == |lines|
  {
    seq(|lines|, i requires 0 <= i < |lines| => lines[i].short)
  }

  lemma {:induction false} ShownSplits(a: seq<Slot>, b: seq<Slot>)
    ensures ShownOf(a + b) == ShownOf(a) + ShownOf(b)
    decreases |b|
  {
    hide Shown;
    if b == [] {
      assert a + b == a;
    } else {
      ShownSplits(a, b[..|b| - 1]);
      assert (a + b)[..|a + b| - 1] == a + b[..|b| - 1];
    }
  }

  // A listing has one line for each slot shown, in order, whatever slots are
  // hidden, free or long names.
  lemma {:induction false} ListsTheShown(slots: seq<Slot>, pending: seq<Slot>)
    ensures Shorts(Listing(slots, pending)) == ShownOf(slots)
    decreases |slots|
  {
    hide LfnText, Invalid, Shown, ShownOf;
    if slots == [] {
      NoneShown();
    } else {
      var s, rest := slots[0], slots[1..];
      ShownFirst(slots);
      ListsTheShown(rest, if LfnText(s) then pending + [s] else []);
      FirstLine(Listed(pending, s), Listing(rest, []));
    }
  }

  lemma NoneShown()
    ensures ShownOf([]) == []
  {
  }

  lemma ShownFirst(slots: seq<Slot>)
    requires slots != []
    ensures ShownOf(slots) == if Shown(slots[0]) then [slots[0]] + ShownOf(slots[1..]) else ShownOf(slots[1..])
    ensures !LfnText(slots[0]) && !Invalid(slots[0]) <==> Shown(slots[0])
  {
    ShownIsTheRest(slots[0]);
    OneShown(slots[0]);
    hide Shown, ShownOf, LfnText, Invalid;
    assert slots == [slots[0]] + slots[1..];
    ShownSplits([slots[0]], slots[1..]);
  }

  lemma FirstLine(line: Listed, lines: seq<Listed>)
    ensures Shorts([line] + lines) == [line.short] + Shorts(lines)
  {
  }

  lemma OneShown(s: Slot)
    ensures ShownOf([s]) == if Shown(s) then [s] else []
  {
    assert [s][..0] == [];
  }

  // Slots that collect nothing past their end.
  predicate Closed(slots: seq<Slot>) {
    slots == [] || !LfnText(slots[|slots| - 1])
  }

  // A listing splits where no long name is being collected.
  lemma {:induction false} ListingSplits(a: seq<Slot>, b: seq<Slot>, pending: seq<Slot>)
    requires Closed(a) && (a == [] ==> pending == [])
    ensures Listing(a + b, pending) == Listing(a, pending) + Listing(b, [])
    decreases |a|
  {
    if a == [] {
      assert a + b == b;
    } else {
      assert (a + b)[1..] == a[1..] + b;
      var next := if LfnText(a[0]) then pending + [a[0]] else [];
      ListingSplits(a[1..], b, next);
    }
  }

  predicate NoneTaken(slots: seq<Slot>) {
    forall i | 0 <= i < |slots| :: !Taken(slots[i])
  }

  lemma {:induction false} NoneTakenListsNothing(slots: seq<Slot>, pending: seq<Slot>)
    requires NoneTaken(slots)
    ensures Listing(slots, pending) == []
    decreases |slots|
  {
    if slots != [] {
      assert !Taken(slots[0]);
      NoneTakenListsNothing(slots[1..], if LfnText(slots[0]) then pending + [slots[0]] else []);
    }
  }

  // Long-name slots followed by a shown short entry are one line.
  lemma {:induction false} EntryListsOnce(long: seq<Slot>, short: Slot, pending: seq<Slot>)
    requires (forall i | 0 <= i < |long| :: LfnText(long[i])) && !LfnText(short) && Shown(short)
    ensures Listing(long + [short], pending) == [Listed(pending + long, short)]
    decreases |long|
  {
    ShownIsTheRest(short);
    if long == [] {
      assert long + [short] == [short];
      assert pending + [] == pending;
    } else {
      assert (long + [short])[1..] == long[1..] + [short];
      EntryListsOnce(long[1..], short, pending + [long[0]]);
      assert pending + [long[0]] + long[1..] == pending + long;
    }
  }

  // start .. end is a run that fatfs_find_free_dir_offset may hand out: no
  // slot of it is a short entry in use, it begins where one ends, and it stops
  // at a free short entry or the end of the directory.
  predicate FreeRun(slots: seq<Slot>, start: nat, end: nat) {
    && start <= end <= |slots| && NoneTaken(slots[start..end])
    && (start == 0 || Taken(slots[start - 1]))
    && (end == |slots| || (start < end && !LfnText(slots[end - 1])))
  }

  lemma RunParts(slots: seq<Slot>, start: nat, end: nat)
    requires FreeRun(slots, start, end)
    ensures Closed(slots[..start])
    ensures Listing(slots, []) == Listing(slots[..start], []) + Listing(slots[end..], [])
  {
    var a, b, c := slots[..start], slots[start..end], slots[end..];
    assert start > 0 ==> a[start - 1] == slots[start - 1];
    assert slots == a + (b + c);
    ListingSplits(a, b + c, []);
    if end == |slots| {
      assert b + c == b && c == [];
    } else {
      assert b[|b| - 1] == slots[end - 1];
      ListingSplits(b, c, []);
    }
    NoneTakenListsNothing(b, []);
  }

  // A new entry placed in a free run: a later listing shows the old lines and,
  // between them, exactly the new one.
  lemma PlacedLists(slots: seq<Slot>, start: nat, end: nat, long: seq<Slot>, short: Slot)
    requires FreeRun(slots, start, end) && start + |long| + 1 <= end
    requires (forall i | 0 <= i < |long| :: LfnText(long[i])) && !LfnText(short) && Shown(short)
    ensures Listing(Overlaid(slots, start, long + [short]), [])
         == Listing(slots[..start], []) + [Listed(long, short)] + Listing(slots[end..], [])
    ensures Listing(slots, []) == Listing(slots[..start], []) + Listing(slots[end..], [])
  {
    var a, m, c := slots[..start], long + [short], slots[end..];
    var rest := slots[start + |m|..end];
    RunParts(slots, start, end);
    OverlaidParts(slots, start, end, m);
    hide Listing, Overlaid, FreeRun, Taken;
    ListingSplits(a, m + (rest + c), []);
    ListingSplits(m, rest + c, []);
    EntryListsOnce(long, short, []);
    assert [] + long == long;
    RestLists(rest, c);
  }

  lemma OverlaidParts(slots: seq<Slot>, start: nat, end: nat, m: seq<Slot>)
    requires FreeRun(slots, start, end) && start + |m| <= end
    ensures var rest := slots[start + |m|..end];
            && Overlaid(slots, start, m) == slots[..start] + (m + (rest + slots[end..]))
            && NoneTaken(rest) && (slots[end..] == [] || rest == [] || !LfnText(rest[|rest| - 1]))
  {
    var rest := slots[start + |m|..end];
    assert forall i | 0 <= i < |rest| :: rest[i] == slots[start..end][|m| + i];
    if rest != [] {
      assert rest[|rest| - 1] == slots[end - 1];
    }
  }

  lemma RestLists(rest: seq<Slot>, c: seq<Slot>)
    requires NoneTaken(rest) && (c == [] || rest == [] || !LfnText(rest[|rest| - 1]))
    ensures Listing(rest + c, []) == Listing(c, [])
  {
    if rest == [] {
      assert rest + c == c;
    } else if c == [] {
      assert rest + c == rest;
      NoneTakenListsNothing(rest, []);
    } else {
      ListingSplits(rest, c, []);
      NoneTakenListsNothing(rest, []);
    }
  }

  // Slots that hold no short entry in use, placed in a free run, change no
  // listing: a name cut off by the end of the directory, or one whose short
  // entry reads as deleted.
  lemma SilentLists(slots: seq<Slot>, start: nat, end: nat, m: seq<Slot>)
    requires FreeRun(slots, start, end) && start + |m| <= end && NoneTaken(m)
    requires start + |m| == |slots| || (m != [] && !LfnText(m[|m| - 1]))
    ensures Listing(Overlaid(slots, start, m), []) == Listing(slots, [])
  {
    hide Listing, Overlaid, FreeRun, NoneTaken, LfnText;
    RunInside(slots, start, end, |m|);
    var a, rest, c := slots[..start], slots[start + |m|..end], slots[end..];
    RunParts(slots, start, end);
    OverlaidParts(slots, start, end, m);
    ListingSplits(a, m + (rest + c), []);
    RestLists(m, rest + c);
    RestLists(rest, c);
  }

  lemma RunInside(slots: seq<Slot>, start: nat, end: nat, n: nat)
    requires FreeRun(slots, start, end) && start + n <= end
    ensures start <= end <= |slots|
    ensures start + n == |slots| ==> slots[start + n..end] + slots[end..] == []
  {
  }

  // Placing an entry in a free run touches no short entry in use and no
  // long-name slot collected for a shown one.
  lemma PlacedKeeps(slots: seq<Slot>, start: nat, end: nat, news: seq<Slot>, k: nat)
    requires FreeRun(slots, start, end) && start + |news| <= end && k < |slots|
    ensures Overlaid(slots, start, news)[k] != slots[k] ==> start <= k < end && !Taken(slots[k])
    ensures start <= k < end && end < |slots| ==>
              exists j :: k <= j < end && !LfnText(slots[j]) && Gone(slots[j]) && forall i | k <= i <= j :: !Taken(slots[i])
  {
    if start <= k < end {
      assert slots[k] == slots[start..end][k - start];
      if end < |slots| {
        assert slots[end - 1] == slots[start..end][end - 1 - start];
        assert forall i | k <= i <= end - 1 :: slots[i] == slots[start..end][i - start];
      }
    }
  }

  // ------------------------------------------------------------ sectors

  function SlotOf(s: Sector, item: nat): Slot
    requires item < PER_SECTOR
  {
    s[item * SLOT..item * SLOT + SLOT]
  }

  function WithSlot(s: Sector, item: nat, b: Slot): Sector
    requires item < PER_SECTOR
  {
    s[..item * SLOT] + b + s[item * SLOT + SLOT..]
  }

  // All slots of a directory's sectors, in order.
  function Slots(secs: seq<Sector>): (r: seq<Slot>)
    ensures |r| == |secs| * PER_SECTOR
  {
    seq(|secs| * PER_SECTOR, k requires 0 <= k < |secs| * PER_SECTOR => SlotOf(secs[k / PER_SECTOR], k % PER_SECTOR))
  }

  lemma SlotsAt(secs: seq<Sector>, x: nat, item: nat)
    requires x < |secs| && item < PER_SECTOR
    ensures Slots(secs)[x * PER_SECTOR + item] == SlotOf(secs[x], item)
  {
  }

  lemma SlotReplaced(s: Sector, item: nat, b: Slot, j: nat)
    requires item < PER_SECTOR && j < PER_SECTOR
    ensures SlotOf(WithSlot(s, item, b), j) == if j == item then b else SlotOf(s, j)
  {
    var t := WithSlot(s, item, b);
    Pieces(s, item * SLOT, b, t);
    hide WithSlot;
    if j == item {
    } else if j < item {
      SameSlice(t, s, 0, item * SLOT, j * SLOT);
    } else {
      SameSlice(t, s, item * SLOT + SLOT, SECTOR, j * SLOT);
    }
  }

  // The three pieces of a sector with a slot set.
  lemma Pieces(s: Sector, p: nat, b: Slot, t: Sector)
    requires p + SLOT <= SECTOR && t == s[..p] + b + s[p + SLOT..]
    ensures t[0..p] == s[0..p] && t[p..p + SLOT] == b && t[p + SLOT..SECTOR] == s[p + SLOT..SECTOR]
  {
  }

  lemma SameSlice(t: Sector, s: Sector, lo: nat, hi: nat, p: nat)
    requires lo <= p && p + SLOT <= hi <= SECTOR && t[lo..hi] == s[lo..hi]
    ensures t[p..p + SLOT] == s[p..p + SLOT]
  {
    forall i | p <= i < p + SLOT
      ensures t[i] == s[i]
    {
      assert t[i] == t[lo..hi][i - lo] && s[i] == s[lo..hi][i - lo];
    }
  }

  lemma SlotsUpdated(secs: seq<Sector>, x: nat, item: nat, b: Slot)
    requires x < |secs| && item < PER_SECTOR
    ensures Slots(secs[x := WithSlot(secs[x], item, b)]) == Slots(secs)[x * PER_SECTOR + item := b]
  {
    var after := secs[x := WithSlot(secs[x], item, b)];
    forall k: nat | k < |secs| * PER_SECTOR
      ensures Slots(after)[k] == Slots(secs)[x * PER_SECTOR + item := b][k]
    {
      SlotReplaced(secs[x], item, b, k % PER_SECTOR);
    }
  }

  lemma SlotsConcat(a: seq<Sector>, b: seq<Sector>)
    ensures Slots(a + b) == Slots(a) + Slots(b)
  {
    forall k: nat | k < |a + b| * PER_SECTOR
      ensures Slots(a + b)[k] == (Slots(a) + Slots(b))[k]
    {
      if k >= |a| * PER_SECTOR {
        assert k / PER_SECTOR - |a| == (k - |a| * PER_SECTOR) / PER_SECTOR;
      }
    }
  }

  // ------------------------------------------------------------ the search

  // pos slots have been looked at, the last spaces of them free and the one
  // before those not; sector and offset name the first of them.
  ghost predicate Scan(slots: seq<Slot>, pos: nat, spaces: nat, sector: nat, offset: nat) {
    && spaces <= pos <= |slots| && NoneTaken(slots[pos - spaces..pos])
    && (pos == spaces || Taken(slots[pos - spaces - 1]))
    && (spaces > 0 ==> offset < PER_SECTOR && sector * PER_SECTOR + offset == pos - spaces)
  }

  lemma ScanFree(slots: seq<Slot>, pos: nat, spaces: nat, sector: nat, offset: nat, x: nat, item: nat)
    requires Scan(slots, pos, spaces, sector, offset) && pos < |slots| && !Taken(slots[pos])
    requires item < PER_SECTOR && pos == x * PER_SECTOR + item
    ensures if spaces == 0 then Scan(slots, pos + 1, 1, x, item) else Scan(slots, pos + 1, spaces + 1, sector, offset)
  {
    assert slots[pos - spaces..pos + 1] == slots[pos - spaces..pos] + [slots[pos]];
  }

  lemma ScanDone(slots: seq<Slot>, pos: nat, spaces: nat, sector: nat, offset: nat)
    requires Scan(slots, pos, spaces, sector, offset) && spaces > 0 && !LfnText(slots[pos - 1])
    ensures FreeRun(slots, sector * PER_SECTOR + offset, pos)
  {
  }

  // n slots or more, none a short entry in use, the last no long-name slot.
  predicate FitAt(slots: seq<Slot>, n: nat, start: nat, end: nat) {
    && start < end <= |slots| && start + n <= end
    && NoneTaken(slots[start..end]) && !LfnText(slots[end - 1])
  }

  // There is such a run among the first pos slots.
  ghost predicate Fit(slots: seq<Slot>, n: nat, pos: nat) {
    exists start: nat, end: nat :: FitAt(slots, n, start, end) && end <= pos
  }

  // The number of slots after the last short entry in use.
  function Spare(slots: seq<Slot>): (n: nat)
    ensures n <= |slots|
  {
    if slots == [] || Taken(slots[|slots| - 1]) then 0 else Spare(slots[..|slots| - 1]) + 1
  }

  // A slot that a run may take: its first byte marks it free, or its attribute
  // byte a long-name slot.
  predicate Usable(s: Slot) {
    s[0] == 0 || s[0] == 0xE5 || s[11] % 16 == 15
  }

  // The n slots in front of end are usable, and the last is no long-name slot.
  predicate Window(slots: seq<Slot>, n: nat, end: nat) {
    && n <= end <= |slots| && (forall i | end - n <= i < end :: Usable(slots[i]))
    && n > 0 && slots[end - 1][11] % 16 != 15
  }

  // A run holds n slots exactly if there are n usable ones in a row, the last
  // no long-name slot.
  lemma FitIsWindow(slots: seq<Slot>, n: nat)
    requires n > 0
    ensures Fit(slots, n, |slots|) <==> exists end: nat :: Window(slots, n, end)
  {
    if Fit(slots, n, |slots|) {
      var start: nat, end: nat :| FitAt(slots, n, start, end) && end <= |slots|;
      forall i | end - n <= i < end
        ensures Usable(slots[i])
      {
        assert !Taken(slots[start..end][i - start]);
      }
      assert Window(slots, n, end);
    }
    if end: nat :| Window(slots, n, end) {
      var run := slots[end - n..end];
      assert forall i | 0 <= i < n :: run[i] == slots[end - n + i];
      assert FitAt(slots, n, end - n, end);
    }
  }

  // The spare slots are usable, and in front of them is a slot that is not.
  lemma {:induction false} SpareAtEnd(slots: seq<Slot>)
    ensures forall i | |slots| - Spare(slots) <= i < |slots| :: Usable(slots[i])
    ensures Spare(slots) < |slots| ==> !Usable(slots[|slots| - Spare(slots) - 1])
  {
    if slots != [] && !Taken(slots[|slots| - 1]) {
      SpareAtEnd(slots[..|slots| - 1]);
    }
  }

  lemma NoFitYet(slots: seq<Slot>, n: nat)
    ensures !Fit(slots, n, 0)
  {
  }

  // The search stops as soon as the run it is in is long enough.
  lemma FitFound(slots: seq<Slot>, n: nat, start: nat, end: nat)
    requires FreeRun(slots, start, end) && start < end && start + n <= end && !LfnText(slots[end - 1])
    ensures Fit(slots, n, |slots|)
  {
    assert FitAt(slots, n, start, end);
  }

  // It goes on past a slot only when no run ending there is.
  lemma FitNotYet(slots: seq<Slot>, n: nat, pos: nat, spaces: nat, sector: nat, offset: nat)
    requires Scan(slots, pos + 1, spaces, sector, offset) && !Fit(slots, n, pos)
    requires pos < |slots| && (Taken(slots[pos]) || LfnText(slots[pos]) || spaces < n)
    ensures !Fit(slots, n, pos + 1)
  {
    forall start: nat, end: nat | FitAt(slots, n, start, end)
      ensures end > pos + 1
    {
      FitMeans(slots, n, pos, spaces, sector, offset, start, end);
    }
  }

  // Such a run ending at the slot just seen is part of the run being scanned.
  lemma FitMeans(slots: seq<Slot>, n: nat, pos: nat, spaces: nat, sector: nat, offset: nat, start: nat, end: nat)
    requires Scan(slots, pos + 1, spaces, sector, offset) && FitAt(slots, n, start, end)
    ensures end <= pos ==> Fit(slots, n, pos)
    ensures end == pos + 1 ==> n <= spaces && !Taken(slots[pos]) && !LfnText(slots[pos])
  {
    RunHasNone(slots, start, end, pos);
    if spaces <= pos {
      RunHasNone(slots, start, end, pos - spaces);
    }
  }

  lemma RunHasNone(slots: seq<Slot>, start: nat, end: nat, k: nat)
    requires start <= end <= |slots| && NoneTaken(slots[start..end]) && k < |slots|
    ensures start <= k < end ==> !Taken(slots[k])
  {
    if start <= k < end {
      assert slots[start..end][k - start] == slots[k];
    }
  }

  lemma {:induction false} SpareIs(slots: seq<Slot>, spaces: nat)
    requires spaces <= |slots| && NoneTaken(slots[|slots| - spaces..])
    requires spaces == |slots| || Taken(slots[|slots| - spaces - 1])
    ensures Spare(slots) == spaces
    decreases spaces
  {
    if spaces > 0 {
      var n := |slots| - 1;
      assert slots[|slots| - spaces..][spaces - 1] == slots[n];
      assert slots[..n][n - (spaces - 1)..] == slots[|slots| - spaces..][..spaces - 1];
      SpareIs(slots[..n], spaces - 1);
    }
  }

  lemma SpareScanned(slots: seq<Slot>, spaces: nat, sector: nat, offset: nat)
    requires Scan(slots, |slots|, spaces, sector, offset)
    ensures Spare(slots) == spaces
  {
    assert slots[|slots| - spaces..] == slots[|slots| - spaces..|slots|];
    SpareIs(slots, spaces);
  }

  // The directory ran out: the run goes on over the blank slots added.
  lemma ScanEnd(slots: seq<Slot>, spaces: nat, sector: nat, offset: nat, more: seq<Slot>)
    requires Scan(slots, |slots|, spaces, sector, offset) && NoneTaken(more)
    ensures FreeRun(slots + more, |slots| - spaces, |slots| + |more|)
  {
    var all := slots + more;
    assert all[|slots| - spaces..] == slots[|slots| - spaces..] + more;
    assert slots[|slots| - spaces..] == slots[|slots| - spaces..|slots|];
  }

  lemma BlankSlots(n: nat)
    ensures NoneTaken(Slots(seq(n, _ => Blank())))
    ensures Listing(Slots(seq(n, _ => Blank())), []) == []
  {
    var slots := Slots(seq(n, _ => Blank()));
    forall k | 0 <= k < |slots|
      ensures !Taken(slots[k])
    {
      assert slots[k] == SlotOf(Blank(), k % PER_SECTOR);
      assert slots[k][0] == 0;
    }
    NoneTakenListsNothing(slots, []);
  }

  // Blank slots at the end list nothing.
  lemma {:induction false} BlanksListNothing(slots: seq<Slot>, more: seq<Slot>, pending: seq<Slot>)
    requires NoneTaken(more)
    ensures Listing(slots + more, pending) == Listing(slots, pending)
    decreases |slots|
  {
    if slots == [] {
      assert slots + more == more;
      NoneTakenListsNothing(more, pending);
    } else {
      assert (slots + more)[1..] == slots[1..] + more;
      BlanksListNothing(slots[1..], more, if LfnText(slots[0]) then pending + [slots[0]] else []);
    }
  }

  // The scan of one sector by fatfs_find_free_dir_offset.
  method ScanSector(sector: Sector, x: nat, entryCount: nat, spaces0: nat, sector0: nat, offset0: nat,
                    ghost secs: seq<Sector>)
    returns (found: bool, spaces: nat, pSector: nat, pOffset: nat, ghost end: nat)
    requires x < |secs| && secs[x] == sector && entryCount > 0
    requires Scan(Slots(secs), x * PER_SECTOR, spaces0, sector0, offset0)
    requires !Fit(Slots(secs), entryCount, x * PER_SECTOR)
    ensures end <= |secs| * PER_SECTOR
    ensures if found then Fit(Slots(secs), entryCount, |secs| * PER_SECTOR)
            else !Fit(Slots(secs), entryCount, x * PER_SECTOR + PER_SECTOR)
    ensures found ==> pOffset < PER_SECTOR && FreeRun(Slots(secs), pSector * PER_SECTOR + pOffset, end)
    ensures found ==> pSector * PER_SECTOR + pOffset + entryCount <= end && pSector <= x
    ensures !found ==> Scan(Slots(secs), x * PER_SECTOR + PER_SECTOR, spaces, pSector, pOffset)
  {
    hide Slots, Scan, Taken, FreeRun, Fit, LfnText, SlotOf;
    spaces, pSector, pOffset := spaces0, sector0, offset0;
    ghost var slots := Slots(secs);
    var item := 0;
    end := 0;
    while item < PER_SECTOR
      invariant 0 <= item <= PER_SECTOR && end == 0
      invariant Scan(slots, x * PER_SECTOR + item, spaces, pSector, pOffset)
      invariant !Fit(slots, entryCount, x * PER_SECTOR + item)
    {
      SlotsAt(secs, x, item);
      var entry := SlotOf(sector, item);
      TakenIs(entry);
      if LfnText(entry) || entry[0] == DELETED || entry[0] == BLANK {
        ScanFreeSlot(slots, entryCount, x * PER_SECTOR + item, spaces, pSector, pOffset, x, item);
        if spaces == 0 {
          pSector, pOffset := x, item;
        }
        spaces := spaces + 1;
        if !LfnText(entry) && spaces >= entryCount {
          end := x * PER_SECTOR + item + 1;
          found := true;
          return;
        }
      } else {
        ScanTakenSlot(slots, entryCount, x * PER_SECTOR + item, spaces, pSector, pOffset);
        spaces := 0;
      }
      item := item + 1;
    }
    found := false;
  }

  // A free slot: the run goes on, and is long enough or not.
  lemma ScanFreeSlot(slots: seq<Slot>, n: nat, pos: nat, spaces: nat, sector: nat, offset: nat, x: nat, item: nat)
    requires Scan(slots, pos, spaces, sector, offset) && !Fit(slots, n, pos) && pos < |slots| && !Taken(slots[pos])
    requires item < PER_SECTOR && pos == x * PER_SECTOR + item
    ensures var s, o := if spaces == 0 then x else sector, if spaces == 0 then item else offset;
            && Scan(slots, pos + 1, spaces + 1, s, o)
            && if !LfnText(slots[pos]) && spaces + 1 >= n then
                 && o < PER_SECTOR && FreeRun(slots, s * PER_SECTOR + o, pos + 1)
                 && s * PER_SECTOR + o + n <= pos + 1 && s <= x && Fit(slots, n, |slots|)
               else !Fit(slots, n, pos + 1)
  {
    var s, o := if spaces == 0 then x else sector, if spaces == 0 then item else offset;
    hide Scan, Taken, FreeRun, Fit, LfnText;
    ScanFree(slots, pos, spaces, sector, offset, x, item);
    ScanFacts(slots, pos + 1, spaces + 1, s, o);
    if !LfnText(slots[pos]) && spaces + 1 >= n {
      ScanDone(slots, pos + 1, spaces + 1, s, o);
      FitFound(slots, n, s * PER_SECTOR + o, pos + 1);
    } else {
      FitNotYet(slots, n, pos, spaces + 1, s, o);
    }
  }

  lemma ScanTakenSlot(slots: seq<Slot>, n: nat, pos: nat, spaces: nat, sector: nat, offset: nat)
    requires Scan(slots, pos, spaces, sector, offset) && !Fit(slots, n, pos) && pos < |slots| && Taken(slots[pos])
    ensures Scan(slots, pos + 1, 0, sector, offset) && !Fit(slots, n, pos + 1)
  {
    ScanTaken(slots, pos, sector, offset);
    FitNotYet(slots, n, pos, 0, sector, offset);
  }

  lemma TakenIs(s: Slot)
    ensures Taken(s) <==> !LfnText(s) && s[0] != DELETED && s[0] != BLANK
  {
  }

  lemma ScanTaken(slots: seq<Slot>, pos: nat, sector: nat, offset: nat)
    requires pos < |slots| && Taken(slots[pos])
    ensures Scan(slots, pos + 1, 0, sector, offset)
  {
  }

  lemma ScanFacts(slots: seq<Slot>, pos: nat, spaces: nat, sector: nat, offset: nat)
    requires Scan(slots, pos, spaces, sector, offset) && spaces > 0
    ensures offset < PER_SECTOR && sector * PER_SECTOR + offset + spaces == pos <= |slots|
  {
  }

  // ------------------------------------------------------------ the entry

  // A short entry before its cluster and size are set.
  function Header(short: seq<byte>, dir: bool): (s: Slot)
    requires |short| == 11
    ensures s[..11] == short && s[11] == (if dir then 0x10 else 0x20)
  {
    var tail: seq<byte> := [if dir then 0x10 else 0x20, 0, 0, 0, 0, 0x20, 0, 0x20, 0, 0, 0, 0, 0, 0x20, 0, 0, 0, 0, 0, 0, 0];
    assert |tail| == 21;
    short + tail
  }

  // fatfs_sfn_create_entry.
  function ShortEntry(short: seq<byte>, cluster: nat, size: nat, dir: bool): (s: Slot)
    requires |short| == 11
  {
    var c: Slot := Set16(Header(short, dir), 20, cluster / 0x1_0000 % 0x1_0000);
    var d: Slot := Set16(c, 26, cluster % 0x1_0000);
    Set32(d, 28, size % 0x1_0000_0000)
  }

  // The eleven bytes of the name and the attribute.
  lemma ShortEntryHead(short: seq<byte>, cluster: nat, size: nat, dir: bool)
    requires |short| == 11
    ensures ShortEntry(short, cluster, size, dir)[..11] == short && ShortEntry(short, cluster, size, dir)[0] == short[0]
    ensures ShortEntry(short, cluster, size, dir)[11] == if dir then 0x10 else 0x20
  {
    var h := Header(short, dir);
    assert ShortEntry(short, cluster, size, dir)[..11] == h[..11];
    assert h[..11][0] == short[0];
  }

  lemma HeaderBytes(short: seq<byte>, dir: bool)
    requires |short| == 11
    ensures Header(short, dir)[12..20] == [0, 0, 0, 0, 0x20, 0, 0x20, 0] && Header(short, dir)[22..26] == [0, 0, 0x20, 0]
  {
    var tail: seq<byte> := [if dir then 0x10 else 0x20, 0, 0, 0, 0, 0x20, 0, 0x20, 0, 0, 0, 0, 0, 0x20, 0, 0, 0, 0, 0, 0, 0];
    assert Header(short, dir) == short + tail;
    assert (short + tail)[12..20] == tail[1..9] && (short + tail)[22..26] == tail[11..15];
  }

  lemma ShortEntryWords(short: seq<byte>, cluster: nat, size: nat, dir: bool)
    requires |short| == 11 && cluster < 0x1_0000_0000 && size < 0x1_0000_0000
    ensures var s := ShortEntry(short, cluster, size, dir);
            Get16(s, 20) * 0x1_0000 + Get16(s, 26) == cluster && Get32(s, 28) == size
  {
    hide Header, Get16, Get32, Set16, Set32;
    var hi: nat, lo: nat := cluster / 0x1_0000 % 0x1_0000, cluster % 0x1_0000;
    assert hi * 0x1_0000 + lo == cluster;
    var b := Header(short, dir);
    var c: Slot := Set16(b, 20, hi);
    var d: Slot := Set16(c, 26, lo);
    var s: Slot := Set32(d, 28, size);
    assert s == ShortEntry(short, cluster, size, dir);
    hide ShortEntry;
    WideKeeps(d, 28, size, 20);
    WideKeeps(d, 28, size, 26);
    ReadBack32(d, 28, size, 0);
    ReadBack16(c, 26, lo, 20);
    ReadBack16(b, 20, hi, 0);
  }

  // The cluster and size read back from a short entry, which is listed unless
  // its name marks it free.
  lemma ShortEntryReads(short: seq<byte>, cluster: nat, size: nat, dir: bool)
    requires |short| == 11 && cluster < 0x1_0000_0000 && size < 0x1_0000_0000
    ensures var s := ShortEntry(short, cluster, size, dir);
            && Get16(s, 20) * 0x1_0000 + Get16(s, 26) == cluster && Get32(s, 28) == size
            && !LfnText(s) && (Shown(s) <==> short[0] != BLANK && short[0] != DELETED)
  {
    ShortEntryWords(short, cluster, size, dir);
    ShortEntryHead(short, cluster, size, dir);
    hide ShortEntry, Get16, Get32;
  }

  // Every byte of a short entry: name, attribute, stamps of 1980, and the
  // cluster's halves and the size with their low bytes first.
  lemma ShortEntryBytes(short: seq<byte>, cluster: nat, size: nat, dir: bool)
    requires |short| == 11 && cluster < 0x1_0000_0000 && size < 0x1_0000_0000
    ensures var s := ShortEntry(short, cluster, size, dir);
            && s[..11] == short && s[11] == (if dir then 0x10 else 0x20)
            && s[12..20] == [0, 0, 0, 0, 0x20, 0, 0x20, 0] && s[22..26] == [0, 0, 0x20, 0]
            && s[26] as int + 0x100 * s[27] as int + 0x1_0000 * s[20] as int + 0x100_0000 * s[21] as int == cluster
            && s[28] as int + 0x100 * s[29] as int + 0x1_0000 * s[30] as int + 0x100_0000 * s[31] as int == size
  {
    hide Header, Set16, Set32;
    ShortEntryHead(short, cluster, size, dir);
    ShortEntryWords(short, cluster, size, dir);
    HeaderBytes(short, dir);
    WordsPut(Header(short, dir), cluster / 0x1_0000 % 0x1_0000, cluster % 0x1_0000, size % 0x1_0000_0000);
  }

  // The three words of an entry leave the stamps alone.
  lemma WordsPut(h: Slot, hi: nat, lo: nat, size: nat)
    ensures var s := Set32(Set16(Set16(h, 20, hi), 26, lo), 28, size);
            s[12..20] == h[12..20] && s[22..26] == h[22..26]
  {
  }

  // Words before p are not touched by a word set at p.
  lemma WideKeeps(s: Slot, p: nat, v: nat, q: nat)
    requires p + 4 <= SLOT && q + 2 <= p
    ensures Get16(Set32(s, p, v), q) == Get16(s, q)
  {
  }

  // The checksum loop of fatfs_add_file_entry.
  function Checksum(short: seq<byte>): (c: byte)
  {
    if short == [] then 0
    else
      var c := Checksum(short[..|short| - 1]);
      ((if c % 2 == 1 then 0x80 else 0) + c / 2 + short[|short| - 1]) % 0x100
  }

  // Each byte is added to the checksum turned right by one bit: twice what is
  // added to is the checksum modulo 255.
  lemma ChecksumTurns(short: seq<byte>, c: byte)
    ensures Checksum([]) == 0
    ensures var sum := Checksum(short);
            var turned := (Checksum(short + [c]) - c) % 0x100;
            2 * turned % 255 == sum % 255 && (turned == 255 <==> sum == 255)
  {
    var sum: nat := Checksum(short);
    assert (short + [c])[..|short|] == short;
    var turned: nat := (if sum % 2 == 1 then 0x80 else 0) + sum / 2;
    assert Checksum(short + [c]) == (turned + c) % 0x100;
    hide Checksum;
    TakenBack(turned, c);
    TwiceTurned(sum);
  }

  lemma TakenBack(t: nat, c: nat)
    requires t < 0x100 && c < 0x100
    ensures ((t + c) % 0x100 - c) % 0x100 == t
  {
    assert (t + c) % 0x100 == if t + c < 0x100 then t + c else t + c - 0x100;
  }

  lemma TwiceTurned(sum: nat)
    requires sum < 0x100
    ensures var turned := (if sum % 2 == 1 then 0x80 else 0) + sum / 2;
            2 * turned % 255 == sum % 255 && (turned == 255 <==> sum == 255) && turned < 0x100
  {
    var turned := (if sum % 2 == 1 then 0x80 else 0) + sum / 2;
    assert 2 * turned == if sum % 2 == 1 then sum + 255 else sum;
  }

  // The slots put so far, and the next.
  lemma PlacedNext(slots: seq<Slot>, start: nat, news: seq<Slot>, b: Slot)
    requires start + |news| < |slots|
    ensures Overlaid(slots, start, news + [b]) == Overlaid(slots, start, news)[start + |news| := b]
  {
  }

  // Some short entry in use, shown in a listing, has this name up to the first
  // zero byte.
  ghost predicate HasName(slots: seq<Slot>, n: nat, name: seq<byte>) {
    exists k :: 0 <= k < n <= |slots| && Shown(slots[k]) && Lfn.CString(slots[k][..11]) == Lfn.CString(name)
  }

  // strncmp over eleven bytes: it stops at a zero byte.
  method SameShortName(a: seq<byte>, b: seq<byte>) returns (same: bool)
    requires |a| == |b| == 11
    ensures same <==> Lfn.CString(a) == Lfn.CString(b)
  {
    var i := 0;
    while i < 11
      invariant 0 <= i <= 11 && a[..i] == b[..i] && forall k | 0 <= k < i :: a[k] != 0
    {
      if a[i] != b[i] {
        StringsDiffer(a, b, i);
        return false;
      }
      if a[i] == 0 {
        Lfn.CStringAt(a, i);
        Lfn.CStringAt(b, i);
        return true;
      }
      i := i + 1;
    }
    assert a == a[..11] == b[..11] == b;
    same := true;
  }

  lemma StringsDiffer(a: seq<byte>, b: seq<byte>, i: nat)
    requires |a| == |b| && i < |a| && a[i] != b[i] && a[..i] == b[..i] && forall k | 0 <= k < i :: a[k] != 0
    ensures Lfn.CString(a) != Lfn.CString(b)
  {
    var r, q := Lfn.CString(a), Lfn.CString(b);
    assert forall k | 0 <= k < |r| :: r[k] == a[k];
    assert forall k | 0 <= k < |q| :: q[k] == b[k];
    assert forall k | 0 <= k < i :: a[..i][k] == b[..i][k];
  }

  // The scan of one sector by fatfs_sfn_exists.
  method SectorHasName(sector: Sector, x: nat, name: seq<byte>, ghost secs: seq<Sector>) returns (found: bool)
    requires x < |secs| && secs[x] == sector && |name| == 11 && !HasName(Slots(secs), x * PER_SECTOR, name)
    ensures found ==> HasName(Slots(secs), |secs| * PER_SECTOR, name)
    ensures !found ==> !HasName(Slots(secs), x * PER_SECTOR + PER_SECTOR, name)
  {
    hide Slots, LfnText, Invalid, Shown;
    var item := 0;
    while item < PER_SECTOR
      invariant 0 <= item <= PER_SECTOR && !HasName(Slots(secs), x * PER_SECTOR + item, name)
    {
      SlotsAt(secs, x, item);
      var entry := SlotOf(sector, item);
      ShownIsTheRest(entry);
      if !LfnText(entry) && !Invalid(entry) && Shown(entry) {
        var same := SameShortName(entry[..11], name);
        if same {
          return true;
        }
      }
      item := item + 1;
    }
    found := false;
  }
}
