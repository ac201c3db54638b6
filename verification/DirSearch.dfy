// Walking a directory with the long-name cache: looking a name up, and the
// listing's cursor (fat_access.c:407-507, 756-903; fat_string.c:345-364).
module DirSearch {
  import opened Bytes
  import opened Sequences
  import opened FatWindows
  import opened FileLayout
  import opened DirSlots
  import opened Directory
  import FatTable
  import Lfn
  import CompareNames

  const SPACE := 0x20
  const DOT := 0x2E

  // struct lfn_cache as a value.
  datatype Cache = Cache(text: seq<byte>, count: nat)

  predicate Fits260(c: Cache) {
    |c.text| == Lfn.ROWS * Lfn.ROW + 1 && c.count <= Lfn.ROWS
  }

  // fatfs_lfn_cache_entry.
  function Fed(c: Cache, b: Slot): (d: Cache)
    requires Fits260(c)
    ensures Fits260(d)
  {
    var n := b[0] % 32;
    if n == 0 || n > Lfn.ROWS then c
    else Cache(c.text[..(n - 1) * Lfn.ROW] + Lfn.RowOf(b) + c.text[n * Lfn.ROW..], if c.count == 0 then n else c.count)
  }

  function Ended(c: Cache): (t: seq<byte>)
    requires Fits260(c)
    ensures |t| == |c.text|
  {
    c.text[c.count * Lfn.ROW := 0]
  }

  // The eleven bytes of a short name as "NAME    .EXT".
  function ShortText(s: Slot): (r: seq<byte>) {
    Lfn.CString(s[..8] + [if s[8..11] != [SPACE, SPACE, SPACE] && s[0] != DOT then DOT else SPACE] + s[8..11] + [0])
  }

  // The name an entry is known by: the collected long name, or else its short
  // one.
  function NameOf(c: Cache, s: Slot): seq<byte>
    requires Fits260(c)
  {
    if c.count > 0 then Lfn.CString(Ended(c)) else ShortText(s)
  }

  // The cache after a slot that is not what is looked for.
  function Stepped(c: Cache, s: Slot): (d: Cache)
    requires Fits260(c)
    ensures Fits260(d)
  {
    if LfnText(s) then Fed(c, s)
    else if Invalid(s) || c.count == 0 then c.(count := 0)
    else Cache(Ended(c), 0)
  }

  predicate Hit(c: Cache, s: Slot, name: seq<byte>)
    requires Fits260(c)
  {
    !LfnText(s) && !Invalid(s) && CompareNames.NormalForm(NameOf(c, s)) == CompareNames.NormalForm(name)
  }

  // The first entry known by the name, up to the comparison.
  function FindIn(slots: seq<Slot>, c: Cache, name: seq<byte>): CompareNames.Option<Slot>
    requires Fits260(c)
    decreases |slots|
  {
    if slots == [] then CompareNames.None
    else if Hit(c, slots[0], name) then CompareNames.Some(slots[0])
    else FindIn(slots[1..], Stepped(c, slots[0]), name)
  }

  // Looked up by its short name alone, an entry is found exactly if it is listed.
  lemma ByAttribute(s: Slot, c: Cache, readOnly: nat, hidden: nat, system: nat, volume: nat, rest: nat)
    requires readOnly <= 1 && hidden <= 1 && system <= 1 && volume <= 1 && Fits260(c) && c.count == 0
    requires s[11] == readOnly + 2 * hidden + 4 * system + 8 * volume + 16 * rest
    ensures FindIn([s], c, ShortText(s))
         == if s[0] != 0 && s[0] != 0xE5 && hidden == system == 0 && s[11] != 8 then CompareNames.Some(s) else CompareNames.None
  {
    DirSlots.ByAttribute(s, readOnly, hidden, system, volume, rest);
    ShownIsTheRest(s);
    hide LfnText, Invalid, Shown, CompareNames.NormalForm, ShortText, Stepped;
    assert [s][1..] == [];
    assert FindIn([s][1..], Stepped(c, s), ShortText(s)) == CompareNames.None;
  }

  function CacheAfter(slots: seq<Slot>, c: Cache): (d: Cache)
    requires Fits260(c)
    ensures Fits260(d)
    decreases |slots|
  {
    if slots == [] then c else CacheAfter(slots[1..], Stepped(c, slots[0]))
  }

  lemma {:induction false} FindSplits(a: seq<Slot>, b: seq<Slot>, c: Cache, name: seq<byte>)
    requires Fits260(c)
    ensures FindIn(a + b, c, name) == if FindIn(a, c, name).Some? then FindIn(a, c, name) else FindIn(b, CacheAfter(a, c), name)
    decreases |a|
  {
    hide Hit, Stepped;
    if a == [] {
      assert a + b == b;
    } else {
      assert (a + b)[1..] == a[1..] + b && (a + b)[0] == a[0];
      FindSplits(a[1..], b, Stepped(c, a[0]), name);
    }
  }

  lemma {:induction false} CacheSplits(a: seq<Slot>, b: seq<Slot>, c: Cache)
    requires Fits260(c)
    ensures CacheAfter(a + b, c) == CacheAfter(b, CacheAfter(a, c))
    decreases |a|
  {
    hide Stepped;
    if a == [] {
      assert a + b == b;
    } else {
      assert (a + b)[1..] == a[1..] + b && (a + b)[0] == a[0];
      CacheSplits(a[1..], b, Stepped(c, a[0]));
    }
  }

  // Where no long name is being collected the cache is empty.
  lemma ClosedIsEmpty(a: seq<Slot>, c: Cache)
    requires Fits260(c) && Closed(a) && (a == [] ==> c.count == 0)
    ensures CacheAfter(a, c).count == 0
  {
    if a != [] {
      var n := |a| - 1;
      assert a == a[..n] + [a[n]];
      CacheSplits(a[..n], [a[n]], c);
      var d := CacheAfter(a[..n], c);
      assert [a[n]][1..] == [];
      assert CacheAfter([a[n]], d) == Stepped(d, a[n]);
    }
  }

  // Long-name slots match nothing.
  lemma {:induction false} LongFindsNothing(long: seq<Slot>, c: Cache, name: seq<byte>)
    requires Fits260(c) && forall i | 0 <= i < |long| :: LfnText(long[i])
    ensures FindIn(long, c, name) == CompareNames.None
    decreases |long|
  {
    if long != [] { LongFindsNothing(long[1..], Stepped(c, long[0]), name); }
  }

  // ------------------------------------------------------------ a long name

  // An empty cache fed k slots of a name holds its rows from the k-th last on.
  lemma {:induction false} FedRows(long: seq<Slot>, k: nat, c: Cache, name: seq<byte>, checksum: byte, n: nat)
    requires Fits260(c) && c.count == 0 && Lfn.Name(name) && n == Lfn.EntriesRequired(|name|) && k <= |long| == n
    requires LongSlots(long, name, checksum, n)
    ensures n <= Lfn.ROWS && CacheAfter(long[..k], c).count == (if k == 0 then 0 else n)
    ensures Lfn.Assembled(CacheAfter(long[..k], c).text, name, n - k, n)
    decreases k
  {
    Lfn.AssembleNone(c.text, name);
    hide LongSlots, Lfn.Assembled, Lfn.EntriesRequired, Lfn.Name, LfnText, Fits260, Stepped, Fed, Lfn.IsSlot;
    if k > 0 {
      var j := k - 1;
      FedRows(long, j, c, name, checksum, n);
      SlotAt(long, j, name, checksum, n);
      FedRow(CacheAfter(long[..j], c), long[j], name, n - 1 - j, checksum, n);
      OneMore(long, j, c);
    }
  }

  lemma OneMore(long: seq<Slot>, j: nat, c: Cache)
    requires Fits260(c) && j < |long| && LfnText(long[j])
    ensures CacheAfter(long[..j + 1], c) == Fed(CacheAfter(long[..j], c), long[j])
  {
    hide Fed, LfnText;
    assert long[..j + 1] == long[..j] + [long[j]];
    CacheSplits(long[..j], [long[j]], c);
    OneStep(long[j], CacheAfter(long[..j], c));
  }

  lemma SlotAt(long: seq<Slot>, j: nat, name: seq<byte>, checksum: byte, n: nat)
    requires LongSlots(long, name, checksum, n) && j < |long|
    ensures |long| <= n && Lfn.IsSlot(long[j], name, n - 1 - j, checksum)
  {
  }

  lemma FedRow(d: Cache, b: Slot, name: seq<byte>, entry: nat, checksum: byte, n: nat)
    requires Fits260(d) && Lfn.Name(name) && entry < n == Lfn.EntriesRequired(|name|) <= Lfn.ROWS
    requires Lfn.IsSlot(b, name, entry, checksum) && Lfn.Assembled(d.text, name, entry + 1, n)
    requires d.count == if entry + 1 == n then 0 else n
    ensures LfnText(b) && Fed(d, b).count == n && Lfn.Assembled(Fed(d, b).text, name, entry, n)
  {
    Lfn.OrdinalReads(b, name, entry, checksum);
    hide Lfn.RowOf, Lfn.Assembled, Lfn.Name, Lfn.EntriesRequired;
    Lfn.AssembleRow(d.text, Fed(d, b).text, b, name, entry, n, checksum);
  }

  lemma OneStep(s: Slot, c: Cache)
    requires Fits260(c) && LfnText(s)
    ensures CacheAfter([s], c) == Fed(c, s)
  {
    assert [s][1..] == [];
  }

  // So the entry behind a name's slots is known by the name, whatever stale
  // text the cache held.
  lemma KnownByName(long: seq<Slot>, s: Slot, c: Cache, name: seq<byte>, checksum: byte)
    requires Fits260(c) && c.count == 0 && Lfn.Name(name) && |long| == Lfn.EntriesRequired(|name|)
    requires LongSlots(long, name, checksum, |long|)
    ensures NameOf(CacheAfter(long, c), s) == Lfn.Spaced(name)
  {
    var n := |long|;
    FedRows(long, n, c, name, checksum, n);
    assert long[..n] == long;
    Lfn.AssembledReads(CacheAfter(long, c).text, name, n);
  }

  // ------------------------------------------------------------ an entry just added

  // A name that was not found is found once its entry has been added, if the
  // spaces put for its padding bytes do not change how it compares: what is
  // found is the new short entry.
  lemma AddedIsFound(was: seq<Slot>, now: seq<Slot>, long: seq<Slot>, short: Slot, c: Cache, name: seq<byte>, checksum: byte)
    requires Fits260(c) && c.count == 0 && NewEntryIn(was, now, long, short) && FindIn(was, c, name) == CompareNames.None
    requires Lfn.Name(name) && |long| == Lfn.EntriesRequired(|name|) && LongSlots(long, name, checksum, |long|)
    requires CompareNames.NormalForm(Lfn.Spaced(name)) == CompareNames.NormalForm(name)
    requires !LfnText(short) && !Invalid(short)
    ensures FindIn(now, c, name) == CompareNames.Some(short)
  {
    var more: seq<Slot>, start: nat, end: nat :| NewEntryAt(was, now, long, short, more, start, end);
    var a, rest := was[..start], (was + more)[start + |long| + 1..];
    NewEntryParts(was, now, long, short, more, start, end);
    hide FindIn, CacheAfter, NewEntryAt, NewEntryIn, LongSlots, LfnText, Invalid, NameOf, Lfn.EntriesRequired, Lfn.Name;
    FindSplits(a, was[start..], c, name);
    FindSplits(a, long + ([short] + rest), c, name);
    ClosedIsEmpty(a, c);
    NewNameFound(long, short, rest, CacheAfter(a, c), name, checksum);
  }

  // Where no entry follows it is found exactly if it is shown and the spaces do
  // not tell.
  lemma AddedLastIsFound(was: seq<Slot>, now: seq<Slot>, long: seq<Slot>, short: Slot, more: seq<Slot>, start: nat, end: nat,
                         c: Cache, name: seq<byte>, checksum: byte)
    requires Fits260(c) && c.count == 0 && NewEntryAt(was, now, long, short, more, start, end) && NoneTaken(was[start..])
    requires FindIn(was, c, name) == CompareNames.None
    requires Lfn.Name(name) && |long| == Lfn.EntriesRequired(|name|) && LongSlots(long, name, checksum, |long|)
    ensures FindIn(now, c, name) == CompareNames.Some(short) <==>
              Shown(short) && CompareNames.NormalForm(Lfn.Spaced(name)) == CompareNames.NormalForm(name)
  {
    var a, rest := was[..start], (was + more)[start + |long| + 1..];
    NewEntryParts(was, now, long, short, more, start, end);
    NoneTakenBehind(was, more, start, start + |long| + 1);
    LongSlotsAreLong(long, name, checksum, |long|);
    ShownIsTheRest(short);
    hide FindIn, CacheAfter, NewEntryAt, LongSlots, LfnText, Invalid, Shown, NameOf, Lfn.EntriesRequired, Lfn.Name;
    hide NoneTaken;
    hide CompareNames.NormalForm;
    FindSplits(a, was[start..], c, name);
    FindSplits(a, long + ([short] + rest), c, name);
    ClosedIsEmpty(a, c);
    var d := CacheAfter(a, c);
    LongFindsNothing(long, d, name);
    FindSplits(long, [short] + rest, d, name);
    KnownByName(long, short, d, name, checksum);
    OneOrNone(short, rest, CacheAfter(long, d), name);
  }

  lemma NoneTakenBehind(was: seq<Slot>, more: seq<Slot>, start: nat, p: nat)
    requires NoneTaken(more) && start <= |was| && NoneTaken(was[start..]) && start <= p <= |was + more|
    ensures NoneTaken((was + more)[p..])
  {
    forall i | 0 <= i < |(was + more)[p..]|
      ensures !Taken((was + more)[p..][i])
    {
      if p + i < |was| {
        assert (was + more)[p..][i] == was[start..][p + i - start];
      } else {
        assert (was + more)[p..][i] == more[p + i - |was|];
      }
    }
  }

  // Slots that hold no entry in use match nothing.
  lemma {:induction false} NoneTakenFindsNothing(slots: seq<Slot>, c: Cache, name: seq<byte>)
    requires Fits260(c) && NoneTaken(slots)
    ensures FindIn(slots, c, name) == CompareNames.None
    decreases |slots|
  {
    if slots != [] {
      assert !Taken(slots[0]);
      NoneTakenFindsNothing(slots[1..], Stepped(c, slots[0]), name);
    }
  }

  lemma OneOrNone(s: Slot, rest: seq<Slot>, c: Cache, name: seq<byte>)
    requires Fits260(c) && NoneTaken(rest)
    ensures FindIn([s] + rest, c, name) == if Hit(c, s, name) then CompareNames.Some(s) else CompareNames.None
  {
    assert ([s] + rest)[1..] == rest;
    NoneTakenFindsNothing(rest, Stepped(c, s), name);
  }

  lemma NewEntryParts(was: seq<Slot>, now: seq<Slot>, long: seq<Slot>, short: Slot, more: seq<Slot>, start: nat, end: nat)
    requires NewEntryAt(was, now, long, short, more, start, end)
    ensures start <= |was| && start + |long| + 1 <= |was + more| && Closed(was[..start])
    ensures now == was[..start] + (long + ([short] + (was + more)[start + |long| + 1..]))
    ensures was == was[..start] + was[start..]
  {
    assert (was + more)[..start] == was[..start];
    RunParts(was + more, start, end);
  }

  lemma NewNameFound(long: seq<Slot>, short: Slot, rest: seq<Slot>, c: Cache, name: seq<byte>, checksum: byte)
    requires Fits260(c) && c.count == 0
    requires Lfn.Name(name) && |long| == Lfn.EntriesRequired(|name|) && LongSlots(long, name, checksum, |long|)
    requires CompareNames.NormalForm(Lfn.Spaced(name)) == CompareNames.NormalForm(name)
    requires !LfnText(short) && !Invalid(short)
    ensures FindIn(long + ([short] + rest), c, name) == CompareNames.Some(short)
  {
    LongSlotsAreLong(long, name, checksum, |long|);
    LongFindsNothing(long, c, name);
    FindSplits(long, [short] + rest, c, name);
    KnownByName(long, short, c, name, checksum);
    hide CacheAfter, LfnText, Invalid, NameOf, Lfn.EntriesRequired, Lfn.Name, LongSlots, CompareNames.NormalForm;
    FirstHit([short] + rest, CacheAfter(long, c), name);
    assert ([short] + rest)[0] == short;
  }

  lemma FirstHit(slots: seq<Slot>, c: Cache, name: seq<byte>)
    requires Fits260(c) && slots != [] && Hit(c, slots[0], name)
    ensures FindIn(slots, c, name) == CompareNames.Some(slots[0])
  {
  }

  // The terminator's place behind the text is set before it is read: what it
  // held does not matter.
  predicate Alike(c: Cache, d: Cache) {
    Fits260(c) && Fits260(d) && c.count == d.count && c.text[..Lfn.ROWS * Lfn.ROW] == d.text[..Lfn.ROWS * Lfn.ROW]
  }

  lemma AlikeNames(c: Cache, d: Cache, s: Slot)
    requires Alike(c, d)
    ensures NameOf(c, s) == NameOf(d, s) && Alike(Stepped(c, s), Stepped(d, s))
  {
    if c.count > 0 {
      EndedAlike(c, d);
    }
    FedAlike(c, d, s);
    hide Lfn.CString, Fed, Ended;
  }

  lemma FedAlike(c: Cache, d: Cache, s: Slot)
    requires Alike(c, d)
    ensures Alike(Fed(c, s), Fed(d, s))
  {
    var n := s[0] % 32;
    if 0 < n <= Lfn.ROWS {
      RowAlike(c.text, d.text, (n - 1) * Lfn.ROW, Lfn.RowOf(s), n * Lfn.ROW);
    }
  }

  lemma RowAlike(s: seq<byte>, t: seq<byte>, p: nat, row: seq<byte>, q: nat)
    requires |s| == |t| == Lfn.ROWS * Lfn.ROW + 1 && s[..Lfn.ROWS * Lfn.ROW] == t[..Lfn.ROWS * Lfn.ROW]
    requires p + |row| == q <= Lfn.ROWS * Lfn.ROW
    ensures (s[..p] + row + s[q..])[..Lfn.ROWS * Lfn.ROW] == (t[..p] + row + t[q..])[..Lfn.ROWS * Lfn.ROW]
  {
    var last := Lfn.ROWS * Lfn.ROW;
    assert s[..p] == s[..last][..p] && t[..p] == t[..last][..p];
    assert (s[..p] + row + s[q..])[..last] == s[..p] + row + s[..last][q..];
    assert (t[..p] + row + t[q..])[..last] == t[..p] + row + t[..last][q..];
  }

  lemma EndedAlike(c: Cache, d: Cache)
    requires Alike(c, d)
    ensures Lfn.CString(Ended(c)) == Lfn.CString(Ended(d))
    ensures Ended(c)[..Lfn.ROWS * Lfn.ROW] == Ended(d)[..Lfn.ROWS * Lfn.ROW]
  {
    var last, n := Lfn.ROWS * Lfn.ROW, c.count * Lfn.ROW;
    assert forall i | 0 <= i < last :: c.text[i] == c.text[..last][i] == d.text[..last][i] == d.text[i];
    var s, t := Ended(c), Ended(d);
    var z := |Lfn.CString(s)|;
    assert s[n] == 0 && forall i | 0 <= i <= n :: s[i] == t[i];
    Lfn.CStringAt(t, z);
    assert t[..z] == s[..z];
  }

  lemma {:induction false} AlikeFind(slots: seq<Slot>, c: Cache, d: Cache, name: seq<byte>)
    requires Alike(c, d)
    ensures FindIn(slots, c, name) == FindIn(slots, d, name)
    decreases |slots|
  {
    if slots != [] {
      AlikeNames(c, d, slots[0]);
      hide Alike, Stepped, NameOf;
      assert Hit(c, slots[0], name) == Hit(d, slots[0], name);
      AlikeFind(slots[1..], Stepped(c, slots[0]), Stepped(d, slots[0]), name);
    }
  }

  // What fatfs_get_file_entry finds: it starts with the table wiped.
  function Wiped(): (c: Cache)
    ensures Fits260(c)
  {
    Cache(seq(Lfn.ROWS * Lfn.ROW + 1, _ => 0), 0)
  }

  function Found(slots: seq<Slot>, name: seq<byte>): CompareNames.Option<Slot> {
    FindIn(slots, Wiped(), name)
  }

  ghost function CacheOf(cache: Lfn.LfnCache): Cache
    reads cache, cache.text
  {
    Cache(cache.text[..], cache.count)
  }

  // Some place of the extension from 8 to n is not blank.
  predicate Dotted(s: Slot, n: nat)
    requires n <= SLOT
  {
    exists k :: 8 <= k < n && s[k] != SPACE
  }

  lemma DottedNext(s: Slot, n: nat)
    requires 8 <= n < SLOT
    ensures Dotted(s, n + 1) <==> Dotted(s, n) || s[n] != SPACE
  {
  }

  lemma NoneDotted(s: Slot)
    ensures !Dotted(s, 8)
  {
  }

  lemma DottedIs(s: Slot)
    ensures Dotted(s, 11) <==> s[8..11] != [SPACE, SPACE, SPACE]
  {
    NoneDotted(s);
    DottedNext(s, 8);
    DottedNext(s, 9);
    DottedNext(s, 10);
    hide Dotted;
    var t := s[8..11];
    assert t[0] == s[8] && t[1] == s[9] && t[2] == s[10];
    assert t == [t[0], t[1], t[2]];
  }

  // short_filename, filled as the searches do.
  method ShortFilename(s: Slot) returns (text: seq<byte>)
    ensures text == ShortText(s)
  {
    hide Lfn.CString, ShortText, Dotted;
    NoneDotted(s);
    var name := new byte[13](_ => 0);
    var i := 0;
    while i < 8
      invariant 0 <= i <= 8 && name[..i] == s[..i] && forall k | i <= k < 13 :: name[k] == 0
    {
      name[i] := s[i];
      i := i + 1;
    }
    var dotRequired := false;
    while i < 11
      invariant 8 <= i <= 11 && name[..8] == s[..8] && name[9..i + 1] == s[8..i] && name[12] == 0
      invariant dotRequired == Dotted(s, i)
    {
      label before:
      name[i + 1] := s[i];
      assert name[9..i + 2] == old@before(name[9..i + 1]) + [s[i]];
      DottedNext(s, i);
      if s[i] != SPACE {
        dotRequired := true;
      }
      i := i + 1;
    }
    name[8] := if dotRequired && name[0] != DOT then DOT else SPACE;
    assert name[0] == name[..8][0] == s[..8][0];
    ShortTextIs(name[..], s);
    text := Lfn.CString(name[..]);
  }

  lemma ShortTextIs(name: seq<byte>, s: Slot)
    requires |name| == 13 && name[..8] == s[..8] && name[9..12] == s[8..11] && name[12] == 0
    requires name[8] == if Dotted(s, 11) && s[0] != DOT then DOT else SPACE
    ensures Lfn.CString(name) == ShortText(s)
  {
    DottedIs(s);
    hide Lfn.CString, Dotted;
    assert name == name[..8] + [name[8]] + name[9..12] + [name[12]];
  }

  // One slot of the search of fatfs_get_file_entry.
  method LookAt(entry: Slot, name: seq<byte>, cache: Lfn.LfnCache) returns (hit: bool)
    requires cache.Valid() && CompareNames.Text(name)
    modifies cache, cache.text
    ensures cache.Valid() && hit == Hit(old(CacheOf(cache)), entry, name)
    ensures !hit ==> CacheOf(cache) == Stepped(old(CacheOf(cache)), entry)
  {
    ShownIsTheRest(entry);
    hide Lfn.CString, Lfn.RowOf, CompareNames.NormalForm, LfnText, Invalid, Shown, ShortText;
    hit := false;
    if LfnText(entry) {
      cache.Entry(entry);
    } else if Invalid(entry) {
      cache.Init(false);
    } else if Shown(entry) && cache.count != 0 {
      var longName := cache.Get();
      hit := CompareNames.CompareNames(longName, name);
      if !hit {
        cache.Init(false);
      }
    } else if Shown(entry) {
      var shortName := ShortFilename(entry);
      ShortIsText(entry);
      hit := CompareNames.CompareNames(shortName, name);
      if !hit {
        cache.Init(false);
      }
    }
  }

  lemma ShortIsText(s: Slot)
    ensures CompareNames.Text(ShortText(s))
  {
  }

  lemma FindStep(slots: seq<Slot>, p: nat, c: Cache, name: seq<byte>)
    requires Fits260(c) && p < |slots|
    ensures FindIn(slots[p..], c, name)
         == if Hit(c, slots[p], name) then CompareNames.Some(slots[p]) else FindIn(slots[p + 1..], Stepped(c, slots[p]), name)
  {
    assert slots[p..][0] == slots[p] && slots[p..][1..] == slots[p + 1..];
  }

  // One sector of it.
  method SearchSector(sector: Sector, x: nat, name: seq<byte>, cache: Lfn.LfnCache, ghost secs: seq<Sector>, ghost c: Cache)
    returns (found: CompareNames.Option<Slot>)
    requires x < |secs| && secs[x] == sector && cache.Valid() && CompareNames.Text(name) && Fits260(c)
    requires FindIn(Slots(secs), c, name) == FindIn(Slots(secs)[x * PER_SECTOR..], CacheOf(cache), name)
    modifies cache, cache.text
    ensures cache.Valid()
    ensures found.Some? ==> found == FindIn(Slots(secs), c, name)
    ensures found.None? ==>
              FindIn(Slots(secs), c, name) == FindIn(Slots(secs)[x * PER_SECTOR + PER_SECTOR..], CacheOf(cache), name)
  {
    hide Slots, FindIn, Hit, Stepped, CompareNames.Text, SlotOf;
    var item := 0;
    while item < PER_SECTOR
      invariant 0 <= item <= PER_SECTOR && cache.Valid()
      invariant FindIn(Slots(secs), c, name) == FindIn(Slots(secs)[x * PER_SECTOR + item..], CacheOf(cache), name)
    {
      SlotsAt(secs, x, item);
      FindStep(Slots(secs), x * PER_SECTOR + item, CacheOf(cache), name);
      var entry := SlotOf(sector, item);
      var hit := LookAt(entry, name, cache);
      if hit {
        return CompareNames.Some(entry);
      }
      item := item + 1;
    }
    found := CompareNames.None;
  }

  // fatfs_get_file_entry.
  method GetFileEntry(dir: Dir, name: seq<byte>, cache: Lfn.LfnCache) returns (found: CompareNames.Option<Slot>)
    requires dir.Valid() && cache.Valid() && CompareNames.Text(name)
    modifies dir`address, dir`sector, dir.fs`head, dir.fs`disk, dir.fs`list, dir.fs`views, dir.fs.buffers, cache, cache.text
    ensures dir.Valid() && SameData(dir.fs.g, old(dir.fs.disk), dir.fs.disk) && dir.fs.flat == old(dir.fs.flat)
    ensures dir.AllSlots() == old(dir.AllSlots()) && cache.Valid()
    ensures dir.InRoot() ==> dir.fs.views == old(dir.fs.views)
    ensures found == Found(dir.AllSlots(), name)
    ensures old(dir.fs.Poised()) ==> dir.fs.Poised()
  {
    hide Dir.Open, OnDisk, Below, Fits, Capacity, SameData, Slots, Fresh, FindIn, CompareNames.Text;
    hide FatTable.FatFs.Poised;
    dir.Opened();
    SameDataSame(dir.fs.g, dir.fs.disk);
    ghost var secs := OnDisk(dir.l, dir.fs.g, dir.fs.disk, dir.chain);
    cache.Init(true);
    WipedAlike(CacheOf(cache));
    ghost var c := CacheOf(cache);
    AlikeFind(Slots(secs), c, Wiped(), name);
    var x := 0;
    assert Slots(secs)[0..] == Slots(secs);
    while true
      invariant old(dir.fs.Poised()) ==> dir.fs.Poised()
      invariant dir.Valid() && Fits(dir.l, dir.fs.g, dir.fs.disk) && Below(dir.l, dir.chain) && dir.fs.flat == old(dir.fs.flat)
      invariant OnDisk(dir.l, dir.fs.g, dir.fs.disk, dir.chain) == secs && SameData(dir.fs.g, old(dir.fs.disk), dir.fs.disk)
      invariant x <= |secs| && cache.Valid() && (dir.InRoot() ==> dir.fs.views == old(dir.fs.views))
      invariant FindIn(Slots(secs), c, name) == FindIn(Slots(secs)[x * PER_SECTOR..], CacheOf(cache), name)
      decreases |secs| - x
    {
      dir.Opened();
      label before:
      var read := dir.SectorReader(x);
      dir.Opened();
      SameDataChain(dir.fs.g, old(dir.fs.disk), old@before(dir.fs.disk), dir.fs.disk);
      if !read {
        break;
      }
      found := SearchSector(dir.sector, x, name, cache, secs, c);
      if found.Some? {
        return;
      }
      x := x + 1;
    }
    NothingLeft(Slots(secs)[x * PER_SECTOR..], CacheOf(cache), name);
    found := CompareNames.None;
  }

  lemma WipedAlike(c: Cache)
    requires Fits260(c) && c.count == 0 && forall k | 0 <= k < Lfn.ROWS * Lfn.ROW :: c.text[k] == 0
    ensures Alike(c, Wiped())
  {
  }

  lemma NothingLeft(slots: seq<Slot>, c: Cache, name: seq<byte>)
    requires Fits260(c) && slots == []
    ensures FindIn(slots, c, name) == CompareNames.None
  {
  }

  // ------------------------------------------------------------ the listing

  // fatfs_get_sfn_display_name: without spaces, in lower case, twelve
  // characters at most.
  function Display(s: seq<byte>, room: nat): seq<byte> {
    if s == [] || room == 0 then []
    else if s[0] == SPACE then Display(s[1..], room)
    else [CompareNames.Lower(s[0])] + Display(s[1..], room - 1)
  }

  // What is shown: each part after the other, of a single character nothing if
  // it is a space and else its lower case.
  lemma {:induction false} DisplaySplits(a: seq<byte>, b: seq<byte>, room: nat)
    ensures |Display(a, room)| <= room && Display(a + b, room) == Display(a, room) + Display(b, room - |Display(a, room)|)
    decreases |a|
  {
    if a == [] || room == 0 {
      assert a == [] ==> a + b == b;
    } else {
      assert (a + b)[1..] == a[1..] + b;
      DisplaySplits(a[1..], b, room);
      DisplaySplits(a[1..], b, room - 1);
    }
  }

  lemma DisplayOne(c: byte, room: nat)
    requires room > 0
    ensures c == SPACE <==> Display([c], room) == []
    ensures c != SPACE ==>
              && |Display([c], room)| == 1 && CompareNames.SameLetter(Display([c], room)[0], c)
              && !(0x41 <= Display([c], room)[0] <= 0x5A)
    ensures Display([], room) == [] && Display([c], 0) == []
  {
    assert [c][1..] == [];
  }

  method DisplayName(s: seq<byte>) returns (out: seq<byte>)
    ensures out == Display(s, 12)
  {
    out := [];
    var i := 0;
    while i < |s| && |out| <= 11
      invariant 0 <= i <= |s| && |out| <= 12 && out + Display(s[i..], 12 - |out|) == Display(s, 12)
    {
      assert s[i..][0] == s[i] && s[i..][1..] == s[i + 1..];
      ghost var rest := Display(s[i + 1..], 11 - |out|);
      assert s[i] != SPACE ==> out + ([CompareNames.Lower(s[i])] + rest) == out + [CompareNames.Lower(s[i])] + rest;
      if s[i] != SPACE {
        out := out + [CompareNames.Lower(s[i])];
      }
      i := i + 1;
    }
    assert out + [] == out;
  }

  // A listing copies at most 259 characters of a long name.
  const LISTED_MAX := 259

  function Shortened(name: seq<byte>): seq<byte> {
    if |name| <= LISTED_MAX then name else name[..LISTED_MAX]
  }

  // strncpy into the listing's buffer.
  method CopyName(name: seq<byte>) returns (out: seq<byte>)
    ensures out == Shortened(name)
  {
    out := [];
    var i := 0;
    while i < LISTED_MAX && i < |name|
      invariant 0 <= i <= |name| && i <= LISTED_MAX && out == name[..i]
    {
      out := out + [name[i]];
      i := i + 1;
    }
  }

  // The name a listing shows.
  function ListedAs(c: Cache, s: Slot): seq<byte>
    requires Fits260(c)
  {
    if c.count > 0 then Shortened(Lfn.CString(Ended(c))) else Display(ShortText(s), 12)
  }

  // An entry behind a name's slots is listed by the name, whatever the cache
  // held: the same name if and only if it has no padding byte and at most 259
  // characters.
  lemma ListedByName(long: seq<Slot>, s: Slot, c: Cache, name: seq<byte>, checksum: byte)
    requires Fits260(c) && c.count == 0 && Lfn.Name(name) && |long| == Lfn.EntriesRequired(|name|)
    requires LongSlots(long, name, checksum, |long|)
    ensures ListedAs(CacheAfter(long, c), s) == Shortened(Lfn.Spaced(name))
    ensures ListedAs(CacheAfter(long, c), s) == name <==> 0xFF !in name && |name| <= 259
  {
    KnownByName(long, s, c, name, checksum);
    FedRows(long, |long|, c, name, checksum, |long|);
    assert long[..|long|] == long;
    Lfn.SpacedIsSame(name);
  }

  // What the cache holds after the pending slots, from some text.
  ghost predicate Holding(c: Cache, base: seq<byte>, pending: seq<Slot>) {
    && Fits260(c) && Fits260(Cache(base, 0)) && c == CacheAfter(pending, Cache(base, 0))
    && forall i | 0 <= i < |pending| :: LfnText(pending[i])
  }

  lemma HoldingNone(base: seq<byte>)
    requires Fits260(Cache(base, 0))
    ensures Holding(Cache(base, 0), base, [])
  {
  }

  lemma HoldingMore(c: Cache, base: seq<byte>, pending: seq<Slot>, s: Slot)
    requires Holding(c, base, pending) && LfnText(s)
    ensures Holding(Fed(c, s), base, pending + [s])
  {
    CacheSplits(pending, [s], Cache(base, 0));
    OneStep(s, c);
  }

  lemma ListStep(slots: seq<Slot>, p: nat, pending: seq<Slot>)
    requires p < |slots|
    ensures Listing(slots[p..], pending)
         == if LfnText(slots[p]) then Listing(slots[p + 1..], pending + [slots[p]])
            else if Invalid(slots[p]) then Listing(slots[p + 1..], [])
            else [Listed(pending, slots[p])] + Listing(slots[p + 1..], [])
  {
    assert slots[p..][0] == slots[p] && slots[p..][1..] == slots[p + 1..];
  }

  // One slot of fatfs_list_directory_next: it is collected, skipped or listed.
  method ListSlot(entry: Slot, cache: Lfn.LfnCache, ghost base0: seq<byte>, ghost pending0: seq<Slot>)
    returns (shown: bool, name: seq<byte>, ghost base: seq<byte>, ghost pending: seq<Slot>)
    requires cache.Valid() && Holding(CacheOf(cache), base0, pending0)
    modifies cache, cache.text
    ensures cache.Valid() && shown == (!LfnText(entry) && !Invalid(entry))
    ensures shown ==> base == base0 && pending == pending0
    ensures shown ==> Holding(old(CacheOf(cache)), base, pending) && name == ListedAs(old(CacheOf(cache)), entry)
    ensures !shown ==> Holding(CacheOf(cache), base, pending)
    ensures !shown ==> pending == if LfnText(entry) then pending0 + [entry] else []
  {
    ShownIsTheRest(entry);
    hide Lfn.CString, Lfn.RowOf, LfnText, Invalid, Shown, ShortText, Holding, Display;
    shown, name, base, pending := false, [], base0, pending0;
    if LfnText(entry) {
      HoldingMore(CacheOf(cache), base, pending, entry);
      pending := pending + [entry];
      cache.Entry(entry);
    } else if Invalid(entry) {
      cache.Init(false);
      base, pending := cache.text[..], [];
      HoldingNone(base);
    } else if Shown(entry) && cache.count != 0 {
      var longName := cache.Get();
      name := CopyName(longName);
      shown := true;
    } else if Shown(entry) {
      cache.Init(false);
      var shortName := ShortFilename(entry);
      name := DisplayName(shortName);
      shown := true;
    }
  }

  lemma NoLines(slots: seq<Slot>, pending: seq<Slot>)
    requires slots == []
    ensures Listing(slots, pending) == []
  {
  }

  lemma SlotsCount(secs: seq<Sector>)
    ensures |Slots(secs)| == |secs| * PER_SECTOR
  {
  }

  lemma SectorSlots(secs: seq<Sector>, x: nat)
    requires x < |secs|
    ensures |Slots(secs)| == |secs| * PER_SECTOR && x * PER_SECTOR + PER_SECTOR <= |Slots(secs)|
    ensures forall i | 0 <= i < PER_SECTOR :: Slots(secs)[x * PER_SECTOR + i] == SlotOf(secs[x], i)
  {
    forall i | 0 <= i < PER_SECTOR
      ensures Slots(secs)[x * PER_SECTOR + i] == SlotOf(secs[x], i)
    {
      SlotsAt(secs, x, i);
    }
  }

  // struct fs_dir_list_status and the entry it fills.
  class DirList {
    const dir: Dir
    var sector: nat
    var offset: nat
    var filename: seq<byte>
    var isDir: bool
    var size: nat
    var cluster: nat

    // fatfs_list_directory_start.
    constructor (dir: Dir)
      ensures this.dir == dir && Position() == 0 && offset == 0
    {
      this.dir, sector, offset := dir, 0, 0;
      filename, isDir, size, cluster := [], false, 0, 0;
    }

    function Position(): nat
      reads this`sector, this`offset
    {
      sector * PER_SECTOR + offset
    }

    ghost predicate Valid()
      reads this`sector, this`offset, dir, dir.fs, dir.fs.list
    {
      dir.Valid() && offset <= PER_SECTOR && Position() <= |dir.AllSlots()|
    }

    // The entry's fields say what the line's short entry holds.
    predicate Shows(s: Slot)
      reads this`isDir, this`size, this`cluster
    {
      isDir == (s[11] / 16 % 2 == 1) && size == Get32(s, 28) && cluster == Get16(s, 20) * 0x1_0000 + Get16(s, 26)
    }

    // For an entry made for a cluster, a size and a kind these are shown.
    lemma ShowsWhatWasMade(short: seq<byte>, first: nat, length: nat, directory: bool)
      requires |short| == 11 && first < 0x1_0000_0000 && length < 0x1_0000_0000
      requires Shows(ShortEntry(short, first, length, directory))
      ensures cluster == first && size == length && isDir == directory
    {
      ShortEntryReads(short, first, length, directory);
      ShortEntryHead(short, first, length, directory);
      hide ShortEntry, Get16, Get32;
    }

    method Fill(entry: Slot, name: seq<byte>)
      modifies this`filename, this`isDir, this`size, this`cluster
      ensures filename == name && Shows(entry)
    {
      filename := name;
      isDir := entry[11] / 16 % 2 == 1;
      size := Get32(entry, 28);
      cluster := Get16(entry, 20) * 0x1_0000 + Get16(entry, 26);
    }

    // The directory's sectors are secs.
    ghost predicate Over(secs: seq<Sector>)
      reads dir, dir.fs, dir.fs.list
    {
      && dir.Valid() && FileLayout.Fits(dir.l, dir.fs.g, dir.fs.disk) && Below(dir.l, dir.chain)
      && OnDisk(dir.l, dir.fs.g, dir.fs.disk, dir.chain) == secs
    }

    ghost method Opened() returns (secs: seq<Sector>)
      requires Valid()
      ensures Over(secs) && dir.AllSlots() == Slots(secs)
    {
      dir.Opened();
      secs := OnDisk(dir.l, dir.fs.g, dir.fs.disk, dir.chain);
    }

    lemma Closing(secs: seq<Sector>)
      requires Over(secs) && offset <= PER_SECTOR && Position() <= |Slots(secs)|
      ensures Valid() && dir.AllSlots() == Slots(secs)
    {
    }

    // The cursor's sector comes into the working sector, if there is one.
    method ReadSector(ghost secs: seq<Sector>) returns (ok: bool)
      requires Over(secs) && sector <= |secs|
      modifies dir`address, dir`sector, dir.fs`head, dir.fs`disk, dir.fs`list, dir.fs`views, dir.fs.buffers
      ensures Over(secs) && ok == (sector < |secs|) && (ok ==> dir.sector == secs[sector])
    {
      hide Dir.Open, OnDisk, Below, FileLayout.Fits, Capacity, SameData, Fresh;
      dir.Opened();
      ok := dir.SectorReader(sector);
      dir.Opened();
    }

    // The rest of a sector, from the offset on.
    method NextInSector(entries: Sector, cache: Lfn.LfnCache, ghost slots: seq<Slot>, ghost base0: seq<byte>, ghost pending0: seq<Slot>)
      returns (found: bool, ghost base: seq<byte>, ghost line: Listed)
      requires cache.Valid() && Holding(CacheOf(cache), base0, pending0) && offset <= PER_SECTOR
      requires sector * PER_SECTOR + PER_SECTOR <= |slots|
      requires forall i | 0 <= i < PER_SECTOR :: slots[sector * PER_SECTOR + i] == SlotOf(entries, i)
      modifies this`offset, this`filename, this`isDir, this`size, this`cluster, cache, cache.text
      ensures cache.Valid() && offset <= PER_SECTOR
      ensures found ==> Position() > old(Position()) && Shows(line.short) && Fits260(Cache(base, 0))
      ensures found ==> filename == ListedAs(CacheAfter(line.long, Cache(base, 0)), line.short)
      ensures found ==> old(Listing(slots[Position()..], pending0)) == [line] + Listing(slots[Position()..], [])
      ensures !found ==> Holding(CacheOf(cache), base, line.long) && offset == old(offset)
      ensures !found ==> old(Listing(slots[Position()..], pending0)) == Listing(slots[sector * PER_SECTOR + PER_SECTOR..], line.long)
    {
      hide Listing, Holding, ListedAs, LfnText, Invalid, SlotOf, Shows, CacheAfter, Fits260;
      var item := offset;
      base := base0;
      ghost var pending := pending0;
      line := Listed(pending, SlotOf(entries, 0));
      while item < PER_SECTOR
        invariant offset == old(offset) && offset <= item <= PER_SECTOR && cache.Valid()
        invariant Holding(CacheOf(cache), base, pending) && line.long == pending
        invariant old(Listing(slots[Position()..], pending0)) == Listing(slots[sector * PER_SECTOR + item..], pending)
      {
        var entry := SlotOf(entries, item);
        ListStep(slots, sector * PER_SECTOR + item, pending);
        ghost var c := CacheOf(cache);
        var shown, name;
        shown, name, base, pending := ListSlot(entry, cache, base, pending);
        line := Listed(pending, entry);
        if shown {
          HoldingIs(c, base, pending);
          Fill(entry, name);
          offset := item + 1;
          return true, base, line;
        }
        item := item + 1;
      }
      found := false;
    }

    lemma HoldingIs(c: Cache, base: seq<byte>, pending: seq<Slot>)
      requires Holding(c, base, pending)
      ensures Fits260(Cache(base, 0)) && c == CacheAfter(pending, Cache(base, 0))
    {
    }

    // fatfs_list_directory_next: the next line of the listing, and the cursor
    // behind it; or there is none.
    method Next(cache: Lfn.LfnCache) returns (found: bool, ghost base: seq<byte>, ghost line: Listed)
      requires Valid() && cache.Valid()
      modifies this`sector, this`offset, this`filename, this`isDir, this`size, this`cluster, cache, cache.text
      modifies dir`address, dir`sector, dir.fs`head, dir.fs`disk, dir.fs`list, dir.fs`views, dir.fs.buffers
      ensures Valid() && cache.Valid() && dir.AllSlots() == old(dir.AllSlots())
      ensures Listing(dir.AllSlots()[old(Position())..], [])
           == if found then [line] + Listing(dir.AllSlots()[Position()..], []) else []
      ensures found ==> Position() > old(Position()) && Shows(line.short) && Fits260(Cache(base, 0))
      ensures found ==> filename == ListedAs(CacheAfter(line.long, Cache(base, 0)), line.short)
    {
      hide Dir.Open, OnDisk, Below, FileLayout.Fits, Capacity, SameData, Slots, Fresh, Listing, Holding, ListedAs;
      hide Shows, SlotOf, CacheAfter, Fits260, Over;
      ghost var secs := Opened();
      ghost var slots := Slots(secs);
      SlotsCount(secs);
      cache.Init(false);
      base := cache.text[..];
      HoldingNone(base);
      line := Listed([], SlotOf(Blank(), 0));
      ghost var pending: seq<Slot> := [];
      while true
        invariant Over(secs) && cache.Valid()
        invariant offset <= PER_SECTOR && Position() <= |slots| && old(Position()) <= Position()
        invariant Holding(CacheOf(cache), base, pending)
        invariant Listing(slots[old(Position())..], []) == Listing(slots[Position()..], pending)
        decreases |secs| - sector
      {
        var read := ReadSector(secs);
        if !read {
          break;
        }
        SectorSlots(secs, sector);
        found, base, line := NextInSector(dir.sector, cache, slots, base, pending);
        if found {
          Closing(secs);
          return;
        }
        pending := line.long;
        sector := sector + 1;
        offset := 0;
      }
      Closing(secs);
      NoLines(slots[Position()..], pending);
      found := false;
    }
  }

  // The calls of fatfs_list_directory_next, from the start until there is no
  // more: the lines of the listing, in order, each with its name.
  method ListAll(dir: Dir, cache: Lfn.LfnCache) returns (names: seq<seq<byte>>, ghost lines: seq<Listed>)
    requires dir.Valid() && cache.Valid()
    modifies dir`address, dir`sector, dir.fs`head, dir.fs`disk, dir.fs`list, dir.fs`views, dir.fs.buffers, cache, cache.text
    ensures dir.Valid() && dir.AllSlots() == old(dir.AllSlots()) && lines == Listing(dir.AllSlots(), []) && |names| == |lines|
    ensures forall i | 0 <= i < |lines| :: NamedAs(names[i], lines[i])
  {
    hide Listing, ListedAs, NamedAs, Slots, OnDisk, Below, Dir.Open, Fresh, FileLayout.Fits;
    dir.Opened();
    ghost var slots := dir.AllSlots();
    var list := new DirList(dir);
    names, lines := [], [];
    assert slots[0..] == slots && [] + Listing(slots, []) == Listing(slots, []);
    while true
      invariant list.dir == dir && fresh(list) && list.Valid() && cache.Valid()
      invariant FileLayout.Fits(dir.l, dir.fs.g, dir.fs.disk) && Below(dir.l, dir.chain) && dir.AllSlots() == slots
      invariant lines + Listing(slots[list.Position()..], []) == Listing(slots, []) && |names| == |lines|
      invariant forall i | 0 <= i < |lines| :: NamedAs(names[i], lines[i])
      decreases |slots| - list.Position()
    {
      var found;
      ghost var base, line;
      found, base, line := list.Next(cache);
      dir.Opened();
      if !found {
        assert lines + [] == lines;
        return;
      }
      IsNamed(base, line, list.filename);
      names := names + [list.filename];
      assert lines + ([line] + Listing(slots[list.Position()..], [])) == (lines + [line]) + Listing(slots[list.Position()..], []);
      lines := lines + [line];
    }
  }

  // The name shown for a line, the cache having held some text before.
  ghost predicate NamedAs(name: seq<byte>, line: Listed) {
    exists base: seq<byte> :: Fits260(Cache(base, 0)) && name == ListedAs(CacheAfter(line.long, Cache(base, 0)), line.short)
  }

  lemma IsNamed(base: seq<byte>, line: Listed, name: seq<byte>)
    requires Fits260(Cache(base, 0)) && name == ListedAs(CacheAfter(line.long, Cache(base, 0)), line.short)
    ensures NamedAs(name, line)
  {
  }
}
