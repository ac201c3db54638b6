// Long file names as directory slots (fat_misc.c:39-108, 193-244): the encoder
// of one slot, the cache that puts slots together again, and the round trip.
module Lfn {
  import opened Bytes

  const ROWS := 20
  const ROW := 13
  const SLOT := 32
  const LFN_ATTR := 0x0F

  // Where in a slot the thirteen characters lie.
  const PLACES: seq<nat> := [1, 3, 5, 7, 9, 14, 16, 18, 20, 22, 24, 28, 30]

  lemma PlacesFit()
    ensures |PLACES| == ROW && forall i | 0 <= i < ROW :: 1 <= PLACES[i] <= 30 && PLACES[i] !in {11, 13, 12, 26, 27}
    ensures forall i, j | 0 <= i < j < ROW :: PLACES[i] + 1 < PLACES[j]
  {
  }

  // Two bytes for each character: five from byte 1, six from byte 14 and two
  // from byte 28.
  lemma PlacesAre(i: nat)
    requires i < ROW
    ensures |PLACES| == ROW && PLACES[i] == if i < 5 then 1 + 2 * i else if i < 11 then 14 + 2 * (i - 5) else 28 + 2 * (i - 11)
  {
    assert i in {0, 1, 2, 3, 4, 5, 6, 7, 8, 9, 10, 11, 12};
  }

  // A C string of a length the slots can hold.
  predicate Name(name: seq<byte>) {
    1 <= |name| <= ROWS * ROW && forall i | 0 <= i < |name| :: name[i] != 0
  }

  // Every text of 1 to 260 characters is one, and takes at most 20 slots.
  lemma AllLengths(name: seq<byte>)
    ensures Name(name) <==> 1 <= |name| <= 260 && 0 !in name
    ensures Name(name) ==> 1 <= EntriesRequired(|name|) <= 20
  {
  }

  // The cache cannot tell a name's own 0xFF from padding.
  function Kept(c: byte): byte {
    if c == 0xFF then 0x20 else c
  }

  function Spaced(name: seq<byte>): (r: seq<byte>)
    ensures |r| == |name|
  {
    seq(|name|, i requires 0 <= i < |name| => Kept(name[i]))
  }

  lemma SpacedIsSame(name: seq<byte>)
    ensures Spaced(name) == name <==> 0xFF !in name
  {
    if 0xFF in name {
      var i :| 0 <= i < |name| && name[i] == 0xFF;
      assert Spaced(name)[i] == 0x20;
    }
  }

  // fatfs_lfn_entries_required.
  function EntriesRequired(n: nat): (r: nat)
    ensures n <= r * ROW < n + ROW
  {
    if n > 0 then (n + ROW - 1) / ROW else 0
  }

  // Character i of slot entry: the name, its terminator, then padding.
  function CharAt(name: seq<byte>, entry: nat, i: nat): byte {
    var p := entry * ROW + i;
    if p < |name| then name[p] else if p == |name| then 0 else 0xFF
  }

  function Ordinal(n: nat, entry: nat): nat
  {
    if EntriesRequired(n) == entry + 1 then 0x40 + (entry + 1) else entry + 1
  }

  // The second byte of a character's place: set only in padding.
  function HighAt(name: seq<byte>, entry: nat, i: nat): byte {
    if entry * ROW + i > |name| then 0xFF else 0
  }

  // The first n characters of slot entry are in b, the rest of which is the
  // header and zeroes.
  ghost predicate Filled(b: seq<byte>, name: seq<byte>, entry: nat, checksum: byte, n: nat) {
    && |b| == SLOT && n <= ROW == |PLACES|
    && b[0] == Ordinal(|name|, entry) && b[11] == LFN_ATTR && b[13] == checksum && b[12] == b[26] == b[27] == 0
    && (forall i | 0 <= i < ROW :: 1 <= PLACES[i] <= 30)
    && (forall i | 0 <= i < n :: b[PLACES[i]] == CharAt(name, entry, i))
    && (forall i | 0 <= i < ROW :: b[PLACES[i] + 1] == if i < n then HighAt(name, entry, i) else 0)
  }

  // b is slot entry of the name.
  ghost predicate IsSlot(b: seq<byte>, name: seq<byte>, entry: nat, checksum: byte) {
    Filled(b, name, entry, checksum, ROW)
  }

  // Every byte of a slot: the characters with a zero high byte, one terminator
  // of two zero bytes, and two bytes of 0xFF for each place behind it.
  lemma SlotBytes(b: seq<byte>, name: seq<byte>, entry: nat, checksum: byte, i: nat)
    requires IsSlot(b, name, entry, checksum) && i < ROW
    ensures var p := if i < 5 then 1 + 2 * i else if i < 11 then 14 + 2 * (i - 5) else 28 + 2 * (i - 11);
            var k := ROW * entry + i;
            && |b| == SLOT && b[11] == 0x0F && b[13] == checksum && b[12] == b[26] == b[27] == 0
            && (k < |name| ==> b[p] == name[k] && b[p + 1] == 0)
            && (k == |name| ==> b[p] == 0 && b[p + 1] == 0)
            && (k > |name| ==> b[p] == 0xFF && b[p + 1] == 0xFF)
  {
    PlacesAre(i);
    hide PLACES;
    assert b[PLACES[i]] == CharAt(name, entry, i) && b[PLACES[i] + 1] == HighAt(name, entry, i);
  }

  lemma FillNext(b: seq<byte>, name: seq<byte>, entry: nat, checksum: byte, n: nat)
    requires Filled(b, name, entry, checksum, n) && n < ROW
    ensures 1 <= PLACES[n] <= 30
    ensures Filled(b[PLACES[n] := CharAt(name, entry, n)][PLACES[n] + 1 := HighAt(name, entry, n)],
                   name, entry, checksum, n + 1)
  {
    PlacesFit();
    var after := b[PLACES[n] := CharAt(name, entry, n)][PLACES[n] + 1 := HighAt(name, entry, n)];
    hide PLACES;
    forall i | 0 <= i < ROW
      ensures i < n ==> after[PLACES[i]] == CharAt(name, entry, i)
      ensures after[PLACES[i] + 1] == if i <= n then HighAt(name, entry, i) else 0
    {
      assert i < n ==> PLACES[i] + 1 < PLACES[n];
      assert n < i ==> PLACES[n] + 1 < PLACES[i];
    }
  }

  // fatfs_filename_to_lfn.
  method FilenameToLfn(name: seq<byte>, buffer: array<byte>, entry: nat, checksum: byte)
    requires buffer.Length == SLOT && Name(name) && entry < EntriesRequired(|name|)
    modifies buffer
    ensures IsSlot(buffer[..], name, entry, checksum)
  {
    var length := |name|;
    var entriesRequired := EntriesRequired(length);
    var start := entry * ROW;
    var z := 0;
    while z < SLOT
      invariant 0 <= z <= SLOT && forall k | 0 <= k < z :: buffer[k] == 0
    {
      buffer[z] := 0;
      z := z + 1;
    }
    buffer[0] := if entriesRequired == entry + 1 then 0x40 + (entry + 1) else entry + 1;
    buffer[11] := LFN_ATTR;
    buffer[13] := checksum;
    PlacesFit();
    var i := 0;
    while i < ROW
      invariant 0 <= i <= ROW && Filled(buffer[..], name, entry, checksum, i)
    {
      ghost var before := buffer[..];
      FillNext(before, name, entry, checksum, i);
      if start + i < length {
        buffer[PLACES[i]] := name[start + i];
      } else if start + i == length {
        buffer[PLACES[i]] := 0;
      } else {
        buffer[PLACES[i]] := 0xFF;
        buffer[PLACES[i] + 1] := 0xFF;
      }
      assert before[PLACES[i] + 1] == 0;
      assert buffer[..] == before[PLACES[i] := CharAt(name, entry, i)][PLACES[i] + 1 := HighAt(name, entry, i)];
      hide PLACES, Filled, CharAt, HighAt;
      i := i + 1;
    }
  }

  // The characters before the first zero byte.
  function CString(s: seq<byte>): (r: seq<byte>)
    ensures |r| <= |s| && r == s[..|r|] && (|r| < |s| ==> s[|r|] == 0) && forall i | 0 <= i < |r| :: r[i] != 0
  {
    if s == [] || s[0] == 0 then [] else [s[0]] + CString(s[1..])
  }

  // The place of the first zero byte, or the end, is where the string ends.
  lemma CStringAt(s: seq<byte>, n: nat)
    requires n <= |s| && (n < |s| ==> s[n] == 0) && forall i | 0 <= i < n :: s[i] != 0
    ensures CString(s) == s[..n]
  {
    var r := CString(s);
    assert forall i | 0 <= i < |r| :: r[i] == s[i];
  }

  lemma {:induction false} CStringIs(s: seq<byte>, n: nat)
    requires n < |s| && s[n] == 0 && forall i | 0 <= i < n :: s[i] != 0
    ensures CString(s) == s[..n]
  {
    if n > 0 { CStringIs(s[1..], n - 1); }
  }

  // Character i of a slot.
  function Char(b: seq<byte>, i: nat): byte
    requires |b| == SLOT && i < ROW
  {
    b[PLACES[i]]
  }

  lemma CharIs(b: seq<byte>, i: nat)
    requires |b| == SLOT && i < ROW
    ensures Char(b, i) == b[PLACES[i]]
  {
  }

  function Chars(b: seq<byte>): (r: seq<byte>)
    requires |b| == SLOT
    ensures |r| == ROW
  {
    seq(ROW, i requires 0 <= i < ROW => Char(b, i))
  }

  // What the cache keeps of a slot: padding becomes spaces.
  function RowOf(b: seq<byte>): (r: seq<byte>)
    requires |b| == SLOT
    ensures |r| == ROW
  {
    Spaced(Chars(b))
  }

  // struct lfn_cache: String and Null are one run of bytes, which the name
  // returned may cross.
  class LfnCache {
    const text: array<byte>
    var count: nat

    constructor ()
      ensures fresh(text) && Valid()
    {
      text := new byte[ROWS * ROW + 1](_ => 0);
      count := 0;
    }

    ghost predicate Valid()
      reads this
    {
      text.Length == ROWS * ROW + 1 && count <= ROWS
    }

    // fatfs_lfn_cache_init, the table kept or wiped.
    method Init(wipe: bool)
      requires Valid()
      modifies this`count, text
      ensures Valid() && count == 0
      ensures if wipe then forall k | 0 <= k < ROWS * ROW :: text[k] == 0 else text[..] == old(text[..])
      ensures text[ROWS * ROW] == old(text[ROWS * ROW])
    {
      count := 0;
      if wipe {
        var k := 0;
        while k < ROWS * ROW
          invariant 0 <= k <= ROWS * ROW && count == 0 && forall j | 0 <= j < k :: text[j] == 0
          invariant text[ROWS * ROW] == old(text[ROWS * ROW])
        {
          text[k] := 0;
          k := k + 1;
        }
      }
    }

    // fatfs_lfn_cache_entry: the slot's row is replaced; the first slot seen
    // says how many there are.
    method Entry(b: seq<byte>)
      requires Valid() && |b| == SLOT
      modifies this`count, text
      ensures Valid()
      ensures var n := b[0] % 32;
              if n == 0 || n > ROWS then text[..] == old(text[..]) && count == old(count)
              else && count == (if old(count) == 0 then n else old(count))
                   && text[..] == old(text[..])[..(n - 1) * ROW] + RowOf(b) + old(text[..])[n * ROW..]
    {
      var n := b[0] % 32;
      if n > ROWS || n == 0 {
        return;
      }
      if count == 0 {
        count := n;
      }
      var base := (n - 1) * ROW;
      CopyRow(base, b);
      SpaceRow(base);
      assert text[..] == text[..base] + text[base..base + ROW] + text[base + ROW..];
    }

    method CopyRow(base: nat, b: seq<byte>)
      requires |b| == SLOT && base + ROW <= text.Length
      modifies text
      ensures text[base..base + ROW] == Chars(b)
      ensures text[..base] == old(text[..base]) && text[base + ROW..] == old(text[base + ROW..])
    {
      hide Char;
      var i := 0;
      while i < ROW
        invariant 0 <= i <= ROW && text[base..base + i] == Chars(b)[..i]
        invariant text[..base] == old(text[..base]) && text[base + i..] == old(text[base + i..])
      {
        PlacesFit();
        CharIs(b, i);
        label before:
        text[base + i] := b[PLACES[i]];
        assert text[base..base + i + 1] == old@before(text[base..base + i]) + [Char(b, i)];
        assert text[base + i + 1..] == old@before(text[base + i..])[1..];
        i := i + 1;
      }
    }

    method SpaceRow(base: nat)
      requires base + ROW <= text.Length
      modifies text
      ensures text[base..base + ROW] == Spaced(old(text[base..base + ROW]))
      ensures text[..base] == old(text[..base]) && text[base + ROW..] == old(text[base + ROW..])
    {
      ghost var row := text[base..base + ROW];
      var i := 0;
      while i < ROW
        invariant 0 <= i <= ROW && text[base..base + i] == Spaced(row)[..i] && text[base + i..base + ROW] == row[i..]
        invariant text[..base] == old(text[..base]) && text[base + ROW..] == old(text[base + ROW..])
      {
        label before:
        assert text[base + i] == text[base + i..base + ROW][0] == row[i];
        if text[base + i] == 0xFF {
          text[base + i] := 0x20;
        }
        assert text[base..base + i + 1] == old@before(text[base..base + i]) + [Spaced(row)[i]];
        assert text[base + i + 1..base + ROW] == old@before(text[base + i..base + ROW])[1..];
        i := i + 1;
      }
    }

    // fatfs_lfn_cache_get: end the text after the last row and return it.
    method Get() returns (name: seq<byte>)
      requires Valid()
      modifies text
      ensures text[..] == old(text[..])[count * ROW := 0] && name == CString(text[..])
    {
      if count == ROWS {
        text[ROWS * ROW] := 0;
      } else if count != 0 {
        text[count * ROW] := 0;
      } else {
        text[0] := 0;
      }
      name := CString(text[..]);
    }
  }

  // The rows from entry lo on hold the name, as the cache keeps it.
  ghost predicate Assembled(text: seq<byte>, name: seq<byte>, lo: nat, hi: nat) {
    && hi * ROW <= |text|
    && forall p | lo * ROW <= p < hi * ROW ::
         text[p] == if p < |name| then Kept(name[p]) else if p == |name| then 0 else 0x20
  }

  lemma AssembleRow(text: seq<byte>, after: seq<byte>, b: seq<byte>, name: seq<byte>, entry: nat, hi: nat, checksum: byte)
    requires Name(name) && entry < hi == EntriesRequired(|name|) <= ROWS && |text| == ROWS * ROW + 1
    requires IsSlot(b, name, entry, checksum) && Assembled(text, name, entry + 1, hi)
    requires after == text[..entry * ROW] + RowOf(b) + text[(entry + 1) * ROW..]
    ensures Assembled(after, name, entry, hi)
  {
    forall p | entry * ROW <= p < hi * ROW
      ensures after[p] == if p < |name| then Kept(name[p]) else if p == |name| then 0 else 0x20
    {
      if p < (entry + 1) * ROW {
        var i := p - entry * ROW;
        assert after[p] == RowOf(b)[i] && Char(b, i) == CharAt(name, entry, i);
      } else {
        assert after[p] == text[p];
      }
    }
  }

  lemma OrdinalReads(b: seq<byte>, name: seq<byte>, entry: nat, checksum: byte)
    requires Name(name) && entry < EntriesRequired(|name|) && IsSlot(b, name, entry, checksum)
    ensures |b| == SLOT && b[0] % 32 == entry + 1 <= ROWS
  {
  }

  method CollectOne(cache: LfnCache, slot: seq<byte>, ghost name: seq<byte>, ghost entry: nat, ghost n: nat,
                    ghost checksum: byte)
    requires cache.Valid() && Name(name) && entry < n == EntriesRequired(|name|) <= ROWS
    requires IsSlot(slot, name, entry, checksum) && Assembled(cache.text[..], name, entry + 1, n)
    requires cache.count == if entry + 1 == n then 0 else n
    modifies cache, cache.text
    ensures cache.Valid() && cache.count == n && Assembled(cache.text[..], name, entry, n)
  {
    OrdinalReads(slot, name, entry, checksum);
    ghost var before := cache.text[..];
    hide Assembled, IsSlot, RowOf, Name, EntriesRequired;
    cache.Entry(slot);
    AssembleRow(before, cache.text[..], slot, name, entry, n, checksum);
  }

  // The cache fed a name's slots, highest first, as a listing meets them, gives
  // the name back, whatever stale text it held.
  method Collect(cache: LfnCache, slots: seq<seq<byte>>, ghost name: seq<byte>, ghost checksum: byte)
    returns (back: seq<byte>)
    requires cache.Valid() && Name(name) && |slots| == EntriesRequired(|name|)
    requires forall i | 0 <= i < |slots| :: IsSlot(slots[i], name, |slots| - 1 - i, checksum)
    modifies cache, cache.text
    ensures cache.Valid() && back == Spaced(name) && (back == name <==> 0xFF !in name)
  {
    cache.Init(false);
    AssembleNone(cache.text[..], name);
    hide Assembled, IsSlot, RowOf, Name, EntriesRequired, CString;
    var k := 0;
    ghost var n := |slots|;
    while k < |slots|
      invariant 0 <= k <= n && cache.Valid() && cache.count == if k == 0 then 0 else n
      invariant Assembled(cache.text[..], name, n - k, n)
    {
      CollectOne(cache, slots[k], name, n - 1 - k, n, checksum);
      k := k + 1;
    }
    AssembledReads(cache.text[..], name, n);
    back := cache.Get();
  }

  lemma AssembleNone(text: seq<byte>, name: seq<byte>)
    requires Name(name) && |text| == ROWS * ROW + 1
    ensures EntriesRequired(|name|) <= ROWS && Assembled(text, name, EntriesRequired(|name|), EntriesRequired(|name|))
  {
  }

  lemma AssembledReads(text: seq<byte>, name: seq<byte>, n: nat)
    requires Name(name) && n == EntriesRequired(|name|) && n * ROW < |text| && Assembled(text, name, 0, n)
    ensures CString(text[n * ROW := 0]) == Spaced(name) && (Spaced(name) == name <==> 0xFF !in name)
  {
    var ended := text[n * ROW := 0];
    assert ended[|name|] == 0;
    CStringIs(ended, |name|);
    assert ended[..|name|] == Spaced(name);
    SpacedIsSame(name);
  }

  // Every name survives the encoder and the cache, exactly when it holds no
  // padding byte.
  method RoundTrip(name: seq<byte>, checksum: byte, cache: LfnCache) returns (back: seq<byte>)
    requires Name(name) && cache.Valid()
    modifies cache, cache.text
    ensures back == Spaced(name) && (back == name <==> 0xFF !in name)
    ensures |back| == |name| && forall i | 0 <= i < |name| :: back[i] == if name[i] == 0xFF then 0x20 else name[i]
  {
    var buffer := new byte[SLOT](_ => 0);
    var entryCount := EntriesRequired(|name|);
    var slots: seq<seq<byte>> := [];
    while entryCount > 0
      invariant cache.Valid() && 0 <= entryCount && entryCount + |slots| == EntriesRequired(|name|)
      invariant forall i | 0 <= i < |slots| :: IsSlot(slots[i], name, EntriesRequired(|name|) - 1 - i, checksum)
    {
      entryCount := entryCount - 1;
      FilenameToLfn(name, buffer, entryCount, checksum);
      slots := slots + [buffer[..]];
    }
    back := Collect(cache, slots, name, checksum);
  }
}
