// Short names as they are compared: when the name made for a file still equals
// the file's name (fat_misc.c:285-343; fat_access.c:464-486), and that a
// directory gets no short name twice (fat_filelib.c:460-491).
module ShortForms {
  import opened Bytes
  import opened Sequences
  import opened CompareNames
  import opened DirSlots
  import opened Directory
  import S = ShortNames
  import DirSearch
  import Lfn

  const FULL := S.FULL
  const PARTIAL := S.PARTIAL

  // The part of the base that a short name holds.
  function Held(base: seq<byte>): (r: seq<byte>)
    ensures |r| <= PARTIAL
  {
    if |S.Squeezed(base)| <= PARTIAL then S.Squeezed(base) else S.Squeezed(base)[..PARTIAL]
  }

  lemma HeldIs(base: seq<byte>)
    ensures SPACE !in Held(base) && DOT !in Held(base)
    ensures S.Padded(S.Squeezed(base), PARTIAL) == Held(base) + Spaces(PARTIAL - |Held(base)|)
    ensures SameLetters(Held(base), base) <==> SPACE !in base && DOT !in base && |base| <= PARTIAL
  {
    S.SqueezedKeeps(base);
    hide S.Squeezed, SameLetter;
    var q := S.Squeezed(base);
    assert |q| <= PARTIAL ==> Held(base) == q;
    assert |Held(base)| <= |q| <= |base|;
  }

  lemma ThreeIs(e: seq<byte>)
    requires DOT !in e
    ensures var x := S.Padded(S.Uppered(e), 3);
            && DOT !in x && (SameLetters(x, e) <==> |e| == 3)
            && (x == Spaces(3) && |e| == 3 ==> e == Spaces(3))
            && (e == Spaces(3) || e == [] ==> x == Spaces(3))
  {
    var x := S.Padded(S.Uppered(e), 3);
    assert forall i | 0 <= i < 3 && i < |e| :: x[i] == S.Upper(e[i]);
    assert forall c: byte :: SameLetter(S.Upper(c), c);
    if |e| == 3 && x == Spaces(3) {
      assert forall i | 0 <= i < 3 :: e[i] == SPACE;
    }
  }

  lemma TextOf(s: Slot, p: seq<byte>, x: seq<byte>)
    requires s[..FULL] == p + x && |p| == PARTIAL && |x| == 3 && 0 !in p && 0 !in x && DOT !in p
    ensures DirSearch.ShortText(s) == p + [if x == Spaces(3) then SPACE else DOT] + x
  {
    assert s[..8] == s[..FULL][..8] == p && s[8..11] == s[..FULL][8..11] == x;
    assert Spaces(3) == [SPACE, SPACE, SPACE];
    assert s[0] == s[..8][0] == p[0];
    assert p[0] in p;
    var t := p + [if x == Spaces(3) then SPACE else DOT] + x + [0];
    Lfn.CStringAt(t, 12);
    assert t[..12] == p + [if x == Spaces(3) then SPACE else DOT] + x;
  }

  // The text of a short name taken apart.
  lemma TextSplits(h: seq<byte>, x: seq<byte>)
    requires |h| <= PARTIAL && SPACE !in h && DOT !in h && |x| == 3 && DOT !in x
    ensures var p := h + Spaces(PARTIAL - |h|);
            if x == Spaces(3) then IsSplit(p + [SPACE] + x, h, 12 - |h|, None)
            else IsSplit(p + [DOT] + x, h, PARTIAL - |h|, Some(x))
  {
    var p := h + Spaces(PARTIAL - |h|);
    assert h != [] ==> h[|h| - 1] in h;
    if x == Spaces(3) {
      assert p + [SPACE] + x == h + Spaces(12 - |h|);
    }
  }

  // The three places that a short name gives an extension.
  function Places(extension: Option<seq<byte>>): (x: seq<byte>)
    ensures |x| == 3
  {
    S.Padded(S.Uppered(if extension.Some? then extension.value else []), 3)
  }

  lemma PlacesAre(name: seq<byte>, base: seq<byte>, spaces: nat, extension: Option<seq<byte>>)
    requires IsSplit(name, base, spaces, extension)
    ensures DOT !in Places(extension)
    ensures extension.Some? ==> (SameLetters(Places(extension), extension.value) <==> |extension.value| == 3)
    ensures Places(extension) == Spaces(3) <== extension.None? || extension.value == Spaces(3)
    ensures extension.Some? && Places(extension) == Spaces(3) && |extension.value| == 3 ==> extension.value == Spaces(3)
  {
    ThreeIs(if extension.Some? then extension.value else []);
  }

  lemma ShortTextSplits(name: seq<byte>, base: seq<byte>, spaces: nat, extension: Option<seq<byte>>, s: Slot)
    requires Text(name) && IsSplit(name, base, spaces, extension) && s[..FULL] == S.SfnOf(name)
    ensures var h, x := Held(base), Places(extension);
            if x == Spaces(3) then IsSplit(DirSearch.ShortText(s), h, 12 - |h|, None)
            else IsSplit(DirSearch.ShortText(s), h, PARTIAL - |h|, Some(x))
  {
    hide S.SfnOf, S.Padded, S.Squeezed, S.Uppered, Held, DirSearch.ShortText, Text, S.UpperText, IsSplit;
    hide SameLetters, Spaces;
    S.SfnParts(name, base, spaces, extension);
    S.SfnIsUpper(name);
    HeldIs(base);
    PlacesAre(name, base, spaces, extension);
    var p, x := S.Padded(S.Squeezed(base), PARTIAL), Places(extension);
    PartsAreText(p, x);
    HeldHasNoDot(Held(base));
    TextOf(s, p, x);
    TextSplits(Held(base), x);
  }

  lemma HeldHasNoDot(h: seq<byte>)
    requires DOT !in h && |h| <= PARTIAL
    ensures DOT !in h + Spaces(PARTIAL - |h|)
  {
  }

  // An entry made from a name compares equal to the name exactly when the base
  // has no blank, no dot and at most eight characters, and the extension, if
  // any, has three, not all blank: shorter ones keep their padding.
  lemma ShortNameTells(name: seq<byte>, base: seq<byte>, spaces: nat, extension: Option<seq<byte>>, s: Slot)
    requires Text(name) && IsSplit(name, base, spaces, extension) && s[..FULL] == S.SfnOf(name)
    ensures NormalForm(DirSearch.ShortText(s)) == NormalForm(name) <==>
              && SPACE !in base && DOT !in base && |base| <= PARTIAL
              && (extension.Some? ==> |extension.value| == 3 && extension.value != Spaces(3))
  {
    hide S.SfnOf, Held, DirSearch.ShortText, Text, IsSplit, SameLetters, Spaces, Places, NormalForm;
    ShortTextSplits(name, base, spaces, extension, s);
    HeldIs(base);
    PlacesAre(name, base, spaces, extension);
    if Places(extension) == Spaces(3) {
      SameNormal(DirSearch.ShortText(s), Held(base), 12 - |Held(base)|, None, name, base, spaces, extension);
    } else {
      SameNormal(DirSearch.ShortText(s), Held(base), PARTIAL - |Held(base)|, Some(Places(extension)), name, base, spaces, extension);
    }
  }

  lemma PartsAreText(p: seq<byte>, x: seq<byte>)
    requires S.UpperText(p + x)
    ensures 0 !in p && 0 !in x
  {
    assert forall i | 0 <= i < |p| :: (p + x)[i] == p[i];
    assert forall i | 0 <= i < |x| :: (p + x)[|p| + i] == x[i];
  }

  // No two entries shown in a directory have one short name.
  ghost predicate Unique(slots: seq<Slot>) {
    AllDiffer(ShownOf(slots))
  }

  predicate AllDiffer(shown: seq<Slot>) {
    forall i, j | 0 <= i < j < |shown| :: Lfn.CString(shown[i][..FULL]) != Lfn.CString(shown[j][..FULL])
  }

  lemma {:induction false} ShownIsNamed(slots: seq<Slot>)
    ensures forall s | s in ShownOf(slots) :: Lfn.CString(s[..FULL]) in S.Names(slots)
    decreases |slots|
  {
    hide Shown, Lfn.CString;
    if slots != [] {
      var rest := slots[..|slots| - 1];
      ShownIsNamed(rest);
      assert S.Names(rest) <= S.Names(slots) by {
        assert forall k | 0 <= k < |rest| :: rest[k] == slots[k];
      }
    }
  }

  lemma {:induction false} NothingShown(slots: seq<Slot>)
    requires forall i | 0 <= i < |slots| :: !Shown(slots[i])
    ensures ShownOf(slots) == []
  {
    if slots != [] {
      NothingShown(slots[..|slots| - 1]);
    }
  }

  lemma NoneTakenShown(slots: seq<Slot>)
    requires NoneTaken(slots)
    ensures ShownOf(slots) == []
  {
    forall i | 0 <= i < |slots|
      ensures !Shown(slots[i])
    {
      assert !Taken(slots[i]);
    }
    NothingShown(slots);
  }

  // The entries shown are those of before with the new one between.
  lemma NewEntryShown(was: seq<Slot>, now: seq<Slot>, long: seq<Slot>, short: Slot) returns (a: seq<Slot>, b: seq<Slot>)
    requires NewEntryIn(was, now, long, short) && (forall i | 0 <= i < |long| :: LfnText(long[i]))
    ensures ShownOf(was) == a + b && ShownOf(now) == a + (if Shown(short) then [short] else []) + b
  {
    hide NewEntryAt, ShownOf, Shown, LfnText, NoneTaken;
    var more: seq<Slot>, start: nat, end: nat :| NewEntryAt(was, now, long, short, more, start, end);
    DirSearch.NewEntryParts(was, now, long, short, more, start, end);
    var p := start + |long| + 1;
    var before, run, rest := was[..start], (was + more)[start..p], (was + more)[p..];
    RunUntaken(was, now, long, short, more, start, end);
    LongShown(long);
    NoneTakenShown(more);
    NoneTakenShown(run);
    hide *;
    var all := was + more;
    ThreeShown(before, run, rest, all);
    TwoShown(was, more, all);
    WithoutNothing(ShownOf(was), ShownOf(more), ShownOf(before), ShownOf(run), ShownOf(rest));
    NewShown(before, long, short, rest);
    a, b := ShownOf(before), ShownOf(rest);
  }

  lemma TwoShown(a: seq<Slot>, b: seq<Slot>, all: seq<Slot>)
    requires all == a + b
    ensures ShownOf(all) == ShownOf(a) + ShownOf(b)
  {
    ShownSplits(a, b);
  }

  lemma ThreeShown(a: seq<Slot>, b: seq<Slot>, c: seq<Slot>, all: seq<Slot>)
    requires all == a + (b + c)
    ensures ShownOf(all) == ShownOf(a) + (ShownOf(b) + ShownOf(c))
  {
    hide *;
    ShownSplits(a, b + c);
    ShownSplits(b, c);
  }

  lemma WithoutNothing(w: seq<Slot>, m: seq<Slot>, b: seq<Slot>, r: seq<Slot>, t: seq<Slot>)
    requires m == [] && r == []
    ensures w + m == w && b + (r + t) == b + t
  {
    assert r + t == t;
  }

  lemma NewShown(before: seq<Slot>, long: seq<Slot>, short: Slot, rest: seq<Slot>)
    requires ShownOf(long) == []
    ensures ShownOf(before + (long + ([short] + rest))) == ShownOf(before) + (if Shown(short) then [short] else []) + ShownOf(rest)
  {
    hide *;
    ShownSplits(before, long + ([short] + rest));
    ShownSplits(long, [short] + rest);
    ShownSplits([short], rest);
    OneShown(short);
    Regrouped(ShownOf(before), ShownOf([short]), ShownOf(rest));
  }

  lemma Regrouped(a: seq<Slot>, b: seq<Slot>, c: seq<Slot>)
    ensures a + ([] + (b + c)) == a + b + c
  {
    assert [] + (b + c) == b + c;
  }

  lemma LongShown(long: seq<Slot>)
    requires forall i | 0 <= i < |long| :: LfnText(long[i])
    ensures ShownOf(long) == []
  {
    forall i | 0 <= i < |long|
      ensures !Shown(long[i])
    {
      ShownIsTheRest(long[i]);
    }
    NothingShown(long);
  }

  lemma RunUntaken(was: seq<Slot>, now: seq<Slot>, long: seq<Slot>, short: Slot, more: seq<Slot>, start: nat, end: nat)
    requires NewEntryAt(was, now, long, short, more, start, end)
    ensures start <= |was| && start + |long| + 1 <= |was + more| && NoneTaken(more)
    ensures var all, p := was + more, start + |long| + 1;
            NoneTaken(all[start..p]) && all == was[..start] + (all[start..p] + all[p..])
  {
    var all, p := was + more, start + |long| + 1;
    var run := all[start..end];
    assert forall i | 0 <= i < p - start :: all[start..p][i] == run[i];
    assert all[..start] == was[..start];
  }

  // A name that was free is in the directory afterwards if its entry is shown,
  // and if no name was there twice none is.
  lemma StillUnique(was: seq<Slot>, now: seq<Slot>, long: seq<Slot>, short: Slot)
    requires NewEntryIn(was, now, long, short) && forall i | 0 <= i < |long| :: LfnText(long[i])
    requires Lfn.CString(short[..FULL]) !in S.Names(was)
    ensures Unique(was) ==> Unique(now)
    ensures Shown(short) ==> Lfn.CString(short[..FULL]) in S.Names(now)
  {
    ShownIsNamed(was);
    ShownIsNamed(now);
    var a, b := NewEntryShown(was, now, long, short);
    hide S.Names, NewEntryIn, ShownOf, Lfn.CString, LfnText, Shown;
    if Shown(short) {
      assert (a + [short] + b)[|a|] == short;
      if Unique(was) {
        InsertedDiffer(a, short, b);
      }
    } else {
      assert a + [] + b == a + b;
    }
  }

  // So it is whenever the listing has not changed.
  lemma SameUnique(was: seq<Slot>, now: seq<Slot>)
    requires Listing(was, []) == Listing(now, [])
    ensures Unique(was) <==> Unique(now)
  {
    ListsTheShown(was, []);
    ListsTheShown(now, []);
  }

  lemma InsertedDiffer(a: seq<Slot>, s: Slot, b: seq<Slot>)
    requires AllDiffer(a + b) && forall t | t in a + b :: Lfn.CString(t[..FULL]) != Lfn.CString(s[..FULL])
    ensures AllDiffer(a + [s] + b)
  {
    hide Lfn.CString;
    var all := a + [s] + b;
    forall i, j | 0 <= i < j < |all|
      ensures Lfn.CString(all[i][..FULL]) != Lfn.CString(all[j][..FULL])
    {
      var x, y := if i > |a| then i - 1 else i, if j > |a| then j - 1 else j;
      assert i != |a| ==> all[i] == (a + b)[x];
      assert j != |a| ==> all[j] == (a + b)[y];
    }
  }
}
