// fatfs_compare_names and its helpers (fat_string.c:182-319), proved to decide
// equality of a normal form. Strings are the bytes before the terminator.
module CompareNames {
  import opened Bytes

  const DOT := 0x2E
  const SPACE := 0x20

  // A C string: no terminator among its bytes.
  predicate Text(s: seq<byte>) {
    forall i | 0 <= i < |s| :: s[i] != 0
  }

  // What reading through the pointer finds, the terminator included.
  function At(s: seq<byte>, i: nat): byte
    requires i <= |s|
  {
    if i < |s| then s[i] else 0
  }

  function Lower(c: byte): byte {
    if 0x41 <= c <= 0x5A then c + 32 else c
  }

  function Folded(s: seq<byte>): (r: seq<byte>)
    ensures |r| == |s|
  {
    seq(|s|, i requires 0 <= i < |s| => Lower(s[i]))
  }

  // The same byte, or one ASCII letter in its two cases.
  predicate SameLetter(a: byte, b: byte) {
    a == b || (0x41 <= a <= 0x5A && b == a + 0x20) || (0x41 <= b <= 0x5A && a == b + 0x20)
  }

  predicate SameLetters(a: seq<byte>, b: seq<byte>) {
    |a| == |b| && forall i | 0 <= i < |a| :: SameLetter(a[i], b[i])
  }

  lemma LowerFolds(a: byte, b: byte)
    ensures Lower(a) == Lower(b) <==> SameLetter(a, b)
  {
  }

  // Folding is what makes exactly the same letters equal.
  lemma FoldedFolds(a: seq<byte>, b: seq<byte>)
    ensures Folded(a) == Folded(b) <==> SameLetters(a, b)
  {
    hide Lower, SameLetter;
    if Folded(a) == Folded(b) {
      assert |a| == |Folded(a)| == |b|;
      forall i | 0 <= i < |a|
        ensures SameLetter(a[i], b[i])
      {
        LowerFolds(a[i], b[i]);
        assert Lower(a[i]) == Folded(a)[i] == Folded(b)[i] == Lower(b[i]);
      }
    }
    if SameLetters(a, b) {
      forall i | 0 <= i < |a|
        ensures Folded(a)[i] == Folded(b)[i]
      {
        LowerFolds(a[i], b[i]);
      }
    }
  }

  function Take(s: seq<byte>, n: nat): seq<byte> {
    if n < |s| then s[..n] else s
  }

  // FileString_StrCmpNoCase: zero exactly when the first n characters agree up
  // to case.
  method StrCmpNoCase(s1: seq<byte>, s2: seq<byte>, n: nat) returns (diff: int)
    requires Text(s1) && Text(s2)
    ensures diff == 0 <==> Folded(Take(s1, n)) == Folded(Take(s2, n))
    ensures diff == 0 <==> SameLetters(Take(s1, n), Take(s2, n))
  {
    FoldedFolds(Take(s1, n), Take(s2, n));
    hide SameLetters;
    var i := 0;
    while i < n
      invariant 0 <= i <= n && i <= |s1| && i <= |s2|
      invariant forall k | 0 <= k < i :: Lower(s1[k]) == Lower(s2[k])
    {
      var a, b := At(s1, i), At(s2, i);
      diff := Lower(a) as int - Lower(b) as int;
      if diff != 0 {
        Differs(s1, s2, n, i);
        return;
      }
      if a == 0 || b == 0 {
        break;
      }
      i := i + 1;
    }
    diff := 0;
    assert Folded(Take(s1, n)) == Folded(Take(s2, n));
  }

  lemma Differs(s1: seq<byte>, s2: seq<byte>, n: nat, i: nat)
    requires Text(s1) && Text(s2) && i < n && i <= |s1| && i <= |s2| && Lower(At(s1, i)) != Lower(At(s2, i))
    ensures Folded(Take(s1, n)) != Folded(Take(s2, n))
  {
    var f, g := Folded(Take(s1, n)), Folded(Take(s2, n));
    if i < |s1| && i < |s2| {
      assert f[i] == Lower(s1[i]) && g[i] == Lower(s2[i]);
    } else {
      assert |f| != |g|;
    }
  }

  // The place of the last dot, if any.
  function LastDot(s: seq<byte>): (p: int)
    ensures -1 <= p < |s|
    ensures p >= 0 ==> s[p] == DOT
    ensures forall i | 0 <= i < |s| && p < i :: s[i] != DOT
  {
    if s == [] then -1
    else if s[|s| - 1] == DOT then |s| - 1
    else LastDot(s[..|s| - 1])
  }

  lemma LastDotIs(s: seq<byte>, p: int)
    requires -1 <= p < |s| && (p >= 0 ==> s[p] == DOT) && forall i | 0 <= i < |s| && p < i :: s[i] != DOT
    ensures LastDot(s) == p
  {
    var q := LastDot(s);
    assert q >= 0 ==> s[q] == DOT;
  }

  // FileString_GetExtension.
  method GetExtension(s: seq<byte>) returns (dotPos: int)
    requires Text(s)
    ensures dotPos == LastDot(s)
  {
    dotPos := -1;
    var i := 0;
    while At(s, i) != 0
      invariant 0 <= i <= |s| && -1 <= dotPos < i
      invariant dotPos >= 0 ==> s[dotPos] == DOT
      invariant forall k | 0 <= k < i && dotPos < k :: s[k] != DOT
      decreases |s| - i
    {
      if s[i] == DOT {
        dotPos := i;
      }
      i := i + 1;
    }
    LastDotIs(s, dotPos);
  }

  function Trimmed(s: seq<byte>): (r: seq<byte>)
    ensures |r| <= |s| && r == s[..|r|]
    ensures r != [] ==> r[|r| - 1] != SPACE
    ensures forall i | |r| <= i < |s| :: s[i] == SPACE
  {
    if s != [] && s[|s| - 1] == SPACE then Trimmed(s[..|s| - 1]) else s
  }

  // FileString_TrimLength.
  method TrimLength(s: seq<byte>, strLen: nat) returns (length: nat)
    requires strLen <= |s|
    ensures length == |Trimmed(s[..strLen])|
  {
    length := strLen;
    var left := strLen;
    while left != 0
      invariant 0 <= left == length <= strLen
      invariant Trimmed(s[..strLen]) == Trimmed(s[..left])
    {
      if s[left - 1] == SPACE {
        length := left - 1;
      } else {
        break;
      }
      assert s[..left][..left - 1] == s[..left - 1];
      left := left - 1;
    }
  }

  datatype Option<T> = None | Some(value: T)

  // The part before the last dot without trailing spaces, and the part after
  // it, both in lower case.
  datatype Normal = Normal(base: seq<byte>, extension: Option<seq<byte>>)

  function Base(s: seq<byte>): seq<byte> {
    if LastDot(s) >= 0 then s[..LastDot(s)] else s
  }

  function NormalForm(s: seq<byte>): Normal {
    Normal(Folded(Trimmed(Base(s))), if LastDot(s) >= 0 then Some(Folded(s[LastDot(s) + 1..])) else None)
  }

  function Spaces(n: nat): (r: seq<byte>)
    ensures |r| == n
  {
    seq(n, _ => SPACE)
  }

  // A name taken apart: what comes before trailing spaces and the last dot,
  // and what comes after it.
  predicate IsSplit(s: seq<byte>, base: seq<byte>, spaces: nat, extension: Option<seq<byte>>) {
    && (base == [] || base[|base| - 1] != SPACE)
    && match extension
       case None => DOT !in base && s == base + Spaces(spaces)
       case Some(e) => DOT !in e && s == base + Spaces(spaces) + [DOT] + e
  }

  predicate SameExtensions(a: Option<seq<byte>>, b: Option<seq<byte>>) {
    if a.Some? && b.Some? then SameLetters(a.value, b.value) else a == b
  }

  lemma TrimmedIs(base: seq<byte>, spaces: nat)
    requires base == [] || base[|base| - 1] != SPACE
    ensures Trimmed(base + Spaces(spaces)) == base
  {
    var s := base + Spaces(spaces);
    var r := Trimmed(s);
    assert base != [] ==> s[|base| - 1] != SPACE;
    assert forall i | |base| <= i < |s| :: s[i] == SPACE;
  }

  lemma SplitPlaces(s: seq<byte>, base: seq<byte>, spaces: nat, extension: Option<seq<byte>>)
    requires IsSplit(s, base, spaces, extension)
    ensures LastDot(s) == if extension.Some? then |base| + spaces else -1
    ensures extension.None? ==> s == base + Spaces(spaces)
    ensures extension.Some? ==> s[..|base| + spaces] == base + Spaces(spaces) && s[|base| + spaces + 1..] == extension.value
  {
    var head := base + Spaces(spaces);
    match extension
    case None =>
      assert forall i | 0 <= i < |s| :: s[i] != DOT;
      LastDotIs(s, -1);
    case Some(e) =>
      assert forall i | |head| < i < |s| :: s[i] == e[i - |head| - 1];
      LastDotIs(s, |head|);
  }

  // Every name can be taken apart in one way only, and its normal form is that
  // of the parts.
  lemma NormalOfSplit(s: seq<byte>, base: seq<byte>, spaces: nat, extension: Option<seq<byte>>)
    requires IsSplit(s, base, spaces, extension)
    ensures NormalForm(s) == Normal(Folded(base), if extension.Some? then Some(Folded(extension.value)) else None)
  {
    SplitPlaces(s, base, spaces, extension);
    TrimmedIs(base, spaces);
    hide Trimmed, Folded, LastDot, Spaces;
  }

  lemma SplitExists(s: seq<byte>) returns (base: seq<byte>, spaces: nat, extension: Option<seq<byte>>)
    ensures IsSplit(s, base, spaces, extension)
  {
    hide LastDot, Trimmed, IsSplit;
    var head := Base(s);
    base := Trimmed(head);
    spaces := |head| - |base|;
    SpacesBehind(head, base);
    var p := LastDot(s);
    if p >= 0 {
      DottedSplit(s, p, base, spaces);
      extension := Some(s[p + 1..]);
    } else {
      PlainSplit(s, base, spaces);
      extension := None;
    }
  }

  lemma SpacesBehind(head: seq<byte>, base: seq<byte>)
    requires |base| <= |head| && base == head[..|base|] && forall i | |base| <= i < |head| :: head[i] == SPACE
    ensures head == base + Spaces(|head| - |base|)
  {
    assert head[|base|..] == Spaces(|head| - |base|);
  }

  lemma PlainSplit(s: seq<byte>, base: seq<byte>, spaces: nat)
    requires (base == [] || base[|base| - 1] != SPACE) && s == base + Spaces(spaces)
    requires forall i | 0 <= i < |s| :: s[i] != DOT
    ensures IsSplit(s, base, spaces, None)
  {
    assert forall i | 0 <= i < |base| :: base[i] == s[i];
  }

  lemma DottedSplit(s: seq<byte>, p: nat, base: seq<byte>, spaces: nat)
    requires (base == [] || base[|base| - 1] != SPACE) && p < |s| && s[..p] == base + Spaces(spaces)
    requires s[p] == DOT && forall i | p < i < |s| :: s[i] != DOT
    ensures IsSplit(s, base, spaces, Some(s[p + 1..]))
  {
    var e := s[p + 1..];
    assert forall i | 0 <= i < |e| :: e[i] == s[p + 1 + i];
    assert s == s[..p] + [DOT] + s[p + 1..];
  }

  // Two names have one normal form exactly when their parts agree letter by
  // letter up to case, trailing spaces of the base aside.
  lemma SameNormal(s: seq<byte>, base: seq<byte>, spaces: nat, extension: Option<seq<byte>>,
                   s': seq<byte>, base': seq<byte>, spaces': nat, extension': Option<seq<byte>>)
    requires IsSplit(s, base, spaces, extension) && IsSplit(s', base', spaces', extension')
    ensures NormalForm(s) == NormalForm(s') <==> SameLetters(base, base') && SameExtensions(extension, extension')
  {
    hide IsSplit, SameLetters, Folded, NormalForm;
    NormalOfSplit(s, base, spaces, extension);
    NormalOfSplit(s', base', spaces', extension');
    FoldedFolds(base, base');
    if extension.Some? && extension'.Some? {
      FoldedFolds(extension.value, extension'.value);
    }
  }

  // Names that differ in the case of letters alone compare equal.
  lemma CaseAside(a: seq<byte>, b: seq<byte>)
    requires SameLetters(a, b)
    ensures NormalForm(a) == NormalForm(b)
  {
    var p, q := LastDot(a), LastDot(b);
    assert forall i | 0 <= i < |a| :: a[i] == DOT <==> b[i] == DOT;
    assert p == q by {
      LastDotIs(b, p);
    }
    SameTrim(Base(a), Base(b));
    FoldedFolds(Trimmed(Base(a)), Trimmed(Base(b)));
    if p >= 0 {
      FoldedFolds(a[p + 1..], b[p + 1..]);
    }
  }

  lemma CaseIsAside(a: seq<byte>, b: seq<byte>)
    ensures SameLetters(a, b) ==> NormalForm(a) == NormalForm(b)
  {
    if SameLetters(a, b) {
      CaseAside(a, b);
    }
  }

  lemma SameTrim(a: seq<byte>, b: seq<byte>)
    requires SameLetters(a, b)
    ensures SameLetters(Trimmed(a), Trimmed(b))
  {
    var m, n := |Trimmed(a)|, |Trimmed(b)|;
    assert forall i | 0 <= i < |a| :: a[i] == SPACE <==> b[i] == SPACE;
    assert m > 0 ==> Trimmed(a)[m - 1] == a[m - 1];
    assert n > 0 ==> Trimmed(b)[n - 1] == b[n - 1];
  }

  // fatfs_compare_names decides equality of normal forms, so it is an
  // equivalence.
  method CompareNames(strA: seq<byte>, strB: seq<byte>) returns (same: bool)
    requires Text(strA) && Text(strB)
    ensures same <==> NormalForm(strA) == NormalForm(strB)
    ensures SameLetters(strA, strB) ==> same
  {
    hide LastDot, Trimmed, Folded, Take, Text, SameLetters;
    CaseIsAside(strA, strB);
    var ext1Pos := GetExtension(strA);
    var ext2Pos := GetExtension(strB);
    if ext1Pos == -1 && ext2Pos != -1 {
      return false;
    }
    if ext2Pos == -1 && ext1Pos != -1 {
      return false;
    }
    var file1Len: nat, file2Len: nat := |strA|, |strB|;
    if ext1Pos != -1 {
      var equal := SameExtension(strA, strB, ext1Pos + 1, ext2Pos + 1);
      if !equal {
        return false;
      }
      file1Len, file2Len := ext1Pos, ext2Pos;
    }
    Bases(strA);
    Bases(strB);
    same := SameBase(strA, strB, file1Len, file2Len);
  }

  lemma Bases(s: seq<byte>)
    ensures Base(s) == s[..if LastDot(s) >= 0 then LastDot(s) else |s|]
  {
  }

  // The comparison of the extensions, lengths first.
  method SameExtension(strA: seq<byte>, strB: seq<byte>, a: nat, b: nat) returns (same: bool)
    requires Text(strA) && Text(strB) && a <= |strA| && b <= |strB|
    ensures same <==> Folded(strA[a..]) == Folded(strB[b..])
  {
    hide Folded;
    var ext1, ext2 := strA[a..], strB[b..];
    if |ext1| != |ext2| {
      assert |Folded(ext1)| != |Folded(ext2)|;
      return false;
    }
    var diff := StrCmpNoCase(ext1, ext2, |ext1|);
    assert Take(ext1, |ext1|) == ext1 && Take(ext2, |ext1|) == ext2;
    same := diff == 0;
  }

  // The comparison of the parts before, without their trailing spaces.
  method SameBase(strA: seq<byte>, strB: seq<byte>, a: nat, b: nat) returns (same: bool)
    requires Text(strA) && Text(strB) && a <= |strA| && b <= |strB|
    ensures same <==> Folded(Trimmed(strA[..a])) == Folded(Trimmed(strB[..b]))
  {
    hide Folded, Trimmed;
    var file1Len := TrimLength(strA, a);
    var file2Len := TrimLength(strB, b);
    if file1Len != file2Len {
      assert |Folded(Trimmed(strA[..a]))| != |Folded(Trimmed(strB[..b]))|;
      return false;
    }
    var diff := StrCmpNoCase(strA, strB, file1Len);
    assert Take(strA, file1Len) == Trimmed(strA[..a]) && Take(strB, file1Len) == Trimmed(strB[..b]);
    same := diff == 0;
  }
}
