// Short names and their numbered tails (fat_misc.c:285-401), and the search for
// an unused one when a file is created (fat_filelib.c:460-491;
// fat_access.c:513-558).
module ShortNames {
  import opened Arith
  import opened Bytes
  import opened Sequences
  import opened FatWindows
  import opened FileLayout
  import opened DirSlots
  import CompareNames
  import Directory
  import FatTable
  import Lfn

  const DOT := 0x2E
  const SPACE := 0x20
  const TILDE := 0x7E
  const ZERO := 0x30
  const FULL := 11
  const PARTIAL := 8

  // ------------------------------------------------------------ the base name

  function Upper(c: byte): byte {
    if 0x61 <= c <= 0x7A then c - 32 else c
  }

  // The characters of s that a short name keeps.
  function Squeezed(s: seq<byte>): (r: seq<byte>)
    ensures |r| <= |s|
  {
    if s == [] then []
    else
      var rest, c := Squeezed(s[..|s| - 1]), s[|s| - 1];
      if c == SPACE || c == DOT then rest else rest + [Upper(c)]
  }

  // The first n of s, in n places.
  function Padded(s: seq<byte>, n: nat): (r: seq<byte>)
    ensures |r| == n
  {
    seq(n, i requires 0 <= i < n => if i < |s| then s[i] else SPACE)
  }

  function Uppered(s: seq<byte>): (r: seq<byte>)
    ensures |r| == |s|
  {
    seq(|s|, i requires 0 <= i < |s| => Upper(s[i]))
  }

  function Stem(name: seq<byte>): seq<byte> {
    if CompareNames.LastDot(name) >= 0 then name[..CompareNames.LastDot(name)] else name
  }

  function Extension(name: seq<byte>): seq<byte> {
    if CompareNames.LastDot(name) >= 0 then name[CompareNames.LastDot(name) + 1..] else []
  }

  // Eight places of the stem without blanks and dots, three of the extension,
  // in upper case.
  function SfnOf(name: seq<byte>): (r: seq<byte>)
    ensures |r| == FULL
  {
    Padded(Squeezed(Stem(name)), PARTIAL) + Padded(Uppered(Extension(name)), 3)
  }

  lemma {:induction false} SqueezedGrows(s: seq<byte>, i: nat)
    requires i <= |s|
    ensures Squeezed(s[..i]) <= Squeezed(s)
    decreases |s| - i
  {
    if i == |s| {
      assert s[..i] == s;
    } else {
      assert s[..i + 1][..i] == s[..i];
      SqueezedGrows(s, i + 1);
    }
  }

  // Neither a terminator nor a lower-case letter.
  predicate UpperText(s: seq<byte>) {
    forall i | 0 <= i < |s| :: s[i] != 0 && !(0x61 <= s[i] <= 0x7A)
  }

  lemma {:induction false} SqueezedIsUpper(s: seq<byte>)
    requires CompareNames.Text(s)
    ensures UpperText(Squeezed(s))
  {
    if s != [] { SqueezedIsUpper(s[..|s| - 1]); }
  }

  lemma PaddedIsUpper(s: seq<byte>, n: nat)
    requires UpperText(s)
    ensures UpperText(Padded(s, n))
  {
  }

  lemma UpperedIsUpper(s: seq<byte>)
    requires CompareNames.Text(s)
    ensures UpperText(Uppered(s))
  {
  }

  lemma UpperConcat(a: seq<byte>, b: seq<byte>)
    requires UpperText(a) && UpperText(b)
    ensures UpperText(a + b)
  {
  }

  // A short name made from a C string has neither.
  lemma SfnIsUpper(name: seq<byte>)
    requires CompareNames.Text(name)
    ensures UpperText(SfnOf(name))
  {
    hide Squeezed, Uppered, Padded, UpperText;
    assert CompareNames.Text(Stem(name)) && CompareNames.Text(Extension(name));
    SqueezedIsUpper(Stem(name));
    PaddedIsUpper(Squeezed(Stem(name)), PARTIAL);
    UpperedIsUpper(Extension(name));
    PaddedIsUpper(Uppered(Extension(name)), 3);
    UpperConcat(Padded(Squeezed(Stem(name)), PARTIAL), Padded(Uppered(Extension(name)), 3));
  }

  lemma {:induction false} SqueezedAdds(s: seq<byte>, t: seq<byte>)
    ensures Squeezed(s + t) == Squeezed(s) + Squeezed(t)
    decreases |t|
  {
    if t == [] {
      assert s + t == s;
    } else {
      SqueezedAdds(s, t[..|t| - 1]);
      assert (s + t)[..|s + t| - 1] == s + t[..|t| - 1];
    }
  }

  lemma {:induction false} SqueezedSpaces(n: nat)
    ensures Squeezed(CompareNames.Spaces(n)) == []
  {
    if n > 0 {
      SqueezedSpaces(n - 1);
      assert CompareNames.Spaces(n)[..n - 1] == CompareNames.Spaces(n - 1);
    }
  }

  // Exactly the blanks and dots go; the rest are the same letters.
  lemma {:induction false} SqueezedKeeps(s: seq<byte>)
    ensures SPACE !in Squeezed(s) && DOT !in Squeezed(s)
    ensures |Squeezed(s)| == |s| <==> SPACE !in s && DOT !in s
    ensures |Squeezed(s)| == |s| ==> CompareNames.SameLetters(Squeezed(s), s)
  {
    if s != [] {
      SqueezedKeeps(s[..|s| - 1]);
      assert s == s[..|s| - 1] + [s[|s| - 1]];
    }
  }

  // One character: blanks and dots go, letters are in upper case.
  lemma SqueezedOne(c: byte)
    ensures c == 0x20 || c == 0x2E ==> Squeezed([c]) == []
    ensures c != 0x20 && c != 0x2E ==>
              |Squeezed([c])| == 1 && CompareNames.SameLetter(Squeezed([c])[0], c) && !(0x61 <= Squeezed([c])[0] <= 0x7A)
  {
    assert [c][..0] == [];
  }

  // Place by place: the kept characters of the base, then the extension's in
  // upper case, blanks elsewhere.
  lemma SfnAt(name: seq<byte>, base: seq<byte>, spaces: nat, extension: CompareNames.Option<seq<byte>>, i: nat)
    requires CompareNames.IsSplit(name, base, spaces, extension) && i < FULL
    ensures var r, e := SfnOf(name), if extension.Some? then extension.value else [];
            && (i < 8 ==> r[i] == if i < |Squeezed(base)| then Squeezed(base)[i] else 0x20)
            && (8 <= i < 8 + |e| ==> CompareNames.SameLetter(r[i], e[i - 8]) && !(0x61 <= r[i] <= 0x7A))
            && (8 + |e| <= i ==> r[i] == 0x20)
  {
    SfnParts(name, base, spaces, extension);
    hide SfnOf, Squeezed, CompareNames.IsSplit;
  }

  // What short name and text have in common: the first eight characters of the
  // base, and the extension's three places.
  lemma SfnParts(name: seq<byte>, base: seq<byte>, spaces: nat, extension: CompareNames.Option<seq<byte>>)
    requires CompareNames.IsSplit(name, base, spaces, extension)
    ensures SfnOf(name) == Padded(Squeezed(base), PARTIAL)
                           + Padded(Uppered(if extension.Some? then extension.value else []), 3)
  {
    CompareNames.SplitPlaces(name, base, spaces, extension);
    SqueezedAdds(base, CompareNames.Spaces(spaces));
    SqueezedSpaces(spaces);
    hide Squeezed, Padded, Uppered, CompareNames.LastDot, CompareNames.Spaces;
    assert Squeezed(base) + [] == Squeezed(base);
  }

  // fatfs_lfn_create_sfn, which refuses a leading dot.
  method CreateSfn(output: array<byte>, name: seq<byte>) returns (ok: bool)
    requires output.Length == FULL && CompareNames.Text(name)
    modifies output
    ensures ok <==> name == [] || name[0] != DOT
    ensures ok ==> output[..] == SfnOf(name)
    ensures !ok ==> output[..] == old(output[..])
  {
    if name != [] && name[0] == DOT {
      return false;
    }
    Fill(output, SPACE);
    var ext := new byte[3](_ => SPACE);
    var dotPos := LastDotOf(name);
    var len := |name|;
    if dotPos != -1 {
      CopyExtension(ext, name, dotPos);
      len := dotPos;
    }
    assert name[..len] == Stem(name);
    assert ext[..] == Padded(Extension(name), 3);
    FillStem(output, name, len);
    FillExtension(output, ext);
    UpperPadded(Extension(name), 3);
    ok := true;
  }

  lemma UpperPadded(s: seq<byte>, n: nat)
    ensures Uppered(Padded(s, n)) == Padded(Uppered(s), n)
  {
  }

  // The loop over the extension.
  method FillExtension(output: array<byte>, ext: array<byte>)
    requires output.Length == FULL && ext.Length == 3 && output != ext
    modifies output
    ensures output[..] == old(output[..PARTIAL]) + Uppered(ext[..])
  {
    var i := PARTIAL;
    while i < FULL
      invariant PARTIAL <= i <= FULL && output[..i] == old(output[..PARTIAL]) + Uppered(ext[..])[..i - PARTIAL]
    {
      output[i] := Upper(ext[i - PARTIAL]);
      assert output[..i + 1] == output[..i] + [Uppered(ext[..])[i - PARTIAL]];
      i := i + 1;
    }
    assert output[..i] == output[..];
  }

  method Fill(a: array<byte>, c: byte)
    modifies a
    ensures forall i | 0 <= i < a.Length :: a[i] == c
  {
    var i := 0;
    while i < a.Length
      invariant 0 <= i <= a.Length && forall k | 0 <= k < i :: a[k] == c
    {
      a[i] := c;
      i := i + 1;
    }
  }

  method LastDotOf(name: seq<byte>) returns (dotPos: int)
    ensures dotPos == CompareNames.LastDot(name)
  {
    dotPos := -1;
    var i := 0;
    while i < |name|
      invariant 0 <= i <= |name| && -1 <= dotPos < i
      invariant dotPos >= 0 ==> name[dotPos] == DOT
      invariant forall k | 0 <= k < i && dotPos < k :: name[k] != DOT
    {
      if name[i] == DOT {
        dotPos := i;
      }
      i := i + 1;
    }
    CompareNames.LastDotIs(name, dotPos);
  }

  method CopyExtension(ext: array<byte>, name: seq<byte>, dotPos: nat)
    requires ext.Length == 3 && dotPos < |name| && forall k | 0 <= k < 3 :: ext[k] == SPACE
    modifies ext
    ensures forall k | 0 <= k < 3 :: ext[k] == if k < |name[dotPos + 1..]| then name[dotPos + 1..][k] else SPACE
  {
    var i := dotPos + 1;
    while i < dotPos + 1 + 3
      invariant dotPos + 1 <= i <= dotPos + 4
      invariant forall k | 0 <= k < i - (dotPos + 1) ::
                  ext[k] == if k < |name[dotPos + 1..]| then name[dotPos + 1..][k] else SPACE
      invariant forall k | i - (dotPos + 1) <= k < 3 :: ext[k] == SPACE
    {
      if i < |name| {
        ext[i - (dotPos + 1)] := name[i];
      }
      i := i + 1;
    }
  }

  // The loop over the stem: kept characters in order, until eight are placed.
  method FillStem(output: array<byte>, name: seq<byte>, len: nat)
    requires output.Length == FULL && len <= |name| && forall k | 0 <= k < FULL :: output[k] == SPACE
    modifies output
    ensures output[..PARTIAL] == Padded(Squeezed(name[..len]), PARTIAL)
    ensures forall k | PARTIAL <= k < FULL :: output[k] == SPACE
  {
    var pos, i := 0, 0;
    while i < len
      invariant 0 <= i <= len && 0 <= pos < PARTIAL && pos == |Squeezed(name[..i])|
      invariant forall k | 0 <= k < pos :: output[k] == Squeezed(name[..i])[k]
      invariant forall k | pos <= k < FULL :: output[k] == SPACE
    {
      assert name[..i + 1][..i] == name[..i];
      if name[i] != SPACE && name[i] != DOT {
        output[pos] := Upper(name[i]);
        pos := pos + 1;
      }
      if pos == PARTIAL {
        assert name[..len][..i + 1] == name[..i + 1];
        SqueezedGrows(name[..len], i + 1);
        break;
      }
      i := i + 1;
    }
  }

  // ------------------------------------------------------------ tails

  // n in decimal.
  function Decimal(n: nat): (r: seq<byte>)
    ensures |r| > 0 && forall i | 0 <= i < |r| :: ZERO <= r[i] <= ZERO + 9
  {
    if n < 10 then [ZERO + n] else Decimal(n / 10) + [ZERO + n % 10]
  }

  function Value(s: seq<byte>): nat
    requires forall i | 0 <= i < |s| :: ZERO <= s[i]
  {
    if s == [] then 0 else 10 * Value(s[..|s| - 1]) + (s[|s| - 1] - ZERO)
  }

  lemma {:induction false} DecimalReads(n: nat)
    ensures Value(Decimal(n)) == n
  {
    if n < 10 {
      assert Decimal(n)[..0] == [];
    } else {
      DecimalReads(n / 10);
      assert Decimal(n)[..|Decimal(n)| - 1] == Decimal(n / 10);
    }
  }

  lemma {:induction false} DecimalLength(n: nat, k: nat)
    requires n < Power(10, k) && k > 0
    ensures |Decimal(n)| <= k
    decreases k
  {
    PowerOne();
    if n >= 10 && k > 1 {
      DecimalLength(n / 10, k - 1);
    }
  }

  lemma PowerOne()
    ensures Power(10, 1) == 10
  {
  }

  function Power(b: nat, k: nat): nat {
    if k == 0 then 1 else b * Power(b, k - 1)
  }

  lemma TenDigits(n: nat)
    requires n < 0x1_0000_0000
    ensures |Decimal(n)| <= 10
  {
    assert Power(10, 5) == 100000;
    assert Power(10, 10) == 10_000_000_000;
    DecimalLength(n, 10);
  }

  lemma FiveDigits(n: nat)
    requires n <= 99999
    ensures |Decimal(n)| <= 5
  {
    assert Power(10, 5) == 100000;
    DecimalLength(n, 5);
  }

  function Reversed(s: seq<byte>): (r: seq<byte>)
    ensures |r| == |s|
  {
    seq(|s|, i requires 0 <= i < |s| => s[|s| - 1 - i])
  }

  // fatfs_itoa: digits backwards into a buffer, then copied forwards.
  method Itoa(num: nat) returns (s: seq<byte>)
    requires num < 0x1_0000_0000
    ensures s == Decimal(num)
  {
    TenDigits(num);
    var outbuf := new byte[12](_ => 0);
    var cp := 0;
    var n := num;
    ghost var rest: nat := num;
    outbuf[cp] := ZERO + n % 10;
    cp := cp + 1;
    n := n / 10;
    while n > 0
      invariant 1 <= cp <= 10 && n == rest / 10
      invariant Decimal(num) == (if n > 0 then Decimal(n) else []) + Reversed(outbuf[..cp])
      decreases n
    {
      rest := n;
      ghost var before := outbuf[..cp];
      outbuf[cp] := ZERO + n % 10;
      assert outbuf[..cp + 1] == before + [ZERO + n % 10];
      assert Reversed(outbuf[..cp + 1]) == [ZERO + n % 10] + Reversed(before);
      assert Decimal(n) == (if n / 10 > 0 then Decimal(n / 10) else []) + [ZERO + n % 10];
      cp := cp + 1;
      n := n / 10;
    }
    s := [];
    var p := cp;
    while p > 0
      invariant 0 <= p <= cp && s == Reversed(outbuf[..cp])[..cp - p]
    {
      p := p - 1;
      s := s + [outbuf[p]];
    }
  }

  // A base name with tail n, right-aligned at the eighth place.
  function Tailed(base: seq<byte>, n: nat): (r: seq<byte>)
    requires |base| == FULL && n <= 99999
    ensures |r| == FULL
  {
    FiveDigits(n);
    base[..PARTIAL - 1 - |Decimal(n)|] + [TILDE] + Decimal(n) + base[PARTIAL..]
  }

  // A tilde and the number in decimal fill the columns up to the extension; what
  // stands before and the extension are the base's.
  lemma TailShape(base: seq<byte>, n: nat)
    requires |base| == FULL && n <= 99999
    ensures var t, d := Tailed(base, n), |Decimal(n)|;
            && 1 <= d <= 5 && t[..7 - d] == base[..7 - d] && t[7 - d] == 0x7E && t[8..] == base[8..]
            && (forall i | 8 - d <= i < 8 :: 0x30 <= t[i] <= 0x39) && Value(t[8 - d..8]) == n && (n > 0 ==> t[8 - d] != 0x30)
  {
    FiveDigits(n);
    DecimalReads(n);
    FirstDigit(n);
    var t, d := Tailed(base, n), |Decimal(n)|;
    hide Decimal, Value;
    assert t[8 - d..8] == Decimal(n);
    assert forall i | 8 - d <= i < 8 :: t[i] == Decimal(n)[i - (8 - d)];
  }

  lemma {:induction false} FirstDigit(n: nat)
    ensures n > 0 ==> Decimal(n)[0] != 0x30
  {
    if n >= 10 { FirstDigit(n / 10); }
  }

  // fatfs_lfn_generate_tail.
  method GenerateTail(output: array<byte>, base: seq<byte>, tailNum: nat) returns (ok: bool)
    requires output.Length == FULL && |base| == FULL
    modifies output
    ensures ok <==> tailNum <= 99999
    ensures ok ==> output[..] == Tailed(base, tailNum)
  {
    if tailNum > 99999 {
      return false;
    }
    FiveDigits(tailNum);
    var digits := Itoa(tailNum);
    var tail := [TILDE] + digits;
    var i := 0;
    while i < FULL
      invariant 0 <= i <= FULL && output[..i] == base[..i]
    {
      output[i] := base[i];
      i := i + 1;
    }
    var start := PARTIAL - |tail|;
    i := 0;
    while i < |tail|
      invariant 0 <= i <= |tail| && output[..] == base[..start] + tail[..i] + base[start + i..]
    {
      TailNext(base, start, tail, i);
      output[start + i] := tail[i];
      i := i + 1;
    }
    ok := true;
  }

  lemma TailNext(base: seq<byte>, start: nat, tail: seq<byte>, i: nat)
    requires i < |tail| && start + |tail| <= |base|
    ensures var s := base[..start] + tail[..i] + base[start + i..];
            |s| == |base| && s[start + i := tail[i]] == base[..start] + tail[..i + 1] + base[start + i + 1..]
  {
    var s := base[..start] + tail[..i] + base[start + i..];
    var t := base[..start] + tail[..i + 1] + base[start + i + 1..];
    assert |t| == |s| && t[start + i] == tail[i];
    assert forall k | 0 <= k < |s| && k != start + i :: t[k] == s[k];
  }

  // Different tails give different names.
  lemma TailsDiffer(base: seq<byte>, a: nat, b: nat)
    requires |base| == FULL && a <= 99999 && b <= 99999 && a != b
    ensures Tailed(base, a) != Tailed(base, b)
  {
    FiveDigits(a);
    FiveDigits(b);
    if |Decimal(a)| < |Decimal(b)| {
      ShorterTail(base, a, b);
    } else if |Decimal(b)| < |Decimal(a)| {
      ShorterTail(base, b, a);
    } else {
      var from := PARTIAL - |Decimal(a)|;
      assert Tailed(base, a)[from..PARTIAL] == Decimal(a) && Tailed(base, b)[from..PARTIAL] == Decimal(b);
      DecimalReads(a);
      DecimalReads(b);
    }
  }

  lemma ShorterTail(base: seq<byte>, a: nat, b: nat)
    requires |base| == FULL && a <= 99999 && b <= 99999 && |Decimal(a)| < |Decimal(b)|
    ensures Tailed(base, a) != Tailed(base, b)
  {
    FiveDigits(b);
    var p := PARTIAL - 1 - |Decimal(a)|;
    assert Tailed(base, a)[p] == TILDE;
    assert Tailed(base, b)[p] == Decimal(b)[p - (PARTIAL - |Decimal(b)|)];
  }

  // ------------------------------------------------------------ the search

  // The name tried at the k-th attempt.
  function Candidate(base: seq<byte>, k: nat): (r: seq<byte>)
    requires |base| == FULL && k <= 99999
    ensures |r| == FULL
  {
    if k == 0 then base else Tailed(base, k)
  }

  // ------------------------------------------------------------ as compared

  // The short names a directory lists, up to the first zero byte, which is as
  // far as they are compared.
  ghost function Names(slots: seq<Slot>): set<seq<byte>> {
    set k | 0 <= k < |slots| && Shown(slots[k]) :: Lfn.CString(slots[k][..FULL])
  }

  // What is compared of a candidate.
  function Compared(base: seq<byte>, k: nat): seq<byte>
    requires |base| == FULL && k <= 99999
  {
    Lfn.CString(Candidate(base, k))
  }

  // The part of the base before the tail.
  function Kept(base: seq<byte>, n: nat): seq<byte>
    requires |base| == FULL && n <= 99999
  {
    FiveDigits(n);
    base[..PARTIAL - 1 - |Decimal(n)|]
  }

  // A zero byte before the tail hides it; otherwise the tail is compared.
  lemma TailCompared(base: seq<byte>, n: nat)
    requires |base| == FULL && 0 < n <= 99999
    ensures 0 in Kept(base, n) ==> Compared(base, n) == Lfn.CString(base)
    ensures 0 !in Kept(base, n) ==> Compared(base, n) == Tailed(base, n)[..PARTIAL] + Lfn.CString(base[PARTIAL..])
  {
    FiveDigits(n);
    TailedParts(base, n);
    hide Tailed, Decimal, Lfn.CString;
    if 0 in Kept(base, n) {
      ZeroBefore(base, Tailed(base, n), |Kept(base, n)|);
    } else {
      ZeroAfter(base, Tailed(base, n));
    }
  }

  lemma TailedParts(base: seq<byte>, n: nat)
    requires |base| == FULL && n <= 99999
    ensures var t, kept := Tailed(base, n), Kept(base, n);
            && kept == base[..|kept|] == t[..|kept|] && t[PARTIAL..] == base[PARTIAL..]
            && (0 !in kept ==> 0 !in t[..PARTIAL])
  {
    FiveDigits(n);
    var t, kept := Tailed(base, n), Kept(base, n);
    assert t[..PARTIAL] == kept + [TILDE] + Decimal(n);
  }

  // Strings that agree up to a zero byte are the same.
  lemma ZeroBefore(s: seq<byte>, t: seq<byte>, p: nat)
    requires |s| == |t| && p <= |s| && s[..p] == t[..p] && 0 in s[..p]
    ensures Lfn.CString(t) == Lfn.CString(s)
  {
    var z := |Lfn.CString(s)|;
    var q :| 0 <= q < p && s[..p][q] == 0;
    assert s[q] == 0;
    assert forall i | 0 <= i < p :: t[i] == s[..p][i] == s[i];
    Lfn.CStringAt(t, z);
    assert t[..z] == s[..z];
  }

  // A string without a zero byte in front of what it shares with the base.
  lemma ZeroAfter(base: seq<byte>, t: seq<byte>)
    requires |base| == |t| == FULL && t[PARTIAL..] == base[PARTIAL..] && 0 !in t[..PARTIAL]
    ensures Lfn.CString(t) == t[..PARTIAL] + Lfn.CString(base[PARTIAL..])
  {
    var back := base[PARTIAL..];
    var n := |Lfn.CString(back)|;
    assert forall i | PARTIAL <= i < FULL :: t[i] == back[i - PARTIAL];
    assert forall i | 0 <= i < PARTIAL :: t[..PARTIAL][i] == t[i];
    Lfn.CStringAt(t, PARTIAL + n);
    assert t[..PARTIAL + n] == t[..PARTIAL] + back[..n];
  }

  // Tails that are compared are told apart.
  lemma ComparedDiffer(base: seq<byte>, a: nat, b: nat)
    requires |base| == FULL && 0 < a <= 99999 && 0 < b <= 99999 && a != b
    requires 0 !in Kept(base, a) && 0 !in Kept(base, b)
    ensures Compared(base, a) != Compared(base, b)
  {
    hide Compared, Tailed, Kept, Lfn.CString;
    TailCompared(base, a);
    TailCompared(base, b);
    TailsDiffer(base, a, b);
    SamePartial(base, a);
    SamePartial(base, b);
    SamePrefix(Tailed(base, a)[..PARTIAL], Tailed(base, b)[..PARTIAL], Lfn.CString(base[PARTIAL..]));
  }

  lemma SamePrefix(s: seq<byte>, t: seq<byte>, rest: seq<byte>)
    requires |s| == |t|
    ensures s + rest == t + rest ==> s == t
  {
    assert (s + rest)[..|s|] == s && (t + rest)[..|s|] == t;
  }

  lemma SamePartial(base: seq<byte>, n: nat)
    requires |base| == FULL && n <= 99999
    ensures Tailed(base, n) == Tailed(base, n)[..PARTIAL] + base[PARTIAL..]
  {
    FiveDigits(n);
  }

  // The first tail that no zero byte of the base hides.
  function FirstTelling(base: seq<byte>): (m: nat)
    requires |base| == FULL
    ensures 1 <= m <= ATTEMPTS
  {
    if 0 !in base[..6] then 1
    else if 0 !in base[..5] then 10
    else if 0 !in base[..4] then 100
    else if 0 !in base[..3] then 1000
    else ATTEMPTS
  }

  lemma DigitsAtLeast(n: nat)
    requires n <= 99999
    ensures n >= 10 ==> |Decimal(n)| >= 2
    ensures n >= 100 ==> |Decimal(n)| >= 3
    ensures n >= 1000 ==> |Decimal(n)| >= 4
  {
    if n >= 10 {
      DigitsAtLeast(n / 10);
    }
  }

  lemma TellingIsCompared(base: seq<byte>, n: nat)
    requires |base| == FULL && FirstTelling(base) <= n < ATTEMPTS
    ensures 0 !in Kept(base, n)
  {
    DigitsAtLeast(n);
    FiveDigits(n);
    var d := |Decimal(n)|;
    var p := if FirstTelling(base) == 1 then 6 else if FirstTelling(base) == 10 then 5 else if FirstTelling(base) == 100 then 4 else 3;
    assert Kept(base, n) <= base[..p];
  }

  // What is compared of the names with tails m to n.
  ghost function Tails(base: seq<byte>, m: nat, n: nat): set<seq<byte>>
    requires |base| == FULL && n <= 99999
  {
    if n < m || n == 0 then {} else Tails(base, m, n - 1) + {Compared(base, n)}
  }

  ghost predicate IsTail(base: seq<byte>, m: nat, n: nat, r: seq<byte>)
    requires |base| == FULL && n <= 99999
  {
    exists k: nat :: m <= k <= n && r == Compared(base, k)
  }

  // From the first telling one on they are all different.
  lemma {:induction false} TailsAreMany(base: seq<byte>, m: nat, n: nat)
    requires |base| == FULL && FirstTelling(base) <= m <= n + 1 <= ATTEMPTS
    ensures |Tails(base, m, n)| == n + 1 - m
    ensures forall r | r in Tails(base, m, n) :: IsTail(base, m, n, r)
    decreases n
  {
    hide Compared, FirstTelling;
    if m <= n && n > 0 {
      TailsAreMany(base, m, n - 1);
      LastTailIsNew(base, m, n);
      assert forall r | r in Tails(base, m, n - 1) :: IsTail(base, m, n - 1, r) ==> IsTail(base, m, n, r);
    }
  }

  lemma LastTailIsNew(base: seq<byte>, m: nat, n: nat)
    requires |base| == FULL && FirstTelling(base) <= m <= n < ATTEMPTS && n > 0
    ensures !IsTail(base, m, n - 1, Compared(base, n))
  {
    hide Compared, Kept;
    TellingIsCompared(base, n);
    forall k: nat | m <= k <= n - 1
      ensures Compared(base, n) != Compared(base, k)
    {
      TellingIsCompared(base, k);
      ComparedDiffer(base, n, k);
    }
  }

  // A set that holds every tail holds the set of them.
  lemma {:induction false} TailsWithin(base: seq<byte>, names: set<seq<byte>>, m: nat, n: nat)
    requires |base| == FULL && n <= 99999 && 0 < m && forall k: nat | m <= k <= n :: Compared(base, k) in names
    ensures Tails(base, m, n) <= names
    decreases n
  {
    hide Compared;
    if m <= n { TailsWithin(base, names, m, n - 1); }
  }

  // They are at most as many as their numbers.
  lemma {:induction false} TailsAreFew(base: seq<byte>, m: nat, n: nat)
    requires |base| == FULL && n <= 99999 && 0 < m <= n + 1
    ensures |Tails(base, m, n)| <= n + 1 - m
    ensures forall k | m <= k <= n :: Compared(base, k) in Tails(base, m, n)
    decreases n
  {
    hide Compared;
    if m <= n { TailsAreFew(base, m, n - 1); }
  }

  const ATTEMPTS := 9999

  // The directory has a name that compares equal to every candidate.
  ghost predicate AllHeld(base: seq<byte>, names: set<seq<byte>>)
    requires |base| == FULL
  {
    forall k: nat | k < ATTEMPTS :: Compared(base, k) in names
  }

  // The tails are pigeons: a directory that holds every candidate holds at
  // least as many short names as there are tails told apart.
  lemma HeldAreMany(base: seq<byte>, names: set<seq<byte>>)
    requires |base| == FULL && AllHeld(base, names)
    ensures |names| >= ATTEMPTS - FirstTelling(base)
  {
    hide Compared;
    var m := FirstTelling(base);
    TailsWithin(base, names, m, ATTEMPTS - 1);
    TailsAreMany(base, m, ATTEMPTS - 1);
    SubsetIsSmaller(Tails(base, m, ATTEMPTS - 1), names);
  }

  // A zero byte among the first six places hides the one-digit tails.
  lemma HiddenTails(base: seq<byte>, k: nat)
    requires |base| == FULL && 0 in base[..6] && k < 10
    ensures Compared(base, k) == Lfn.CString(base)
  {
    if k > 0 {
      TailCompared(base, k);
      assert Kept(base, k) == base[..6];
    }
  }

  // Fewer than 9998 short names leave a candidate free in every directory
  // exactly when the base has no zero byte among its first six.
  lemma AlwaysFree(base: seq<byte>)
    requires |base| == FULL
    ensures (forall names | |names| < 9998 :: !AllHeld(base, names)) <==> 0 !in base[..6]
  {
    if 0 !in base[..6] {
      forall names | |names| < 9998
        ensures !AllHeld(base, names)
      {
        if AllHeld(base, names) {
          HeldAreMany(base, names);
        }
      }
    } else {
      hide Compared;
      var names := {Lfn.CString(base)} + Tails(base, 10, ATTEMPTS - 1);
      TailsAreFew(base, 10, ATTEMPTS - 1);
      forall k: nat | k < ATTEMPTS
        ensures Compared(base, k) in names
      {
        if k < 10 { HiddenTails(base, k); }
      }
      UnionIsSmall(Lfn.CString(base), Tails(base, 10, ATTEMPTS - 1));
      assert AllHeld(base, names);
    }
  }

  lemma UnionIsSmall(x: seq<byte>, s: set<seq<byte>>)
    ensures |{x} + s| <= |s| + 1
  {
    if x in s {
      assert {x} + s == s;
    }
  }

  // A zero byte among the first three makes all candidates compare alike.
  lemma AllAlike(base: seq<byte>, k: nat)
    requires |base| == FULL && 0 in base[..3] && k < ATTEMPTS
    ensures Compared(base, k) == Lfn.CString(base)
  {
    if k > 0 {
      assert Power(10, 4) == 10000;
      DecimalLength(k, 4);
      TailCompared(base, k);
      assert base[..3] <= Kept(base, k);
    }
  }

  // So one short name can be enough to make creation fail: a stale base that
  // starts AB and a zero byte, in a directory that lists such a name.
  lemma StaleBase()
    ensures var base := [0x41, 0x42, 0] + seq(8, _ => SPACE);
            AllHeld(base, {[0x41, 0x42]})
  {
    var base := [0x41, 0x42, 0] + seq(8, _ => SPACE);
    assert base[..3][2] == 0;
    Lfn.CStringAt(base, 2);
    assert base[..2] == [0x41, 0x42];
    forall k: nat | k < ATTEMPTS
      ensures Compared(base, k) == [0x41, 0x42]
    {
      AllAlike(base, k);
    }
  }

  lemma AlikeHeld(base: seq<byte>, names: set<seq<byte>>)
    requires |base| == FULL && 0 in base[..3]
    ensures AllHeld(base, names) <==> Lfn.CString(base) in names
  {
    hide Compared;
    forall k: nat | k < ATTEMPTS
      ensures Compared(base, k) == Lfn.CString(base)
    {
      AllAlike(base, k);
    }
    assert Compared(base, 0) == Lfn.CString(base);
  }

  // What the short name buffer holds when the caller ignores that a leading
  // dot was refused.
  function BaseOf(name: seq<byte>, stale: seq<byte>): (r: seq<byte>)
    requires |stale| == FULL
    ensures |r| == FULL
  {
    if name != [] && name[0] == DOT then stale else SfnOf(name)
  }

  lemma BaseStays(name: seq<byte>, stale: seq<byte>)
    requires |stale| == FULL
    ensures BaseOf(name, BaseOf(name, stale)) == BaseOf(name, stale)
  {
  }

  // A base made from a name without a leading dot has no zero byte.
  lemma BaseIsText(name: seq<byte>, stale: seq<byte>)
    requires |stale| == FULL && CompareNames.Text(name) && (name == [] || name[0] != DOT)
    ensures 0 !in BaseOf(name, stale) && FirstTelling(BaseOf(name, stale)) == 1
  {
    SfnIsUpper(name);
  }

  // The loop of _create_file: the first candidate that the directory does not
  // hold, as short names are compared. It fails exactly when all are held: for
  // a name without a leading dot never in a directory with fewer than 9998
  // short names, for others as far as a stale base tells the tails apart.
  method ChooseShortName(dir: Directory.Dir, name: seq<byte>, base: array<byte>, output: array<byte>)
    returns (ok: bool, ghost tailNum: nat, ghost b: seq<byte>)
    requires dir.Valid() && base.Length == FULL && output.Length == FULL && base != output && CompareNames.Text(name)
    modifies dir`address, dir`sector, dir.fs`head, dir.fs`disk, dir.fs`list, dir.fs`views, dir.fs.buffers, base, output
    ensures b == BaseOf(name, old(base[..]))
    ensures dir.Valid() && SameData(dir.fs.g, old(dir.fs.disk), dir.fs.disk) && dir.fs.flat == old(dir.fs.flat)
    ensures dir.AllSlots() == old(dir.AllSlots())
    ensures ok ==> tailNum < ATTEMPTS && output[..] == Candidate(b, tailNum)
    ensures ok ==> Lfn.CString(output[..]) !in Names(dir.AllSlots())
    ensures ok ==> forall k: nat | k < tailNum :: Compared(b, k) in Names(dir.AllSlots())
    ensures !ok <==> AllHeld(b, Names(dir.AllSlots()))
    ensures |Names(dir.AllSlots())| < ATTEMPTS - FirstTelling(b) ==> ok
    ensures name == [] || name[0] != DOT ==> |Names(dir.AllSlots())| < 9998 ==> ok
    ensures 0 in b[..3] ==> (ok <==> Lfn.CString(b) !in Names(dir.AllSlots()))
    ensures old(dir.fs.Poised()) ==> dir.fs.Poised()
  {
    hide Candidate, Tailed, BaseOf, Names, Compared, FirstTelling, AllHeld, Lfn.CString;
    hide Directory.Dir.Open, OnDisk, Below, Fits, SameData, Slots, Directory.Fresh, FatTable.FatFs.Poised;
    dir.Opened();
    SameDataSame(dir.fs.g, dir.fs.disk);
    ghost var slots := dir.AllSlots();
    b := BaseOf(name, base[..]);
    Outcomes(name, base[..], b, Names(slots));
    var n: nat := 0;
    tailNum := 0;
    ok := false;
    while n < ATTEMPTS
      invariant old(dir.fs.Poised()) ==> dir.fs.Poised()
      invariant dir.Valid() && Fits(dir.l, dir.fs.g, dir.fs.disk) && Below(dir.l, dir.chain) && dir.AllSlots() == slots
      invariant SameData(dir.fs.g, old(dir.fs.disk), dir.fs.disk) && dir.fs.flat == old(dir.fs.flat)
      invariant 0 <= n <= ATTEMPTS && forall k: nat | k < n :: Compared(b, k) in Names(slots)
      invariant BaseOf(name, base[..]) == b
      decreases ATTEMPTS - n
    {
      label before:
      BaseStays(name, base[..]);
      var made := Try(name, n, base, output);
      var held := dir.SfnExists(output[..]);
      dir.Opened();
      SameDataChain(dir.fs.g, old(dir.fs.disk), old@before(dir.fs.disk), dir.fs.disk);
      NamesHas(slots, output[..]);
      ComparedIs(b, n);
      if !held {
        NotAllHeld(b, Names(slots), n);
        ok := true;
        tailNum := n;
        return;
      }
      n := n + 1;
    }
    NowAllHeld(b, Names(slots));
  }

  lemma ComparedIs(base: seq<byte>, k: nat)
    requires |base| == FULL && k <= 99999
    ensures Compared(base, k) == Lfn.CString(Candidate(base, k))
  {
  }

  lemma NotAllHeld(base: seq<byte>, names: set<seq<byte>>, k: nat)
    requires |base| == FULL && k < ATTEMPTS && Compared(base, k) !in names
    ensures !AllHeld(base, names)
  {
  }

  lemma NowAllHeld(base: seq<byte>, names: set<seq<byte>>)
    requires |base| == FULL && forall k: nat | k < ATTEMPTS :: Compared(base, k) in names
    ensures AllHeld(base, names)
  {
  }

  // What it takes for all candidates to be held.
  lemma Outcomes(name: seq<byte>, stale: seq<byte>, b: seq<byte>, names: set<seq<byte>>)
    requires |stale| == FULL && b == BaseOf(name, stale) && CompareNames.Text(name)
    ensures AllHeld(b, names) ==> |names| >= ATTEMPTS - FirstTelling(b)
    ensures (name == [] || name[0] != DOT) && AllHeld(b, names) ==> |names| >= ATTEMPTS - 1
    ensures 0 in b[..3] ==> (AllHeld(b, names) <==> Lfn.CString(b) in names)
  {
    hide AllHeld, BaseOf, FirstTelling;
    if AllHeld(b, names) {
      HeldAreMany(b, names);
    }
    if name == [] || name[0] != DOT {
      BaseIsText(name, stale);
    }
    if 0 in b[..3] {
      AlikeHeld(b, names);
    }
  }

  // One attempt: the plain short name, or the name with the tail.
  method Try(name: seq<byte>, tailNum: nat, base: array<byte>, output: array<byte>) returns (ok: bool)
    requires base.Length == FULL && output.Length == FULL && base != output && tailNum < ATTEMPTS
    requires CompareNames.Text(name)
    modifies base, output
    ensures base[..] == BaseOf(name, old(base[..])) && output[..] == Candidate(base[..], tailNum)
  {
    ok := CreateSfn(base, name);
    if tailNum != 0 {
      ok := GenerateTail(output, base[..], tailNum);
    } else {
      var i := 0;
      while i < FULL
        invariant 0 <= i <= FULL && output[..i] == base[..i] && base[..] == BaseOf(name, old(base[..]))
      {
        output[i] := base[i];
        i := i + 1;
      }
      assert output[..] == base[..];
    }
  }

  lemma NamesHas(slots: seq<Slot>, name: seq<byte>)
    ensures Lfn.CString(name) in Names(slots) <==> HasName(slots, |slots|, name)
  {
  }
}
