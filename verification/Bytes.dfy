// Sectors of 512 bytes and the little-endian words kept in them.
module Bytes {
  import opened Arith

  const SECTOR := 512

  type byte = x: int | 0 <= x < 256

  function Blank(): (s: seq<byte>)
    ensures |s| == SECTOR
  {
    seq(SECTOR, _ => 0)
  }

  type Sector = s: seq<byte> | |s| == SECTOR witness Blank()

  function Get16(s: seq<byte>, p: nat): (v: nat)
    requires p + 2 <= |s|
    ensures v < 0x1_0000
  {
    s[p] as int + 0x100 * s[p + 1] as int
  }

  function Get32(s: seq<byte>, p: nat): (v: nat)
    requires p + 4 <= |s|
    ensures v < 0x1_0000_0000
  {
    s[p] as int + 0x100 * s[p + 1] as int + 0x1_0000 * s[p + 2] as int + 0x100_0000 * s[p + 3] as int
  }

  function Set16(s: seq<byte>, p: nat, v: nat): (t: seq<byte>)
    requires p + 2 <= |s|
    ensures |t| == |s|
  {
    s[p := v % 0x100][p + 1 := v / 0x100 % 0x100]
  }

  function Set32(s: seq<byte>, p: nat, v: nat): (t: seq<byte>)
    requires p + 4 <= |s|
    ensures |t| == |s|
  {
    s[p := v % 0x100][p + 1 := v / 0x100 % 0x100][p + 2 := v / 0x1_0000 % 0x100][p + 3 := v / 0x100_0000 % 0x100]
  }

  lemma WordDigits(v: nat)
    requires v < 0x1_0000_0000
    ensures v == v % 0x100 + 0x100 * (v / 0x100 % 0x100) + 0x1_0000 * (v / 0x1_0000 % 0x100) + 0x100_0000 * (v / 0x100_0000)
    ensures v / 0x100_0000 % 0x100 == v / 0x100_0000
  {
    assert v / 0x1_0000 == (v / 0x100) / 0x100;
    assert v / 0x100_0000 == (v / 0x1_0000) / 0x100;
  }

  lemma HalfDigits(v: nat)
    ensures v % 0x1_0000 == v % 0x100 + 0x100 * (v / 0x100 % 0x100)
  {
    var q, r := v / 0x100, v % 0x100;
    var h, m := q / 0x100, q % 0x100;
    DivModUnique(v, 0x1_0000, h, 0x100 * m + r);
  }

  // A word read back is the word written, cut to its width; every word that
  // does not share a byte with it is unchanged.
  lemma ReadBack16(s: seq<byte>, p: nat, v: nat, q: nat)
    requires p + 2 <= |s| && q + 2 <= |s|
    ensures Get16(Set16(s, p, v), p) == v % 0x1_0000
    ensures q + 2 <= p || p + 2 <= q ==> Get16(Set16(s, p, v), q) == Get16(s, q)
  {
    HalfDigits(v);
    var lo, hi := v % 0x100, v / 0x100 % 0x100;
    var t := s[p := lo][p + 1 := hi];
    assert Set16(s, p, v) == t && t[p] == lo && t[p + 1] == hi;
  }

  lemma ReadBack32(s: seq<byte>, p: nat, v: nat, q: nat)
    requires p + 4 <= |s| && q + 4 <= |s| && v < 0x1_0000_0000
    ensures Get32(Set32(s, p, v), p) == v
    ensures q + 4 <= p || p + 4 <= q ==> Get32(Set32(s, p, v), q) == Get32(s, q)
  {
    WordDigits(v);
  }
}
