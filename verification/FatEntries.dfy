// FAT entries: where cluster c's word lies in the FAT, how it is read and
// written, and what it says about the chain (fat_table.c:205-256, 349-383).
module FatEntries {
  import opened Arith
  import opened Bytes
  import opened FatWindows

  const LAST_CLUSTER := 0xFFFF_FFFF

  datatype FatType = Fat16 | Fat32

  function PerSector(t: FatType): (n: nat)
    ensures n > 0
  {
    if t.Fat16? then 256 else 128
  }

  function SectorOf(t: FatType, c: nat): nat {
    if t.Fat16? then c / 256 else c / 128
  }

  function Position(t: FatType, c: nat): (p: nat)
    ensures p + (if t.Fat16? then 2 else 4) <= SECTOR
  {
    if t.Fat16? then (c - SectorOf(t, c) * 256) * 2 else (c - SectorOf(t, c) * 128) * 4
  }

  lemma PositionIs(t: FatType, c: nat)
    ensures t.Fat16? ==> Position(t, c) == (c - c / 256 * 256) * 2
    ensures t.Fat32? ==> Position(t, c) == (c - c / 128 * 128) * 4
  {
  }

  function Word(t: FatType, s: Sector, p: nat): (v: nat)
    requires p + (if t.Fat16? then 2 else 4) <= SECTOR
    ensures v < 0x1_0000_0000
  {
    if t.Fat16? then Get16(s, p) else Get32(s, p)
  }

  // FAT16_SET_16BIT_WORD with the cast of the value, FAT32_SET_32BIT_WORD.
  function WithWord(t: FatType, s: Sector, p: nat, v: nat): Sector
    requires p + (if t.Fat16? then 2 else 4) <= SECTOR
  {
    if t.Fat16? then Set16(s, p, v % 0x1_0000) else Set32(s, p, v)
  }

  // The value kept of v in an entry.
  function Cut(t: FatType, v: nat): nat {
    if t.Fat16? then v % 0x1_0000 else v
  }

  // A value that fits the entry's width is kept, and the end mark fills it.
  lemma CutKeeps(t: FatType, v: nat)
    ensures v < (if t.Fat16? then 0x1_0000 else 0x1_0000_0000) ==> Cut(t, v) == v
    ensures Cut(t, LAST_CLUSTER) == if t.Fat16? then 0xFFFF else 0xFFFF_FFFF
  {
  }

  // The next cluster an entry names: end-of-chain marks become LAST_CLUSTER,
  // and a FAT32 entry counts 28 bits only.
  function Link(t: FatType, v: nat): (n: nat)
    ensures n == LAST_CLUSTER || n < (if t.Fat16? then 0xFFF8 else 0x0FFF_FFF8) || (t.Fat16? && n >= 0x1_0000)
  {
    if t.Fat16? then
      if 0xFFF8 <= v <= 0xFFFF then LAST_CLUSTER else v
    else
      var n := v % 0x1000_0000;
      if 0x0FFF_FFF8 <= n <= 0x0FFF_FFFF then LAST_CLUSTER else n
  }

  predicate IsBlank(t: FatType, v: nat) {
    if t.Fat16? then v == 0 else v % 0x1000_0000 == 0
  }

  function Count(g: Volume, t: FatType): nat
    requires g.fatBegin <= g.fatEnd
  {
    (g.fatEnd - g.fatBegin) * PerSector(t)
  }

  predicate InTable(g: Volume, t: FatType, c: nat) {
    g.fatBegin + SectorOf(t, c) < g.fatEnd
  }

  lemma InTableIsBelowCount(g: Volume, t: FatType, c: nat)
    requires g.fatBegin <= g.fatEnd
    ensures InTable(g, t, c) <==> c < Count(g, t)
  {
  }

  // The whole table of raw entries in a flat image.
  function Table(g: Volume, t: FatType, flat: seq<Sector>): (f: seq<nat>)
    requires g.fatBegin <= g.fatEnd <= |flat|
    ensures |f| == Count(g, t)
  {
    seq(Count(g, t), c requires 0 <= c < Count(g, t) => Entry(g, t, flat, c))
  }

  function Entry(g: Volume, t: FatType, flat: seq<Sector>, c: nat): nat
    requires g.fatBegin <= g.fatEnd <= |flat| && c < Count(g, t)
  {
    InTableIsBelowCount(g, t, c);
    Word(t, flat[g.fatBegin + SectorOf(t, c)], Position(t, c))
  }

  lemma PositionsApart(t: FatType, c: nat, d: nat)
    requires c != d && SectorOf(t, c) == SectorOf(t, d)
    ensures var w := if t.Fat16? then 2 else 4;
            Position(t, c) + w <= Position(t, d) || Position(t, d) + w <= Position(t, c)
  {
  }

  lemma WordReadBack(t: FatType, s: Sector, p: nat, v: nat, q: nat)
    requires p + (if t.Fat16? then 2 else 4) <= SECTOR && q + (if t.Fat16? then 2 else 4) <= SECTOR
    requires v < 0x1_0000_0000
    ensures Word(t, WithWord(t, s, p, v), p) == Cut(t, v)
    ensures (var w := if t.Fat16? then 2 else 4; q + w <= p || p + w <= q) ==>
              Word(t, WithWord(t, s, p, v), q) == Word(t, s, q)
  {
    if t.Fat16? { ReadBack16(s, p, v % 0x1_0000, q); } else { ReadBack32(s, p, v, q); }
  }

  // Writing c's word changes entry c alone.
  lemma SetOneEntry(g: Volume, t: FatType, flat: seq<Sector>, c: nat, v: nat)
    requires g.fatBegin <= g.fatEnd <= |flat| && c < Count(g, t) && v < 0x1_0000_0000
    requires g.fatBegin + SectorOf(t, c) < |flat|
    ensures var x := g.fatBegin + SectorOf(t, c);
            Table(g, t, flat[x := WithWord(t, flat[x], Position(t, c), v)]) == Table(g, t, flat)[c := Cut(t, v)]
  {
    var x := g.fatBegin + SectorOf(t, c);
    var image := flat[x := WithWord(t, flat[x], Position(t, c), v)];
    var old', new' := Table(g, t, flat), Table(g, t, image);
    forall d: nat | d < Count(g, t)
      ensures new'[d] == old'[c := Cut(t, v)][d]
    {
      WordReadBack(t, flat[x], Position(t, c), v, Position(t, d));
      if c != d && SectorOf(t, c) == SectorOf(t, d) {
        PositionsApart(t, c, d);
      }
      assert new'[d] == Entry(g, t, image, d) && old'[d] == Entry(g, t, flat, d);
    }
  }

  lemma TableSame(g: Volume, t: FatType, flat: seq<Sector>, h: seq<Sector>)
    requires g.fatBegin <= g.fatEnd <= |flat| == |h| && forall x: nat | g.InFat(x) :: h[x] == flat[x]
    ensures Table(g, t, h) == Table(g, t, flat)
  {
    forall c: nat | c < Count(g, t)
      ensures Table(g, t, h)[c] == Table(g, t, flat)[c]
    {
      InTableIsBelowCount(g, t, c);
      assert Table(g, t, h)[c] == Entry(g, t, h, c) && Table(g, t, flat)[c] == Entry(g, t, flat, c);
    }
  }

  lemma TableOutside(g: Volume, t: FatType, flat: seq<Sector>, x: nat, s: Sector)
    requires g.fatBegin <= g.fatEnd <= |flat| && x < |flat| && !g.InFat(x)
    ensures Table(g, t, flat[x := s]) == Table(g, t, flat)
  {
    TableSame(g, t, flat, flat[x := s]);
  }

  // ------------------------------------------------------------ counting

  function Zeros(f: seq<nat>): nat {
    if f == [] then 0 else Zeros(f[..|f| - 1]) + (if f[|f| - 1] == 0 then 1 else 0)
  }

  lemma {:induction false} ZerosConcat(f: seq<nat>, h: seq<nat>)
    ensures Zeros(f + h) == Zeros(f) + Zeros(h)
  {
    if h == [] {
      assert f + h == f;
    } else {
      assert (f + h)[..|f + h| - 1] == f + h[..|h| - 1];
      ZerosConcat(f, h[..|h| - 1]);
    }
  }

  lemma ZerosSplit(f: seq<nat>, a: nat, b: nat)
    requires a <= b <= |f|
    ensures Zeros(f[..b]) == Zeros(f[..a]) + Zeros(f[a..b])
  {
    assert f[..b] == f[..a] + f[a..b];
    ZerosConcat(f[..a], f[a..b]);
  }

  // The words of one FAT sector.
  function Words(t: FatType, s: Sector): (w: seq<nat>)
    ensures |w| == PerSector(t)
  {
    seq(PerSector(t), k requires 0 <= k < PerSector(t) => Word(t, s, k * (if t.Fat16? then 2 else 4)))
  }

  // Sector i of the FAT is entries i * PerSector .. (i + 1) * PerSector.
  lemma SectorOfTable(g: Volume, t: FatType, flat: seq<Sector>, i: nat)
    requires g.fatBegin <= g.fatEnd <= |flat| && i < g.fatEnd - g.fatBegin
    ensures i * PerSector(t) <= (i + 1) * PerSector(t) <= Count(g, t)
    ensures Table(g, t, flat)[i * PerSector(t)..(i + 1) * PerSector(t)] == Words(t, flat[g.fatBegin + i])
  {
    var table, words, n := Table(g, t, flat), Words(t, flat[g.fatBegin + i]), PerSector(t);
    forall k: nat | k < n
      ensures table[i * n..(i + 1) * n][k] == words[k]
    {
      assert SectorOf(t, i * n + k) == i && Position(t, i * n + k) == k * (if t.Fat16? then 2 else 4);
      assert table[i * n + k] == Entry(g, t, flat, i * n + k);
    }
  }

  method CountSector(t: FatType, s: Sector) returns (count: nat)
    ensures count == Zeros(Words(t, s))
  {
    count := 0;
    var j := 0;
    ghost var k, words := 0, Words(t, s);
    while j < SECTOR
      invariant 0 <= k <= PerSector(t) && j == k * (if t.Fat16? then 2 else 4)
      invariant count == Zeros(words[..k])
      decreases SECTOR - j
    {
      assert words[k] == Word(t, s, j);
      assert words[..k + 1][..k] == words[..k];
      if t.Fat16? {
        if Get16(s, j) == 0 {
          count := count + 1;
        }
        j := j + 2;
      } else {
        if Get32(s, j) == 0 {
          count := count + 1;
        }
        j := j + 4;
      }
      k := k + 1;
    }
    assert words[..k] == words;
  }
}
