/** Little-endian FAT entries inside sectors, and the table a run of sectors holds. */
module FatEntries {
  import opened SectorCache
  import opened FatChains

  function PerSector(k: Kind): nat {
    if k.Fat16? then 256 else 128
  }

  function Width(k: Kind): nat {
    if k.Fat16? then 2 else 4
  }

  /** Size of a table of n sectors. */
  function TableSize(k: Kind, n: nat): nat {
    if k.Fat16? then 256 * n else 128 * n
  }

  /** Values an entry can hold. */
  predicate Fits(k: Kind, v: nat) {
    v < if k.Fat16? then 0x10000 else 0x1_0000_0000
  }

  /** Four bytes as a little-endian number. */
  function Compose(b0: nat, b1: nat, b2: nat, b3: nat): (v: nat)
    ensures b0 < 256 && b1 < 256 && b2 < 256 && b3 < 256 ==> v < 0x1_0000_0000
  {
    b3 * 0x1000000 + b2 * 0x10000 + b1 * 0x100 + b0
  }

  lemma Recompose(v: nat)
    requires Fits(Fat32, v)
    ensures Compose(v % 0x100, v / 0x100 % 0x100, v / 0x10000 % 0x100, v / 0x1000000 % 0x100) == v
    ensures Compose(v % 0x100, v / 0x100 % 0x100, 0, 0) == v % 0x10000
  {
    var q, p := v / 0x100, v / 0x10000;
    assert p == q / 0x100 && v / 0x1000000 == p / 0x100;
    assert v == 0x100 * q + v % 0x100 && q == 0x100 * p + q % 0x100;
  }

  /** GET_16BIT_WORD or GET_32BIT_WORD at byte position pos. */
  function GetWord(k: Kind, s: Sector, pos: nat): (v: nat)
    requires pos + Width(k) <= SECTOR_SIZE
    ensures Fits(k, v)
  {
    if k.Fat16? then Compose(s[pos], s[pos + 1], 0, 0)
    else Compose(s[pos], s[pos + 1], s[pos + 2], s[pos + 3])
  }

  /** SET_16BIT_WORD or SET_32BIT_WORD at byte position pos. */
  function SetWord(k: Kind, s: Sector, pos: nat, v: nat): Sector
    requires pos + Width(k) <= SECTOR_SIZE
  {
    if k.Fat16? then s[pos := v % 0x100][pos + 1 := v / 0x100 % 0x100]
    else s[pos := v % 0x100][pos + 1 := v / 0x100 % 0x100][pos + 2 := v / 0x10000 % 0x100]
         [pos + 3 := v / 0x1000000 % 0x100]
  }

  /** Writing an entry and reading any entry back. */
  lemma SetGet(k: Kind, s: Sector, pos: nat, v: nat, at: nat)
    requires pos + Width(k) <= SECTOR_SIZE && at + Width(k) <= SECTOR_SIZE
    requires pos % Width(k) == 0 && at % Width(k) == 0 && Fits(Fat32, v)
    ensures GetWord(k, SetWord(k, s, pos, v), at) == if at == pos then Stored(k, v) else GetWord(k, s, at)
  {
    hide Compose;
    Recompose(v);
    if at != pos {
      Apart(k, pos, at);
    }
  }

  /** Aligned words do not overlap. */
  lemma Apart(k: Kind, p: nat, q: nat)
    requires p % Width(k) == 0 && q % Width(k) == 0 && p != q
    ensures p + Width(k) <= q || q + Width(k) <= p
  {}

  /** Entry c of the table held by sectors begin, begin + 1, ... of a disk. */
  function EntryOf(k: Kind, v: seq<Sector>, begin: nat, c: nat): (e: nat)
    requires begin + c / PerSector(k) < |v|
    ensures Fits(k, e)
  {
    Inside(k, c);
    GetWord(k, v[begin + c / PerSector(k)], c % PerSector(k) * Width(k))
  }

  lemma Inside(k: Kind, c: nat)
    ensures c % PerSector(k) * Width(k) + Width(k) <= SECTOR_SIZE && c % PerSector(k) * Width(k) % Width(k) == 0
    ensures (c - c / PerSector(k) * PerSector(k)) * Width(k) == c % PerSector(k) * Width(k)
  {}

  lemma InTable(k: Kind, n: nat, c: nat)
    ensures c < TableSize(k, n) <==> c / PerSector(k) < n
  {}

  /** The table held by n sectors. */
  function TableOf(k: Kind, v: seq<Sector>, begin: nat, n: nat): (t: seq<nat>)
    requires begin + n <= |v|
    ensures |t| == TableSize(k, n)
    ensures forall c :: 0 <= c < TableSize(k, n) ==>
              begin + c / PerSector(k) < |v| && t[c] == EntryOf(k, v, begin, c) && Fits(k, t[c])
  {
    seq(TableSize(k, n), c requires 0 <= c < TableSize(k, n) => EntryOf(k, v, begin, c))
  }

  /** Setting one entry in one sector changes exactly that entry of the table. */
  lemma SetInTable(k: Kind, v: seq<Sector>, begin: nat, n: nat, c: nat, x: nat)
    requires begin + n <= |v| && c / PerSector(k) < n && Fits(Fat32, x)
    requires c % PerSector(k) * Width(k) + Width(k) <= SECTOR_SIZE
    ensures c < TableSize(k, n)
    ensures var a := begin + c / PerSector(k);
            var w := v[a := SetWord(k, v[a], c % PerSector(k) * Width(k), x)];
            TableOf(k, w, begin, n) == TableOf(k, v, begin, n)[c := Stored(k, x)]
  {
    var a := begin + c / PerSector(k);
    var w := v[a := SetWord(k, v[a], c % PerSector(k) * Width(k), x)];
    InTable(k, n, c);
    forall d | 0 <= d < TableSize(k, n)
      ensures TableOf(k, w, begin, n)[d] == if d == c then Stored(k, x) else TableOf(k, v, begin, n)[d]
    {
      SetOneEntry(k, v, begin, c, x, d);
    }
  }

  lemma SetOneEntry(k: Kind, v: seq<Sector>, begin: nat, c: nat, x: nat, d: nat)
    requires begin + c / PerSector(k) < |v| && begin + d / PerSector(k) < |v| && Fits(Fat32, x)
    requires c % PerSector(k) * Width(k) + Width(k) <= SECTOR_SIZE
    ensures var a := begin + c / PerSector(k);
            var w := v[a := SetWord(k, v[a], c % PerSector(k) * Width(k), x)];
            EntryOf(k, w, begin, d) == if d == c then Stored(k, x) else EntryOf(k, v, begin, d)
  {
    hide GetWord, SetWord;
    var a := begin + c / PerSector(k);
    Inside(k, c);
    Inside(k, d);
    SetGet(k, v[a], c % PerSector(k) * Width(k), x, d % PerSector(k) * Width(k));
  }
}
