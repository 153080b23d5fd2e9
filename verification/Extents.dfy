/** lsexfat.c: turning a file's chain into a list of disk regions. */
module Extents {
  import opened Arithmetic
  import opened Chains
  import opened Cluster
  import opened Volume

  const IMAGE_SECTOR: nat := 2048
  const DISK_SECTOR: nat := 512
  const U32: nat := 0x1_0000_0000

  datatype Region = Region(imageSectorCount: nat, imageStartSector: nat, diskStartSector: nat)

  /** exfat_add_disk_region on the list of regions; counts and starts are 32-bit fields. */
  function AddRegion(rs: seq<Region>, size: nat, offset: nat): seq<Region> {
    if size == 0 then rs
    else if rs == [] then [Region(size / IMAGE_SECTOR % U32, 0, offset / DISK_SECTOR)]
    else
      var last := rs[|rs| - 1];
      if last.diskStartSector + last.imageSectorCount * 4 == offset / DISK_SECTOR then
        rs[|rs| - 1 := last.(imageSectorCount := (last.imageSectorCount + size / IMAGE_SECTOR) % U32)]
      else
        rs + [Region(size / IMAGE_SECTOR % U32, (last.imageStartSector + last.imageSectorCount) % U32,
            offset / DISK_SECTOR)]
  }

  /** The run of adjacent clusters being collected: where it starts on disk and how long it is, in bytes. */
  datatype Run = Run(offset: nat, size: nat)

  /** Byte offset of cluster c on the disk, for a heap that starts at byte base. */
  function DiskOffset(base: nat, cs: nat, c: nat): nat {
    if c < FIRST_DATA_CLUSTER then base else base + (c - FIRST_DATA_CLUSTER) * cs
  }

  /** The rest of the cluster loop of exfat_get_image_location, from cluster index k with left bytes to go. */
  function Collect(base: nat, cs: nat, ch: seq<nat>, k: nat, left: nat, run: Run, rs: seq<Region>): seq<Region>
    requires cs > 0
    decreases left
  {
    if left == 0 || k >= |ch| then AddRegion(rs, run.size, run.offset)
    else
      var cur := if cs < left then cs else left;
      var offset := DiskOffset(base, cs, ch[k]);
      if run.offset + run.size == offset then
        Collect(base, cs, ch, k + 1, left - cur, Run(run.offset, run.size + cur), rs)
      else
        Collect(base, cs, ch, k + 1, left - cur, Run(offset, cur), AddRegion(rs, run.size, run.offset))
  }

  // ---- What a region list means ----

  /** The disk byte that holds byte b of the file. */
  function DiskByte(base: nat, cs: nat, ch: seq<nat>, b: nat): nat
    requires cs > 0
  {
    if InChain(cs, ch, b) then DiskOffset(base, cs, ch[b / cs]) + b % cs else base
  }

  /** The regions tile image sectors from 0 to total. */
  ghost predicate Tiles(rs: seq<Region>, total: nat) {
    && (rs == [] ==> total == 0)
    && (rs != [] ==> rs[0].imageStartSector == 0)
    && (forall i, j :: 0 <= i && j == i + 1 && j < |rs| ==>
          rs[j].imageStartSector == rs[i].imageStartSector + rs[i].imageSectorCount)
    && (rs != [] ==> rs[|rs| - 1].imageStartSector + rs[|rs| - 1].imageSectorCount == total)
  }

  /** Every image byte a region claims is the file's byte at that place on the disk. */
  ghost predicate Maps(rs: seq<Region>, base: nat, cs: nat, ch: seq<nat>, size: nat)
    requires cs > 0
  {
    forall i, b: nat {:trigger Claims(rs[i], b)} :: 0 <= i < |rs| && Claims(rs[i], b) ==>
      b < size && InChain(cs, ch, b) && DiskByte(base, cs, ch, b) == RegionByte(rs[i], b)
  }

  /** Image byte b lies in region r. */
  predicate Claims(r: Region, b: nat) {
    r.imageStartSector * IMAGE_SECTOR <= b < (r.imageStartSector + r.imageSectorCount) * IMAGE_SECTOR
  }

  predicate InChain(cs: nat, ch: seq<nat>, b: nat)
    requires cs > 0
  {
    b / cs < |ch|
  }

  /** Where region r says image byte b is. */
  function RegionByte(r: Region, b: nat): int {
    r.diskStartSector * DISK_SECTOR + (b - r.imageStartSector * IMAGE_SECTOR)
  }

  /** No region continues on the disk where the one before it ends. */
  ghost predicate Unmergeable(rs: seq<Region>) {
    forall i, j :: 0 <= i && j == i + 1 && j < |rs| ==>
      rs[i].diskStartSector + rs[i].imageSectorCount * 4 != rs[j].diskStartSector
  }

  /** The invariant of the cluster loop: p bytes done, of which the last run.size are still in the run. */
  ghost predicate Collecting(base: nat, cs: nat, ch: seq<nat>, size: nat, p: nat, run: Run, rs: seq<Region>, total: nat)
    requires cs > 0
  {
    && p == total * IMAGE_SECTOR + run.size <= size
    && Tiles(rs, total) && Maps(rs, base, cs, ch, size) && Unmergeable(rs)
    && run.offset % DISK_SECTOR == 0
    && (rs != [] ==> run.offset != EndOnDisk(rs[|rs| - 1]))
    && (forall b: nat :: total * IMAGE_SECTOR <= b < p ==>
          InChain(cs, ch, b) && DiskByte(base, cs, ch, b) == run.offset + (b - total * IMAGE_SECTOR))
  }

  function EndOnDisk(r: Region): nat {
    (r.diskStartSector + r.imageSectorCount * 4) * DISK_SECTOR
  }

  /** Closing a run appends one region that continues the tiling. */
  lemma CloseRun(base: nat, cs: nat, ch: seq<nat>, size: nat, p: nat, run: Run, rs: seq<Region>, total: nat)
    requires cs > 0 && size / IMAGE_SECTOR < U32
    requires Collecting(base, cs, ch, size, p, run, rs, total)
    ensures var rs' := AddRegion(rs, run.size, run.offset);
            && Tiles(rs', p / IMAGE_SECTOR) && Maps(rs', base, cs, ch, size) && Unmergeable(rs')
            && (run.size > 0 ==>
                rs' != [] && EndOnDisk(rs'[|rs'| - 1]) == run.offset + run.size / IMAGE_SECTOR * IMAGE_SECTOR)
            && (run.size == 0 ==> rs' == rs)
  {
    hide Tiles, Maps, Unmergeable, DiskByte, InChain, EndOnDisk, AddRegion, Claims, RegionByte;
    Sectors(total, run.size, p, size);
    if run.size > 0 {
      var r := Region(run.size / IMAGE_SECTOR, total, run.offset / DISK_SECTOR);
      OneMore(rs, run, total);
      forall b: nat | Claims(r, b)
        ensures b < size && InChain(cs, ch, b) && DiskByte(base, cs, ch, b) == RegionByte(r, b)
      {
        ClaimedByRun(r, run, total, p, b);
      }
      MoreMaps(rs, r, base, cs, ch, size);
      MoreTiles(rs, r, total);
      MoreUnmergeable(rs, r, run.offset);
      RegionEnd(r, run);
    } else {
      NoRun(rs, run.offset);
    }
  }

  lemma Sectors(total: nat, runSize: nat, p: nat, size: nat)
    requires p == total * IMAGE_SECTOR + runSize <= size
    ensures p / IMAGE_SECTOR == total + runSize / IMAGE_SECTOR <= size / IMAGE_SECTOR
  {}

  lemma ClaimedByRun(r: Region, run: Run, total: nat, p: nat, b: nat)
    requires r == Region(run.size / IMAGE_SECTOR, total, run.offset / DISK_SECTOR) && Claims(r, b)
    requires p == total * IMAGE_SECTOR + run.size && run.offset % DISK_SECTOR == 0
    ensures total * IMAGE_SECTOR <= b < p
    ensures RegionByte(r, b) == run.offset + (b - total * IMAGE_SECTOR)
  {}

  lemma RegionEnd(r: Region, run: Run)
    requires r.imageSectorCount == run.size / IMAGE_SECTOR && r.diskStartSector == run.offset / DISK_SECTOR
    requires run.offset % DISK_SECTOR == 0
    ensures EndOnDisk(r) == run.offset + run.size / IMAGE_SECTOR * IMAGE_SECTOR
  {}

  lemma NoRun(rs: seq<Region>, offset: nat)
    ensures AddRegion(rs, 0, offset) == rs
  {}

  /** A run that does not continue the last region becomes a region of its own. */
  lemma OneMore(rs: seq<Region>, run: Run, total: nat)
    requires run.size > 0 && Tiles(rs, total) && total + run.size / IMAGE_SECTOR < U32 && run.offset % DISK_SECTOR == 0
    requires rs != [] ==> run.offset != EndOnDisk(rs[|rs| - 1])
    ensures AddRegion(rs, run.size, run.offset) == rs
            + [Region(run.size / IMAGE_SECTOR, total, run.offset / DISK_SECTOR)]
  {}

  lemma MoreMaps(rs: seq<Region>, r: Region, base: nat, cs: nat, ch: seq<nat>, size: nat)
    requires cs > 0 && Maps(rs, base, cs, ch, size)
    requires forall b: nat :: Claims(r, b) ==>
               b < size && InChain(cs, ch, b) && DiskByte(base, cs, ch, b) == RegionByte(r, b)
    ensures Maps(rs + [r], base, cs, ch, size)
  {
    hide DiskByte, Claims, RegionByte, InChain;
    var all := rs + [r];
    forall i, b: nat | 0 <= i < |all| && Claims(all[i], b)
      ensures b < size && InChain(cs, ch, b) && DiskByte(base, cs, ch, b) == RegionByte(all[i], b)
    {
      if i < |rs| {
        assert Claims(rs[i], b);
      }
    }
  }

  lemma MoreTiles(rs: seq<Region>, r: Region, total: nat)
    requires Tiles(rs, total) && r.imageStartSector == total
    ensures Tiles(rs + [r], total + r.imageSectorCount)
  {}

  lemma MoreUnmergeable(rs: seq<Region>, r: Region, offset: nat)
    requires Unmergeable(rs) && offset % DISK_SECTOR == 0 && r.diskStartSector == offset / DISK_SECTOR
    requires rs != [] ==> offset != EndOnDisk(rs[|rs| - 1])
    ensures Unmergeable(rs + [r])
  {}

  /** Bytes of the chunk that starts at p == k * cs lie in cluster k. */
  lemma ChunkByte(base: nat, cs: nat, ch: seq<nat>, k: nat, p: nat, b: nat)
    requires cs > 0 && k < |ch| && p == k * cs && p <= b < p + cs
    ensures InChain(cs, ch, b) && DiskByte(base, cs, ch, b) == DiskOffset(base, cs, ch[k]) + (b - p)
  {
    DivModUnique(k, b - p, cs);
  }

  /** The next chunk joins the run when it is adjacent to it on the disk. */
  lemma JoinRun(base: nat, cs: nat, ch: seq<nat>, size: nat, k: nat, p: nat, cur: nat, run: Run, rs: seq<Region>,
      total: nat)
    requires cs > 0 && k < |ch| && p == k * cs && cur <= cs && p + cur <= size
    requires Collecting(base, cs, ch, size, p, run, rs, total)
    requires run.offset + run.size == DiskOffset(base, cs, ch[k])
    ensures Collecting(base, cs, ch, size, p + cur, Run(run.offset, run.size + cur), rs, total)
  {
    hide Tiles, Maps, Unmergeable, DiskByte, InChain, EndOnDisk, DiskOffset;
    forall b: nat | total * IMAGE_SECTOR <= b < p + cur
      ensures InChain(cs, ch, b) && DiskByte(base, cs, ch, b) == run.offset + (b - total * IMAGE_SECTOR)
    {
      if b >= p { ChunkByte(base, cs, ch, k, p, b); }
    }
  }

  /** Otherwise the run is closed and the chunk starts a new one. */
  lemma StartRun(base: nat, cs: nat, ch: seq<nat>, size: nat, k: nat, p: nat, cur: nat, run: Run, rs: seq<Region>,
      total: nat)
    requires cs > 0 && cs % DISK_SECTOR == 0 && base % DISK_SECTOR == 0 && size / IMAGE_SECTOR < U32
    requires k < |ch| && p == k * cs && cur <= cs && p + cur <= size
    requires Collecting(base, cs, ch, size, p, run, rs, total) && run.size % IMAGE_SECTOR == 0
    requires run.offset + run.size != DiskOffset(base, cs, ch[k])
    requires rs == [] || run.size > 0
    ensures Collecting(base, cs, ch, size, p + cur, Run(DiskOffset(base, cs, ch[k]), cur),
                       AddRegion(rs, run.size, run.offset), total + run.size / IMAGE_SECTOR)
  {
    hide Tiles, Maps, Unmergeable, DiskByte, InChain, EndOnDisk, DiskOffset, AddRegion;
    CloseRun(base, cs, ch, size, p, run, rs, total);
    Sectors(total, run.size, p, size);
    Aligned(base, cs, ch[k]);
    forall b: nat | p <= b < p + cur
      ensures InChain(cs, ch, b) && DiskByte(base, cs, ch, b) == DiskOffset(base, cs, ch[k]) + (b - p)
    {
      ChunkByte(base, cs, ch, k, p, b);
    }
  }

  lemma Aligned(base: nat, cs: nat, c: nat)
    requires cs % DISK_SECTOR == 0 && base % DISK_SECTOR == 0
    ensures DiskOffset(base, cs, c) % DISK_SECTOR == 0
  {
    if c >= FIRST_DATA_CLUSTER {
      Multiple(c - FIRST_DATA_CLUSTER, cs / DISK_SECTOR, cs);
      BothAligned(base, (c - FIRST_DATA_CLUSTER) * cs);
    }
  }

  lemma BothAligned(a: nat, b: nat)
    requires a % DISK_SECTOR == 0 && b % DISK_SECTOR == 0
    ensures (a + b) % DISK_SECTOR == 0
  {}

  lemma Multiple(n: nat, m: nat, cs: nat)
    requires cs == m * DISK_SECTOR
    ensures n * cs % DISK_SECTOR == 0
  {
    Regrouped(n, m);
    DivModUnique(n * m, 0, DISK_SECTOR);
  }

  lemma Regrouped(n: nat, m: nat)
    ensures n * (m * DISK_SECTOR) == (n * m) * DISK_SECTOR
  {}

  // ---- Runs that end inside the last, incomplete image sector ----

  /** A piece shorter than an image sector changes nothing an image could be read through. */
  lemma AddScrap(rs: seq<Region>, size: nat, offset: nat, total: nat, base: nat, cs: nat, ch: seq<nat>, length: nat)
    requires cs > 0 && size < IMAGE_SECTOR && offset % DISK_SECTOR == 0 && total < U32
    requires Tiles(rs, total) && Maps(rs, base, cs, ch, length) && Unmergeable(rs)
    ensures var out := AddRegion(rs, size, offset);
            Tiles(out, total) && Maps(out, base, cs, ch, length) && Unmergeable(out)
  {
    hide DiskByte, InChain, RegionByte, Unmergeable, Tiles, Maps;
    if size > 0 {
      if rs != [] && rs[|rs| - 1].diskStartSector + rs[|rs| - 1].imageSectorCount * 4 == offset / DISK_SECTOR {
        SameLast(rs, total);
      } else {
        OneMore(rs, Run(offset, size), total);
        var r := Region(0, total, offset / DISK_SECTOR);
        MoreTiles(rs, r, total);
        MoreMaps(rs, r, base, cs, ch, length);
        MoreUnmergeable(rs, r, offset);
      }
    }
  }

  lemma SameLast(rs: seq<Region>, total: nat)
    requires rs != [] && Tiles(rs, total) && total < U32
    ensures var last := rs[|rs| - 1];
            rs[|rs| - 1 := last.(imageSectorCount := (last.imageSectorCount + 0) % U32)] == rs
  {
    TilesFit(rs, total, |rs| - 1);
  }

  /** No region reaches past the total. */
  lemma {:induction false} TilesFit(rs: seq<Region>, total: nat, i: nat)
    requires Tiles(rs, total) && i < |rs|
    ensures rs[i].imageStartSector + rs[i].imageSectorCount <= total
    decreases |rs| - i
  {
    if i + 1 < |rs| {
      TilesFit(rs, total, i + 1);
    }
  }

  lemma {:induction false} ScrapsAreFaithful(base: nat, cs: nat, ch: seq<nat>, length: nat, k: nat, left: nat, run: Run,
                                             rs: seq<Region>, total: nat)
    requires cs > 0 && cs % DISK_SECTOR == 0 && base % DISK_SECTOR == 0 && total < U32
    requires run.size + left < IMAGE_SECTOR && run.offset % DISK_SECTOR == 0
    requires Tiles(rs, total) && Maps(rs, base, cs, ch, length) && Unmergeable(rs)
    ensures var out := Collect(base, cs, ch, k, left, run, rs);
            Tiles(out, total) && Maps(out, base, cs, ch, length) && Unmergeable(out)
    decreases left
  {
    hide Tiles, Maps, Unmergeable, DiskOffset, AddRegion;
    AddScrap(rs, run.size, run.offset, total, base, cs, ch, length);
    if left > 0 && k < |ch| {
      var cur := if cs < left then cs else left;
      var offset := DiskOffset(base, cs, ch[k]);
      Aligned(base, cs, ch[k]);
      if run.offset + run.size == offset {
        ScrapsAreFaithful(base, cs, ch, length, k + 1, left - cur, Run(run.offset, run.size + cur), rs, total);
      } else {
        ScrapsAreFaithful(base, cs, ch, length, k + 1, left - cur, Run(offset, cur),
            AddRegion(rs, run.size, run.offset), total);
      }
    }
  }

  // ---- Runs that end inside another image sector ----

  /** Disk byte d is where some cluster from number kb on starts. */
  ghost predicate StartsBehind(base: nat, cs: nat, ch: seq<nat>, d: int, kb: nat) {
    exists k :: kb <= k < |ch| && d == DiskOffset(base, cs, ch[k])
  }

  /** All regions from the n-th on start where some cluster from number kb on does. */
  ghost predicate Behind(base: nat, cs: nat, ch: seq<nat>, rs: seq<Region>, n: nat, kb: nat) {
    n <= |rs| && forall i :: n <= i < |rs| ==> StartsBehind(base, cs, ch, rs[i].diskStartSector * DISK_SECTOR, kb)
  }

  /** Later runs leave the first n regions alone when none of them continues the n-th. */
  lemma AddBehind(base: nat, cs: nat, ch: seq<nat>, rs: seq<Region>, run: Run, n: nat, kb: nat)
    requires 0 < n <= |rs| && Behind(base, cs, ch, rs, n, kb) && run.offset % DISK_SECTOR == 0
    requires StartsBehind(base, cs, ch, run.offset, kb) && !StartsBehind(base, cs, ch, EndOnDisk(rs[n - 1]), kb)
    ensures var out := AddRegion(rs, run.size, run.offset);
            |out| >= n && out[..n] == rs[..n] && Behind(base, cs, ch, out, n, kb)
  {
    hide StartsBehind;
    var out, last := AddRegion(rs, run.size, run.offset), rs[|rs| - 1];
    if |rs| == n {
      assert EndOnDisk(last) != run.offset;
    }
  }

  lemma {:induction false} CollectBehind(base: nat, cs: nat, ch: seq<nat>, k: nat, left: nat, run: Run, rs: seq<Region>,
                                         n: nat, kb: nat)
    requires cs > 0 && cs % DISK_SECTOR == 0 && base % DISK_SECTOR == 0 && kb <= k
    requires 0 < n <= |rs| && Behind(base, cs, ch, rs, n, kb) && run.offset % DISK_SECTOR == 0
    requires StartsBehind(base, cs, ch, run.offset, kb) && !StartsBehind(base, cs, ch, EndOnDisk(rs[n - 1]), kb)
    ensures var out := Collect(base, cs, ch, k, left, run, rs);
            |out| >= n && out[..n] == rs[..n] && Behind(base, cs, ch, out, n, kb)
    decreases left
  {
    hide Behind, AddRegion, DiskOffset, EndOnDisk;
    var next := AddRegion(rs, run.size, run.offset);
    AddBehind(base, cs, ch, rs, run, n, kb);
    if left > 0 && k < |ch| {
      var cur := if cs < left then cs else left;
      var offset := DiskOffset(base, cs, ch[k]);
      Aligned(base, cs, ch[k]);
      if run.offset + run.size == offset {
        CollectBehind(base, cs, ch, k + 1, left - cur, Run(run.offset, run.size + cur), rs, n, kb);
      } else {
        assert next[n - 1] == next[..n][n - 1] == rs[..n][n - 1] == rs[n - 1];
        CollectBehind(base, cs, ch, k + 1, left - cur, Run(offset, cur), next, n, kb);
      }
    }
  }

  /** A byte of an earlier cluster is not where a later one starts. */
  lemma NotBehind(base: nat, cs: nat, ch: seq<nat>, count: nat, q: nat, kb: nat)
    requires cs > 0 && AllValid(count, ch) && NoDup(ch) && kb <= |ch| && q < kb * cs
    ensures InChain(cs, ch, q) && !StartsBehind(base, cs, ch, DiskByte(base, cs, ch, q), kb)
  {
    DivBelow(q, kb, cs);
    DivMod(q, cs);
    forall k | kb <= k < |ch| ensures DiskByte(base, cs, ch, q) != DiskOffset(base, cs, ch[k]) {
      assert ch[k] != ch[q / cs];
      MulGap(ch[k] - 2, ch[q / cs] - 2, cs);
      MulGap(ch[q / cs] - 2, ch[k] - 2, cs);
    }
  }

  /** Regions that tile cover every sector below the total. */
  lemma {:induction false} TileAt(rs: seq<Region>, total: nat, j: nat, n: nat) returns (i: nat)
    requires Tiles(rs, total) && n <= |rs|
    requires j < total && (if n == |rs| then true else j < rs[n].imageStartSector)
    ensures i < n && rs[i].imageStartSector <= j < rs[i].imageStartSector + rs[i].imageSectorCount
    decreases n
  {
    if n == 0 {
      assert false;
    } else if rs[n - 1].imageStartSector <= j {
      i := n - 1;
      assert n < |rs| ==> rs[n].imageStartSector == rs[n - 1].imageStartSector + rs[n - 1].imageSectorCount;
    } else {
      i := TileAt(rs, total, j, n - 1);
    }
  }

  lemma {:induction false} TilesAscend(rs: seq<Region>, total: nat, i: nat, j: nat)
    requires Tiles(rs, total) && i < j < |rs|
    ensures rs[i].imageStartSector + rs[i].imageSectorCount <= rs[j].imageStartSector
    decreases j - i
  {
    if i + 1 < j {
      TilesAscend(rs, total, i + 1, j);
    }
  }

  /** If the sector just behind head belongs to a later region, what that region shows there is not the file's. */
  lemma NotTheFile(base: nat, cs: nat, ch: seq<nat>, size: nat, head: seq<Region>, total: nat, out: seq<Region>,
      kb: nat)
    requires cs > 0 && head != [] && Tiles(head, total) && total < size / IMAGE_SECTOR
    requires |out| >= |head| && out[..|head|] == head && Behind(base, cs, ch, out, |head|, kb)
    requires InChain(cs, ch, total * IMAGE_SECTOR)
    requires !StartsBehind(base, cs, ch, DiskByte(base, cs, ch, total * IMAGE_SECTOR), kb)
    ensures !(Tiles(out, size / IMAGE_SECTOR) && Maps(out, base, cs, ch, size))
  {
    hide StartsBehind, DiskByte, InChain, Tiles, Maps;
    if Tiles(out, size / IMAGE_SECTOR) && Maps(out, base, cs, ch, size) {
      var n, b := |head|, total * IMAGE_SECTOR;
      var i := TileAt(out, size / IMAGE_SECTOR, total, |out|);
      if i < n {
        assert out[i] == out[..n][i] == head[i];
        TilesFit(head, total, i);
        assert false;
      }
      LastEnds(head, total);
      assert out[n - 1] == out[..n][n - 1] == head[n - 1];
      TilesAscend(out, size / IMAGE_SECTOR, n - 1, i);
      Shown(out, base, cs, ch, size, i, b);
    }
  }

  lemma LastEnds(rs: seq<Region>, total: nat)
    requires rs != [] && Tiles(rs, total)
    ensures rs[|rs| - 1].imageStartSector + rs[|rs| - 1].imageSectorCount == total
  {}

  lemma Shown(rs: seq<Region>, base: nat, cs: nat, ch: seq<nat>, size: nat, i: nat, b: nat)
    requires cs > 0 && Maps(rs, base, cs, ch, size) && i < |rs| && b == rs[i].imageStartSector * IMAGE_SECTOR
    requires rs[i].imageSectorCount > 0
    ensures DiskByte(base, cs, ch, b) == rs[i].diskStartSector * DISK_SECTOR
  {
    assert Claims(rs[i], b);
  }

  // ---- Exactly which files ----

  /** Image sector j lies within one run of adjacent clusters. */
  predicate InOneRun(cs: nat, ch: seq<nat>, j: nat) {
    forall k :: 0 < k < |ch| && j * IMAGE_SECTOR < k * cs < (j + 1) * IMAGE_SECTOR ==> ch[k] == ch[k - 1] + 1
  }

  predicate Unbroken(cs: nat, ch: seq<nat>, size: nat) {
    forall j: nat :: j < size / IMAGE_SECTOR ==> InOneRun(cs, ch, j)
  }

  /** The same cluster by cluster: where a run ends, an image sector does, but for the incomplete one at the end. */
  ghost predicate EndsAligned(cs: nat, ch: seq<nat>, size: nat, from: nat) {
    forall k :: from <= k < |ch| && 0 < k && k * cs < size / IMAGE_SECTOR * IMAGE_SECTOR && ch[k] != ch[k - 1] + 1 ==>
      k * cs % IMAGE_SECTOR == 0
  }

  lemma UnbrokenIsAligned(cs: nat, ch: seq<nat>, size: nat)
    ensures Unbroken(cs, ch, size) <==> EndsAligned(cs, ch, size, 0)
  {
    hide InOneRun;
    if Unbroken(cs, ch, size) {
      forall k | 0 < k < |ch| && k * cs < size / IMAGE_SECTOR * IMAGE_SECTOR && ch[k] != ch[k - 1] + 1
        ensures k * cs % IMAGE_SECTOR == 0
      {
        var j := k * cs / IMAGE_SECTOR;
        assert InOneRun(cs, ch, j);
        InsideOne(cs, ch, j, k);
      }
    }
    if EndsAligned(cs, ch, size, 0) {
      forall j: nat | j < size / IMAGE_SECTOR ensures InOneRun(cs, ch, j) {
        AlignedInside(cs, ch, size, j);
      }
    }
  }

  lemma InsideOne(cs: nat, ch: seq<nat>, j: nat, k: nat)
    requires InOneRun(cs, ch, j) && 0 < k < |ch| && j == k * cs / IMAGE_SECTOR
    ensures ch[k] == ch[k - 1] + 1 || k * cs % IMAGE_SECTOR == 0
  {}

  lemma AlignedInside(cs: nat, ch: seq<nat>, size: nat, j: nat)
    requires EndsAligned(cs, ch, size, 0) && j < size / IMAGE_SECTOR
    ensures InOneRun(cs, ch, j)
  {
    forall k | 0 < k < |ch| && j * IMAGE_SECTOR < k * cs < (j + 1) * IMAGE_SECTOR ensures ch[k] == ch[k - 1] + 1 {
      assert k * cs % IMAGE_SECTOR != 0;
    }
  }

  /** The run that is being collected ends with the cluster before number k. */
  predicate Tracks(base: nat, cs: nat, ch: seq<nat>, k: nat, run: Run) {
    k == 0 || (k <= |ch| && run.offset + run.size == DiskOffset(base, cs, ch[k - 1]) + cs)
  }

  lemma Adjacent(base: nat, cs: nat, count: nat, ch: seq<nat>, k: nat, run: Run)
    requires cs > 0 && AllValid(count, ch) && 0 < k < |ch| && Tracks(base, cs, ch, k, run)
    ensures run.offset + run.size == DiskOffset(base, cs, ch[k]) <==> ch[k] == ch[k - 1] + 1
  {
    var c, d := ch[k - 1] - 2, ch[k] - 2;
    OneMoreCluster(c, cs);
    MulGap(c + 1, d, cs);
    MulGap(d, c + 1, cs);
  }

  lemma OneMoreCluster(c: nat, cs: nat)
    ensures (c + 1) * cs == c * cs + cs
  {}

  /** Where a run is closed inside an image sector that is complete, that sector is lost. */
  lemma BreakLoses(base: nat, cs: nat, count: nat, ch: seq<nat>, size: nat, k: nat, p: nat, run: Run, rs: seq<Region>,
                   total: nat, out: seq<Region>)
    requires cs > 0 && cs % DISK_SECTOR == 0 && base % DISK_SECTOR == 0 && size / IMAGE_SECTOR < U32
    requires AllValid(count, ch) && NoDup(ch) && k < |ch| && p == k * cs && p % IMAGE_SECTOR != 0
    requires p < size / IMAGE_SECTOR * IMAGE_SECTOR && Collecting(base, cs, ch, size, p, run, rs, total) && run.size > 0
    requires var cur := if cs < size - p then cs else size - p;
             out == Collect(base, cs, ch, k + 1, size - p - cur, Run(DiskOffset(base, cs, ch[k]), cur),
                            AddRegion(rs, run.size, run.offset))
    ensures !(Tiles(out, size / IMAGE_SECTOR) && Maps(out, base, cs, ch, size))
  {
    hide Tiles, Maps, Unmergeable, AddRegion, DiskOffset, StartsBehind, DiskByte, InChain, EndOnDisk, NoDup,
         AllValid, Collect;
    var head, t := AddRegion(rs, run.size, run.offset), p / IMAGE_SECTOR;
    var q := t * IMAGE_SECTOR;
    CloseRun(base, cs, ch, size, p, run, rs, total);
    NotBehind(base, cs, ch, count, q, k);
    Sectors(total, run.size, p, size);
    assert DiskByte(base, cs, ch, q) == run.offset + (q - total * IMAGE_SECTOR) == EndOnDisk(head[|head| - 1]);
    Aligned(base, cs, ch[k]);
    StartsHere(base, cs, ch, k);
    NothingBehind(base, cs, ch, head, k);
    var cur := if cs < size - p then cs else size - p;
    CollectBehind(base, cs, ch, k + 1, size - p - cur, Run(DiskOffset(base, cs, ch[k]), cur), head, |head|, k);
    assert head[..|head|] == head;
    NotTheFile(base, cs, ch, size, head, t, out, k);
  }

  lemma StartsHere(base: nat, cs: nat, ch: seq<nat>, k: nat)
    requires k < |ch|
    ensures StartsBehind(base, cs, ch, DiskOffset(base, cs, ch[k]), k)
  {}

  lemma NothingBehind(base: nat, cs: nat, ch: seq<nat>, rs: seq<Region>, kb: nat)
    ensures Behind(base, cs, ch, rs, |rs|, kb)
  {}

  lemma {:induction false} CollectExactly(base: nat, cs: nat, count: nat, ch: seq<nat>, size: nat, k: nat, p: nat,
      run: Run,
                                          rs: seq<Region>, total: nat)
    requires cs > 0 && cs % DISK_SECTOR == 0 && base % DISK_SECTOR == 0 && size / IMAGE_SECTOR < U32
    requires AllValid(count, ch) && NoDup(ch) && size <= |ch| * cs
    requires p <= size && Collecting(base, cs, ch, size, p, run, rs, total)
    requires if p < size then p == k * cs && Tracks(base, cs, ch, k, run) else p <= k * cs
    requires if k == 0 then rs == [] && run.size == 0 else run.size > 0
    ensures Faithful(Collect(base, cs, ch, k, size - p, run, rs), base, cs, ch, size) <==> EndsAligned(cs, ch, size, k)
    decreases size - p
  {
    hide Tiles, Maps, Unmergeable, EndOnDisk, DiskOffset, AddRegion, Collecting, EndsAligned, NoDup, AllValid,
         Tracks, Collect;
    CollectOnce(base, cs, ch, k, size - p, run, rs);
    if p == size {
      CloseRun(base, cs, ch, size, p, run, rs, total);
      NoneLeft(cs, ch, size, k);
    } else {
      MulGap(|ch|, k, cs);
      var cur := if cs < size - p then cs else size - p;
      OneMoreCluster(k, cs);
      var offset := DiskOffset(base, cs, ch[k]);
      AlignedStep(cs, ch, size, k);
      TracksOn(base, cs, ch, k, run);
      if k > 0 { Adjacent(base, cs, count, ch, k, run); }
      RunBounds(base, cs, ch, size, p, run, rs, total);
      if run.offset + run.size == offset {
        JoinRun(base, cs, ch, size, k, p, cur, run, rs, total);
        CollectExactly(base, cs, count, ch, size, k + 1, p + cur, Run(run.offset, run.size + cur), rs, total);
      } else if p % IMAGE_SECTOR == 0 {
        StartRun(base, cs, ch, size, k, p, cur, run, rs, total);
        CollectExactly(base, cs, count, ch, size, k + 1, p + cur, Run(offset, cur), AddRegion(rs, run.size, run.offset),
                       total + run.size / IMAGE_SECTOR);
      } else if p < size / IMAGE_SECTOR * IMAGE_SECTOR {
        BreakLoses(base, cs, count, ch, size, k, p, run, rs, total, Collect(base, cs, ch, k, size - p, run, rs));
      } else {
        CloseRun(base, cs, ch, size, p, run, rs, total);
        Aligned(base, cs, ch[k]);
        ScrapsAreFaithful(base, cs, ch, size, k + 1, size - p - cur, Run(offset, cur),
            AddRegion(rs, run.size, run.offset),
                          size / IMAGE_SECTOR);
        NoneLeft(cs, ch, size, k);
      }
    }
  }

  lemma CollectOnce(base: nat, cs: nat, ch: seq<nat>, k: nat, left: nat, run: Run, rs: seq<Region>)
    requires cs > 0
    ensures Collect(base, cs, ch, k, left, run, rs) ==
              if left == 0 || k >= |ch| then AddRegion(rs, run.size, run.offset)
              else
                var cur, offset := if cs < left then cs else left, DiskOffset(base, cs, ch[k]);
                if run.offset + run.size == offset then
                  Collect(base, cs, ch, k + 1, left - cur, Run(run.offset, run.size + cur), rs)
                else Collect(base, cs, ch, k + 1, left - cur, Run(offset, cur), AddRegion(rs, run.size, run.offset))
  {}

  lemma RunBounds(base: nat, cs: nat, ch: seq<nat>, size: nat, p: nat, run: Run, rs: seq<Region>, total: nat)
    requires cs > 0 && Collecting(base, cs, ch, size, p, run, rs, total)
    ensures p == total * IMAGE_SECTOR + run.size && (p % IMAGE_SECTOR == 0 ==> run.size % IMAGE_SECTOR == 0)
    ensures p >= size / IMAGE_SECTOR * IMAGE_SECTOR ==> p / IMAGE_SECTOR == size / IMAGE_SECTOR
    ensures p >= size / IMAGE_SECTOR * IMAGE_SECTOR && p % IMAGE_SECTOR != 0 ==> size - p < IMAGE_SECTOR
  {}

  /** A run stays tracked as its next cluster is taken, whether it joins or starts anew. */
  lemma TracksOn(base: nat, cs: nat, ch: seq<nat>, k: nat, run: Run)
    requires k < |ch|
    ensures run.offset + run.size == DiskOffset(base, cs, ch[k]) ==>
            Tracks(base, cs, ch, k + 1, Run(run.offset, run.size + cs))
    ensures Tracks(base, cs, ch, k + 1, Run(DiskOffset(base, cs, ch[k]), cs))
  {}

  lemma AlignedStep(cs: nat, ch: seq<nat>, size: nat, k: nat)
    requires k < |ch|
    ensures EndsAligned(cs, ch, size, k) <==>
            && (0 < k && k * cs < size / IMAGE_SECTOR * IMAGE_SECTOR && ch[k] != ch[k - 1] + 1 ==>
                k * cs % IMAGE_SECTOR == 0)
            && EndsAligned(cs, ch, size, k + 1)
  {}

  lemma NoneLeft(cs: nat, ch: seq<nat>, size: nat, k: nat)
    requires k * cs >= size / IMAGE_SECTOR * IMAGE_SECTOR
    ensures EndsAligned(cs, ch, size, k)
  {
    forall m | k <= m < |ch| ensures m * cs >= k * cs {
      MulGap(k, m, cs);
    }
  }

  /** The extent list of a whole file. */
  function Extract(base: nat, cs: nat, ch: seq<nat>, size: nat): seq<Region>
    requires cs > 0
  {
    Collect(base, cs, ch, 0, size, Run(0, 0), [])
  }

  ghost predicate Faithful(rs: seq<Region>, base: nat, cs: nat, ch: seq<nat>, size: nat)
    requires cs > 0
  {
    Tiles(rs, size / IMAGE_SECTOR) && Maps(rs, base, cs, ch, size) && Unmergeable(rs)
  }

  /** The extent list gives back every whole image sector of the file, in order, in as few regions as possible, exactly
      when no such sector is spread over more than one run of adjacent clusters. */
  lemma ExtractIsFaithful(base: nat, cs: nat, count: nat, ch: seq<nat>, size: nat)
    requires cs > 0 && cs % DISK_SECTOR == 0 && base % DISK_SECTOR == 0
    requires AllValid(count, ch) && NoDup(ch) && size <= |ch| * cs && size / IMAGE_SECTOR < U32
    ensures Faithful(Extract(base, cs, ch, size), base, cs, ch, size) <==> Unbroken(cs, ch, size)
  {
    hide EndsAligned, Unbroken, Faithful;
    UnbrokenIsAligned(cs, ch, size);
    assert Collecting(base, cs, ch, size, 0, Run(0, 0), [], 0) by { NoRegions(base, cs, ch, size); }
    CollectExactly(base, cs, count, ch, size, 0, 0, Run(0, 0), [], 0);
  }

  lemma NoRegions(base: nat, cs: nat, ch: seq<nat>, size: nat)
    requires cs > 0
    ensures Collecting(base, cs, ch, size, 0, Run(0, 0), [], 0)
  {}

  /** Clusters of whole image sectors always do. */
  lemma WholeClustersAreFaithful(base: nat, cs: nat, count: nat, ch: seq<nat>, size: nat)
    requires cs > 0 && cs % IMAGE_SECTOR == 0 && base % DISK_SECTOR == 0
    requires AllValid(count, ch) && NoDup(ch) && size <= |ch| * cs && size / IMAGE_SECTOR < U32
    ensures Faithful(Extract(base, cs, ch, size), base, cs, ch, size)
  {
    hide Faithful;
    ExtractIsFaithful(base, cs, count, ch, size);
    forall k: nat ensures k * cs % IMAGE_SECTOR == 0 {
      MultipleOfImage(k, cs / IMAGE_SECTOR, cs);
    }
    UnbrokenIsAligned(cs, ch, size);
  }

  lemma MultipleOfImage(n: nat, m: nat, cs: nat)
    requires cs == m * IMAGE_SECTOR
    ensures n * cs % IMAGE_SECTOR == 0
  {
    assert n * (m * IMAGE_SECTOR) == (n * m) * IMAGE_SECTOR;
    DivModUnique(n * m, 0, IMAGE_SECTOR);
  }

  /** With smaller clusters it depends: two of 1024 bytes that lie apart lose their sector, two pairs lose none. */
  lemma SmallClusters()
    ensures !Unbroken(1024, [2, 4], 2048) && Unbroken(1024, [2, 3, 6, 7], 4096)
    ensures Extract(4096, 1024, [2, 4], 2048) == [Region(0, 0, 8), Region(0, 0, 12)]
  {
    var ch := [2, 4];
    var r1 := AddRegion([], 1024, 4096);
    assert Collect(4096, 1024, ch, 2, 0, Run(6144, 1024), r1) == AddRegion(r1, 1024, 6144);
    assert Collect(4096, 1024, ch, 1, 1024, Run(4096, 1024), []) == Collect(4096, 1024, ch, 2, 0, Run(6144, 1024), r1);
    assert AddRegion([], 0, 0) == [];
    assert !InOneRun(1024, ch, 0) by { assert ch[1] != ch[1 - 1] + 1; }
    assert 0 < 2048 / IMAGE_SECTOR;
  }

  // ---- The growing table ----

  class ImageLocation {
    var maxRegion: nat
    var regions: array?<Region>
    var regionCount: nat

    ghost predicate Valid()
      reads this
    {
      regions != null && regions.Length == maxRegion > 0 && regionCount <= maxRegion
    }

    ghost function List(): seq<Region>
      requires Valid()
      reads this, regions
    {
      regions[..regionCount]
    }

    constructor ()
      ensures regions == null && regionCount == 0
    {
      maxRegion, regions, regionCount := 0, null, 0;
    }

    /** realloc_image_location: a larger table with the old entries in front. */
    method Realloc(max: nat)
      requires max > 0 && if regions == null then regionCount == 0 else Valid() && maxRegion <= max
      modifies this
      ensures Valid() && fresh(regions) && maxRegion == max
      ensures List() == if old(regions) == null then [] else old(List())
    {
      var table := new Region[max](i => Region(0, 0, 0));
      if regions != null {
        forall i | 0 <= i < maxRegion {
          table[i] := regions[i];
        }
      } else {
        regionCount := 0;
      }
      regions := table;
      maxRegion := max;
    }

    /** exfat_add_disk_region: extends the last region or appends one, in a table that doubles when it is full. */
    method AddDiskRegion(size: nat, offset: nat)
      requires Valid()
      modifies this, regions
      ensures Valid() && (regions == old(regions) || fresh(regions))
      ensures List() == AddRegion(old(List()), size, offset)
    {
      if size == 0 {
        return;
      }
      if regionCount == 0 {
        regions[0] := Region(size / IMAGE_SECTOR % U32, 0, offset / DISK_SECTOR);
        regionCount := 1;
        return;
      }
      var last := regions[regionCount - 1];
      if last.diskStartSector + last.imageSectorCount * 4 == offset / DISK_SECTOR {
        regions[regionCount - 1] := last.(imageSectorCount := (last.imageSectorCount + size / IMAGE_SECTOR) % U32);
        return;
      }
      if regionCount == maxRegion {
        Realloc(maxRegion * 2);
      }
      regions[regionCount] :=
        Region(size / IMAGE_SECTOR % U32, (last.imageStartSector + last.imageSectorCount) % U32, offset / DISK_SECTOR);
      regionCount := regionCount + 1;
    }

    /** exfat_get_image_location, for a heap that starts at disk byte base. */
    method GetImageLocation(ef: ExFat, node: Node, base: nat) returns (rc: int)
      requires ef.Valid() && node in ef.files && regions == null && regionCount == 0
      modifies this, node`fptrIndex, node`fptrCluster
      ensures Valid() && rc == if node.size == 0 then -EIO else 0
      ensures List() == if node.size == 0 then [] else Extract(base, ef.clusterSize, old(ef.FileChain(node)), node.size)
      ensures ef.clusterSize > 0
      ensures node.size > 0 && ef.clusterSize % DISK_SECTOR == 0 && base % DISK_SECTOR == 0
              && node.size / IMAGE_SECTOR < U32 ==>
                (Faithful(List(), base, ef.clusterSize, old(ef.FileChain(node)), node.size)
                 <==> Unbroken(ef.clusterSize, old(ef.FileChain(node)), node.size))
    {
      hide ExFat.Valid, ExFat.FileChain, Denotes, Exclusive, IsChain, AllValid, Linked, NoDup, Node.Cursor, Collect,
           AddRegion, DiskOffset, CeilDiv, Faithful, Unbroken, Extract;
      ValidParts(ef, node);
      ghost var ch, size := ef.FileChain(node), node.size;
      var cs := ef.clusterSize;
      OwnChain(ef, node);
      ef.ShapeOfChain(node, ch);
      NoClusters(size, cs);
      Realloc(1024);
      var cluster := ef.AdvanceCluster(node, 0, ch);
      assert List() == [];
      if ch != [] { ef.ChainAt(ch, 0); }
      if !ValidCluster(ef.count, cluster) {
        return -EIO;
      }
      CollectLoop(ef, node, base, cluster, ch);
      if cs % DISK_SECTOR == 0 && base % DISK_SECTOR == 0 && size / IMAGE_SECTOR < U32 {
        ExtractIsFaithful(base, cs, ef.count, ch, size);
      }
      rc := 0;
    }

    /** The cluster loop of exfat_get_image_location. */
    method CollectLoop(ef: ExFat, node: Node, base: nat, first: nat, ghost ch: seq<nat>)
      requires ef.Shape() && ef.clusterSize > 0 && AllValid(ef.count, ch) && Linked(ef.fat[..], node.isContiguous, ch)
      requires ch != [] && first == ch[0] && node.size <= |ch| * ef.clusterSize
      requires Valid() && List() == []
      modifies this, regions
      ensures Valid() && (regions == old(regions) || fresh(regions))
      ensures List() == Extract(base, ef.clusterSize, ch, node.size)
    {
      hide AllValid, Linked, Collect, AddRegion, DiskOffset;
      var cs, size := ef.clusterSize, node.size;
      var cluster, left, lastSize, lastOffset := first, size, 0, 0;
      ghost var k := 0;
      while left > 0
        invariant Valid() && (regions == old(regions) || fresh(regions)) && 0 <= k <= |ch|
        invariant 0 <= left <= size && (left > 0 ==> size - left == k * cs)
        invariant left > 0 ==> k < |ch| && cluster == ch[k]
        invariant lastSize >= 0 && lastOffset >= 0
        invariant Collect(base, cs, ch, k, left, Run(lastOffset, lastSize), List()) == Extract(base, cs, ch, size)
      {
        ef.ChainAt(ch, k);
        var curSize;
        curSize, lastOffset, lastSize := TakeChunk(base, cs, cluster, left, lastOffset, lastSize, ch, k);
        if left > curSize {
          NextChunk(k, cs, |ch|, size, left);
          ef.LinkedAt(ef.fat[..], node.isContiguous, ch, k);
        }
        cluster := ef.NextCluster(node, cluster);
        left := left - curSize;
        k := k + 1;
      }
      CollectEnd(base, cs, ch, k, Run(lastOffset, lastSize), List());
      AddDiskRegion(lastSize, lastOffset);
    }

    /** One cluster: extend the run, or record it and start the next one. */
    method TakeChunk(base: nat, cs: nat, cluster: nat, left: nat, offset: nat, size: nat, ghost ch: seq<nat>,
        ghost k: nat)
        returns (curSize: nat, offset': nat, size': nat)
      requires Valid() && cs > 0 && left > 0 && k < |ch| && cluster == ch[k]
      modifies this, regions
      ensures Valid() && (regions == old(regions) || fresh(regions)) && curSize == if cs < left then cs else left
      ensures Collect(base, cs, ch, k + 1, left - curSize, Run(offset', size'), List()) ==
              Collect(base, cs, ch, k, left, Run(offset, size), old(List()))
    {
      hide Collect, AddRegion, DiskOffset;
      curSize := if cs < left then cs else left;
      var curOffset := DiskOffset(base, cs, cluster);
      CollectStep(base, cs, ch, k, left, Run(offset, size), List(), curSize, curOffset);
      if offset + size == curOffset {
        offset', size' := offset, size + curSize;
      } else {
        AddDiskRegion(size, offset);
        offset', size' := curOffset, curSize;
      }
    }
  }

  lemma CollectStep(base: nat, cs: nat, ch: seq<nat>, k: nat, left: nat, run: Run, rs: seq<Region>, cur: nat,
      offset: nat)
    requires cs > 0 && left > 0 && k < |ch| && cur == (if cs < left then cs else left)
    requires offset == DiskOffset(base, cs, ch[k])
    ensures Collect(base, cs, ch, k, left, run, rs) ==
            if run.offset + run.size == offset then
              Collect(base, cs, ch, k + 1, left - cur, Run(run.offset, run.size + cur), rs)
            else
              Collect(base, cs, ch, k + 1, left - cur, Run(offset, cur), AddRegion(rs, run.size, run.offset))
  {}

  lemma CollectEnd(base: nat, cs: nat, ch: seq<nat>, k: nat, run: Run, rs: seq<Region>)
    requires cs > 0
    ensures Collect(base, cs, ch, k, 0, run, rs) == AddRegion(rs, run.size, run.offset)
  {}

  lemma NoClusters(size: nat, cs: nat)
    requires cs > 0
    ensures CeilDiv(size, cs) == 0 <==> size == 0
  {}

  lemma NextChunk(k: nat, cs: nat, n: nat, size: nat, left: nat)
    requires size <= n * cs && cs < left <= size && size - left == k * cs
    ensures k + 1 < n && size - (left - cs) == (k + 1) * cs
  {
    MulGap(n, k + 1, cs);
  }
}
