/** fat_filelib.c and fat_cache.c: reading a file through a last-lookup shortcut, a cluster cache and a sector
    buffer. */
module FatFile {
  import opened Arithmetic
  import opened SectorCache
  import opened FatChains
  import opened FatTable

  /** Where the data clusters are. */
  datatype Geometry = Geometry(clusterBegin: nat, rootEntryCount: nat, sectorsPerCluster: nat)

  /** fatfs_lba_of_cluster. */
  function LbaOfCluster(kind: Kind, g: Geometry, c: nat): nat
    requires c >= 2
  {
    if kind.Fat16? then g.clusterBegin + g.rootEntryCount * 32 / 512 + (c - 2) * g.sectorsPerCluster
    else g.clusterBegin + (c - 2) * g.sectorsPerCluster
  }

  /** The clusters of a chain lie on the disk, behind the FAT. */
  ghost predicate OnDisk(fs: FatFs, g: Geometry, ch: seq<nat>, size: nat) {
    && g.sectorsPerCluster > 0
    && forall k :: 0 <= k < |ch| ==>
         && ch[k] >= 2 && LbaOfCluster(fs.kind, g, ch[k]) >= fs.fatBegin + fs.fatSectors
         && LbaOfCluster(fs.kind, g, ch[k]) + g.sectorsPerCluster <= size
  }

  /** Which disk sector holds sector s of the file. */
  ghost function SectorLba(fs: FatFs, g: Geometry, ch: seq<nat>, size: nat, s: nat): (lba: nat)
    requires OnDisk(fs, g, ch, size) && s < |ch| * g.sectorsPerCluster
    ensures fs.fatBegin + fs.fatSectors <= lba < size
  {
    DivBelow(s, |ch|, g.sectorsPerCluster);
    LbaOfCluster(fs.kind, g, ch[s / g.sectorsPerCluster]) + s % g.sectorsPerCluster
  }

  /** All the bytes of a chain, one cluster after another. */
  ghost function Bytes(fs: FatFs, g: Geometry, ch: seq<nat>, v: seq<Sector>): (b: seq<byte>)
    requires OnDisk(fs, g, ch, |v|)
    ensures |b| == |ch| * g.sectorsPerCluster * 512
  {
    seq(|ch| * g.sectorsPerCluster * 512,
        j requires 0 <= j < |ch| * g.sectorsPerCluster * 512 => v[SectorLba(fs, g, ch, |v|, j / 512)][j % 512])
  }

  lemma ByteAt(fs: FatFs, g: Geometry, ch: seq<nat>, v: seq<Sector>, s: nat, i: nat)
    requires OnDisk(fs, g, ch, |v|) && s < |ch| * g.sectorsPerCluster && i < 512
    ensures s * 512 + i < |Bytes(fs, g, ch, v)|
    ensures Bytes(fs, g, ch, v)[s * 512 + i] == v[SectorLba(fs, g, ch, |v|, s)][i]
  {
    hide OnDisk, SectorLba;
    assert (s * 512 + i) / 512 == s && (s * 512 + i) % 512 == i;
  }

  /** Sectors of one cluster follow one another on the disk. */
  lemma NextInCluster(fs: FatFs, g: Geometry, ch: seq<nat>, size: nat, s: nat, d: nat)
    requires OnDisk(fs, g, ch, size) && s < |ch| * g.sectorsPerCluster
             && s % g.sectorsPerCluster + d < g.sectorsPerCluster
    ensures s + d < |ch| * g.sectorsPerCluster
    ensures SectorLba(fs, g, ch, size, s + d) == SectorLba(fs, g, ch, size, s) + d
  {
    var spc := g.sectorsPerCluster;
    DivBelow(s, |ch|, spc);
    DivMod(s, spc);
    MulGap(s / spc, |ch|, spc);
    DivModUnique(s / spc, s % spc + d, spc);
  }

  /** A read of n sectors within one cluster gives that slice of the file. */
  lemma SectorsAreBytes(fs: FatFs, g: Geometry, ch: seq<nat>, v: seq<Sector>, s: nat, n: nat, got: seq<byte>)
    requires OnDisk(fs, g, ch, |v|) && s < |ch| * g.sectorsPerCluster && n > 0
    requires s % g.sectorsPerCluster + n <= g.sectorsPerCluster && |got| == n * 512
    requires SectorLba(fs, g, ch, |v|, s) + n <= |v|
    requires forall i :: 0 <= i < n * 512 ==> got[i] == v[SectorLba(fs, g, ch, |v|, s) + i / 512][i % 512]
    ensures s * 512 + n * 512 <= |Bytes(fs, g, ch, v)|
    ensures got == Bytes(fs, g, ch, v)[s * 512..s * 512 + n * 512]
  {
    hide Bytes, SectorLba;
    NextInCluster(fs, g, ch, |v|, s, n - 1);
    forall i | 0 <= i < n * 512
      ensures s * 512 + i < |Bytes(fs, g, ch, v)| && got[i] == Bytes(fs, g, ch, v)[s * 512 + i]
    {
      NextInCluster(fs, g, ch, |v|, s, i / 512);
      ByteAt(fs, g, ch, v, s + i / 512, i % 512);
      assert (s + i / 512) * 512 + i % 512 == s * 512 + i;
    }
  }

  /** What follows cluster i of a chain. */
  function Follower(ch: seq<nat>, i: nat): nat {
    if i + 1 < |ch| then ch[i + 1] else LAST
  }

  class FlFile {
    const startCluster: nat
    const fileLength: nat
    const readable: bool
    var bytenum: nat
    /** cluster_cache_idx and cluster_cache_data: a direct-mapped cache, of no entries when it is compiled out. */
    const cacheIdx: array<nat>
    const cacheData: array<nat>
    /** last_fat_lookup. */
    var lastIdx: nat
    var lastCluster: nat
    /** file_data_sector, and the number of the file's sector in it. */
    const sector: array<byte>
    var dataAddress: nat

    ghost predicate Shape() {
      cacheIdx != cacheData && cacheIdx.Length == cacheData.Length && sector.Length == SECTOR_SIZE
    }

    /** Everything the handle remembers about the chain is true of it. */
    ghost predicate Lookups(ch: seq<nat>)
      requires Shape()
      reads this`lastIdx, this`lastCluster, cacheIdx, cacheData
    {
      && 0 < |ch| < INVALID && startCluster == ch[0]
      && (lastIdx == INVALID || (lastIdx < |ch| && lastCluster == ch[lastIdx]))
      && forall s :: 0 <= s < cacheIdx.Length && cacheIdx[s] != INVALID ==> cacheData[s] == Follower(ch, cacheIdx[s])
    }

    /** The sector buffer, if in use, holds the file's bytes. */
    ghost predicate Buffered(bytes: seq<byte>)
      reads this`dataAddress, sector
    {
      dataAddress == INVALID
      || (dataAddress * 512 + 512 <= |bytes| && sector[..] == bytes[dataAddress * 512..dataAddress * 512 + 512])
    }

    /** The state of a handle just opened. */
    constructor (start: nat, length: nat, readable: bool, entries: nat)
      ensures Shape() && startCluster == start && fileLength == length && this.readable == readable && bytenum == 0
      ensures fresh(sector) && fresh(cacheIdx) && fresh(cacheData) && cacheIdx.Length == entries
      ensures lastIdx == dataAddress == INVALID && forall s :: 0 <= s < entries ==> cacheIdx[s] == INVALID
    {
      startCluster, fileLength, this.readable, bytenum := start, length, readable, 0;
      cacheIdx := new nat[entries](i => INVALID);
      cacheData := new nat[entries](i => 0);
      sector := new byte[SECTOR_SIZE](i => 0);
      lastIdx, lastCluster, dataAddress := INVALID, LAST, INVALID;
    }

    // ---- fat_cache.c ----

    /** fatfs_cache_get_next_cluster. */
    method CacheGet(i: nat, ghost ch: seq<nat>) returns (hit: bool, next: nat)
      requires Shape() && Lookups(ch) && i < |ch|
      ensures hit <==> cacheIdx.Length > 0 && cacheIdx[i % cacheIdx.Length] == i
      ensures hit ==> next == Follower(ch, i)
    {
      hit, next := false, 0;
      if cacheIdx.Length > 0 {
        var slot := i % cacheIdx.Length;
        if cacheIdx[slot] == i {
          hit, next := true, cacheData[slot];
        }
      }
    }

    /** fatfs_cache_set_next_cluster. */
    method CacheSet(i: nat, next: nat, ghost ch: seq<nat>)
      requires Shape() && Lookups(ch) && i < |ch| && next == Follower(ch, i)
      modifies cacheIdx, cacheData
      ensures Lookups(ch)
      ensures cacheIdx.Length > 0 ==> cacheIdx[..] == old(cacheIdx[..])[i % cacheIdx.Length := i]
      ensures cacheIdx.Length > 0 ==> cacheData[..] == old(cacheData[..])[i % cacheIdx.Length := next]
    {
      if cacheIdx.Length > 0 {
        var slot := i % cacheIdx.Length;
        if cacheIdx[slot] == i {
          cacheData[slot] := next;
        } else {
          cacheIdx[slot] := i;
          cacheData[slot] := next;
        }
      }
    }

    // ---- _read_sectors ----

    /** One step of the walk, from cluster number i of the chain to the next. */
    method Follow(fs: FatFs, i: nat, cluster: nat, ghost ch: seq<nat>) returns (next: nat)
      requires fs.Valid() && !fs.faulty && IsChain(fs.kind, fs.Table(), ch)
      requires Shape() && Lookups(ch) && i < |ch| && cluster == ch[i]
      modifies fs`disk, fs`head, fs`list, fs.buffers, fs.Arrays()
      modifies cacheIdx, cacheData
      ensures fs.Valid() && fs.View() == old(fs.View()) && fs.Table() == old(fs.Table())
      ensures Lookups(ch) && next == Follower(ch, i)
    {
      hide FatFs.Valid, FatFs.View, FatFs.Buffered, FatFs.SlotsOf, FatFs.Slots, FatFs.Listed, FatFs.Table;
      hide Next;
      fs.TableFits();
      var hit;
      hit, next := CacheGet(i, ch);
      InChain(fs, ch, i);
      if !hit {
        next := fs.FindNextCluster(cluster);
        CacheSet(i, next, ch);
      }
    }

    /** The shortcut and the walk of _read_sectors: cluster number `index` of the chain, or the end mark just behind
        it. */
    method Locate(fs: FatFs, index: nat, ghost ch: seq<nat>) returns (cluster: nat)
      requires fs.Valid() && !fs.faulty && IsChain(fs.kind, fs.Table(), ch)
      requires Shape() && Lookups(ch) && index <= |ch|
      modifies fs`disk, fs`head, fs`list, fs.buffers, fs.Arrays()
      modifies this`lastIdx, this`lastCluster, cacheIdx, cacheData
      ensures fs.Valid() && fs.View() == old(fs.View()) && fs.Table() == old(fs.Table())
      ensures Lookups(ch) && cluster == if index < |ch| then ch[index] else LAST
      ensures if index < |ch| then lastIdx == index else lastIdx == old(lastIdx)
    {
      hide FatFs.Valid, FatFs.View, FatFs.Buffered, FatFs.SlotsOf, FatFs.Slots, FatFs.Listed, FatFs.Table;
      hide Next;
      if index == lastIdx {
        return lastCluster;
      }
      fs.TableFits();
      var i: nat;
      if index > 0 && index == lastIdx + 1 {
        i, cluster := lastIdx, lastCluster;
      } else {
        i, cluster := 0, startCluster;
      }
      while i < index
        invariant fs.Valid() && fs.View() == old(fs.View()) && fs.Table() == old(fs.Table())
        invariant i <= index && Lookups(ch) && cluster == if i < |ch| then ch[i] else LAST
        invariant lastIdx == old(lastIdx)
        decreases index - i
      {
        cluster := Follow(fs, i, cluster, ch);
        i := i + 1;
      }
      InChain(fs, ch, index);
      if cluster != LAST {
        lastCluster, lastIdx := cluster, index;
      }
    }

    /** read_media of n sectors into a byte buffer. */
    static method ReadMedia(fs: FatFs, lba: nat, n: nat, buffer: array<byte>, at: nat)
      requires lba + n <= |fs.disk| && at + n * 512 <= buffer.Length
      modifies buffer
      ensures forall i :: 0 <= i < n * 512 ==> buffer[at + i] == fs.disk[lba + i / 512][i % 512]
      ensures buffer[..at] == old(buffer[..at]) && buffer[at + n * 512..] == old(buffer[at + n * 512..])
    {
      forall i | 0 <= i < n * 512 {
        buffer[at + i] := fs.disk[lba + i / 512][i % 512];
      }
    }

    /** Reads n sectors of the file that follow one another on the disk. */
    static method ReadRun(fs: FatFs, g: Geometry, lba: nat, offset: nat, buffer: array<byte>, at: nat, n: nat,
        ghost ch: seq<nat>)
      requires fs.Valid() && OnDisk(fs, g, ch, |fs.View()|) && offset < |ch| * g.sectorsPerCluster && n > 0
      requires lba == SectorLba(fs, g, ch, |fs.View()|, offset)
               && offset % g.sectorsPerCluster + n <= g.sectorsPerCluster
      requires at + n * 512 <= buffer.Length && buffer !in fs.Arrays()
      modifies buffer
      ensures offset * 512 + n * 512 <= |Bytes(fs, g, ch, fs.View())|
      ensures buffer[at..at + n * 512] == Bytes(fs, g, ch, fs.View())[offset * 512..offset * 512 + n * 512]
      ensures buffer[..at] == old(buffer[..at]) && buffer[at + n * 512..] == old(buffer[at + n * 512..])
    {
      hide FatFs.Valid, FatFs.View, Bytes, SectorLba, OnDisk;
      ghost var v := fs.View();
      OnMedium(fs, g, ch, offset, n);
      ReadMedia(fs, lba, n, buffer, at);
      SectorsAreBytes(fs, g, ch, v, offset, n, buffer[at..at + n * 512]);
    }

    /** Reads up to count sectors of the file from sector offset on, but not past the end of a cluster. */
    method ReadSectors(fs: FatFs, g: Geometry, offset: nat, buffer: array<byte>, at: nat, count: nat,
        ghost ch: seq<nat>)
        returns (n: nat)
      requires fs.Valid() && !fs.faulty && IsChain(fs.kind, fs.Table(), ch) && OnDisk(fs, g, ch, |fs.View()|)
      requires Shape() && Lookups(ch) && offset <= |ch| * g.sectorsPerCluster && count > 0
      requires at + count * 512 <= buffer.Length && buffer !in fs.Arrays()
      modifies fs`disk, fs`head, fs`list, fs.buffers, fs.Arrays()
      modifies this`lastIdx, this`lastCluster, cacheIdx, cacheData, buffer
      ensures fs.Valid() && fs.View() == old(fs.View()) && fs.Table() == old(fs.Table()) && Lookups(ch) && n <= count
      ensures n == 0 <==> offset == |ch| * g.sectorsPerCluster
      ensures n > 0 ==> n == Min(count, g.sectorsPerCluster - offset % g.sectorsPerCluster)
      ensures offset * 512 + n * 512 <= |Bytes(fs, g, ch, fs.View())|
      ensures n > 0 ==> buffer[at..at + n * 512] == Bytes(fs, g, ch, fs.View())[offset * 512..offset * 512 + n * 512]
      ensures buffer[..at] == old(buffer[..at]) && buffer[at + n * 512..] == old(buffer[at + n * 512..])
    {
      hide FatFs.Valid, FatFs.View, FatFs.SlotsOf, FatFs.Slots, FatFs.Listed, FatFs.Table, Lookups, IsChain, Bytes,
           SectorLba;
      var spc := g.sectorsPerCluster;
      var index := offset / spc;
      var inCluster := offset - index * spc;
      n := if inCluster + count > spc then spc - inCluster else count;
      WhichCluster(offset, |ch|, spc);
      var cluster := Locate(fs, index, ch);
      InChain(fs, ch, index);
      if cluster == LAST {
        return 0;
      }
      var lba := LbaOfCluster(fs.kind, g, cluster) + inCluster;
      LbaIs(fs, g, ch, |fs.View()|, offset);
      ReadRun(fs, g, lba, offset, buffer, at, n, ch);
    }

    // ---- fl_fread ----

    /** What every read of this file relies on: the FAT and the data do not change, and the chain covers the file. */
    ghost predicate Readable(fs: FatFs, g: Geometry, ch: seq<nat>)
      reads this`lastIdx, this`lastCluster, this`dataAddress, fs, fs.buffers, fs.Arrays(), cacheIdx, cacheData, sector
    {
      && fs.Valid() && !fs.faulty && IsChain(fs.kind, fs.Table(), ch) && OnDisk(fs, g, ch, |fs.View()|)
      && Shape() && Lookups(ch) && |ch| * g.sectorsPerCluster < INVALID
      && sector !in fs.Arrays() && Buffered(Bytes(fs, g, ch, fs.View()))
      && fileLength <= |Bytes(fs, g, ch, fs.View())|
    }

    /** The bytes of the file's clusters. */
    ghost function Content(fs: FatFs, g: Geometry, ch: seq<nat>): (b: seq<byte>)
      requires Readable(fs, g, ch)
      reads this`lastIdx, this`lastCluster, this`dataAddress, fs, fs.buffers, fs.Arrays(), cacheIdx, cacheData, sector
      ensures fileLength <= |b| == |ch| * g.sectorsPerCluster * 512
    {
      Bytes(fs, g, ch, fs.View())
    }

    /** The sector buffer is made to hold sector s of the file. */
    method FillBuffer(fs: FatFs, g: Geometry, s: nat, ghost ch: seq<nat>) returns (ok: bool)
      requires Readable(fs, g, ch) && s <= |ch| * g.sectorsPerCluster
      modifies fs`disk, fs`head, fs`list, fs.buffers, fs.Arrays()
      modifies this`lastIdx, this`lastCluster, this`dataAddress, cacheIdx, cacheData, sector
      ensures Readable(fs, g, ch) && fs.View() == old(fs.View()) && ok == (s < |ch| * g.sectorsPerCluster)
      ensures ok ==> s * 512 + 512 <= |Bytes(fs, g, ch, fs.View())|
      ensures ok ==> sector[..] == Bytes(fs, g, ch, fs.View())[s * 512..s * 512 + 512]
    {
      hide FatFs.Valid, FatFs.View, FatFs.SlotsOf, FatFs.Slots, FatFs.Listed, FatFs.Table, Lookups, IsChain, Bytes,
           OnDisk;
      ok := true;
      if dataAddress != s {
        ghost var was := sector[..];
        var got := ReadSectors(fs, g, s, sector, 0, 1, ch);
        if got == 0 {
          assert sector[0..] == was;
          return false;
        }
        dataAddress := s;
        assert sector[0..512] == sector[..];
      }
    }

    /** One turn of the loop: whole sectors straight into the caller's buffer, or part of one by way of the sector
        buffer. */
    method ReadPiece(fs: FatFs, g: Geometry, s: nat, offset: nat, buffer: array<byte>, at: nat, left: nat,
        ghost ch: seq<nat>)
        returns (copied: nat, sectors: nat)
      requires Readable(fs, g, ch) && offset < 512 && left > 0 && at + left <= buffer.Length
      requires buffer !in fs.Arrays() && buffer != sector && s <= |ch| * g.sectorsPerCluster
      modifies fs`disk, fs`head, fs`list, fs.buffers, fs.Arrays()
      modifies this`lastIdx, this`lastCluster, this`dataAddress, cacheIdx, cacheData, sector, buffer
      ensures Readable(fs, g, ch) && Content(fs, g, ch) == old(Content(fs, g, ch)) && copied <= left
      ensures copied == 0 <==> s == |ch| * g.sectorsPerCluster
      ensures copied > 0 ==> s * 512 + offset + copied <= |Content(fs, g, ch)|
      ensures copied > 0 ==> buffer[at..at + copied] == Content(fs, g, ch)[s * 512 + offset..s * 512 + offset + copied]
      ensures buffer[..at] == old(buffer[..at])
      ensures 0 < copied < left ==> (s + sectors) * 512 == s * 512 + offset + copied
    {
      hide FatFs.Valid, FatFs.View, FatFs.SlotsOf, FatFs.Slots, FatFs.Listed, FatFs.Table, FatFs.Arrays;
      hide Lookups, IsChain, Bytes, OnDisk;
      if offset == 0 && left >= 512 {
        sectors := ReadSectors(fs, g, s, buffer, at, left / 512, ch);
        copied := 512 * sectors;
      } else {
        hide Readable;
        var ok := FillBuffer(fs, g, s, ch);
        if !ok {
          return 0, 0;
        }
        copied := if 512 - offset > left then left else 512 - offset;
        sectors := 1;
        CopyOut(fs, g, s, offset, buffer, at, copied, ch);
      }
    }

    /** Part of the sector buffer into the caller's. */
    method CopyOut(fs: FatFs, g: Geometry, s: nat, offset: nat, buffer: array<byte>, at: nat, n: nat,
        ghost ch: seq<nat>)
      requires Readable(fs, g, ch) && offset + n <= 512 && at + n <= buffer.Length
      requires buffer !in fs.Arrays() && buffer != sector && s * 512 + 512 <= |Bytes(fs, g, ch, fs.View())|
      requires sector[..] == Bytes(fs, g, ch, fs.View())[s * 512..s * 512 + 512]
      modifies buffer
      ensures Readable(fs, g, ch) && fs.View() == old(fs.View())
      ensures buffer[at..at + n] == Bytes(fs, g, ch, fs.View())[s * 512 + offset..s * 512 + offset + n]
      ensures buffer[..at] == old(buffer[..at])
    {
      hide FatFs.Valid, FatFs.View, Lookups, IsChain, Bytes, OnDisk;
      ghost var bytes := Bytes(fs, g, ch, fs.View());
      forall i | 0 <= i < n {
        buffer[at + i] := sector[offset + i];
      }
      Copied(bytes, sector[..], s * 512, offset, n, buffer[at..at + n]);
    }

    /** The loop of fl_fread: reads piece by piece, and stops early only at the end of the last cluster. */
    method ReadPieces(fs: FatFs, g: Geometry, buffer: array<byte>, left: int, ghost ch: seq<nat>) returns (read: nat)
      requires Readable(fs, g, ch) && left <= buffer.Length && buffer !in fs.Arrays() && buffer != sector
      requires bytenum <= |Content(fs, g, ch)|
      modifies fs`disk, fs`head, fs`list, fs.buffers, fs.Arrays()
      modifies this`bytenum, this`lastIdx, this`lastCluster, this`dataAddress, cacheIdx, cacheData, sector, buffer
      ensures Readable(fs, g, ch) && Content(fs, g, ch) == old(Content(fs, g, ch))
      ensures read == (if left < 0 then 0 else Min(left, |Content(fs, g, ch)| - old(bytenum)))
              && bytenum == old(bytenum) + read
      ensures read <= buffer.Length && buffer[..read] == Content(fs, g, ch)[old(bytenum)..old(bytenum) + read]
    {
      hide Readable, Content;
      ghost var pos, bytes := bytenum, Content(fs, g, ch);
      var s: nat, offset: nat := bytenum / 512, bytenum % 512;
      read := 0;
      while read < left
        invariant Readable(fs, g, ch) && Content(fs, g, ch) == bytes && (read == 0 || read <= left)
                  && bytenum == pos + read <= |bytes|
        invariant read < left ==> offset < 512 && s <= |ch| * g.sectorsPerCluster && s * 512 + offset == bytenum
        invariant buffer[..read] == bytes[pos..pos + read]
        decreases left - read
      {
        var copied, sectors := ReadPiece(fs, g, s, offset, buffer, read, left - read, ch);
        if copied == 0 {
          break;
        }
        JoinPieces(buffer[..], bytes, pos, read, copied);
        s, offset := s + sectors, 0;
        read := read + copied;
        bytenum := bytenum + copied;
      }
    }

    /** Reads count bytes, a signed 32-bit number, into the start of the buffer; returns how many, or -1. The buffer has
        room for as many as the limit on the count lets through. */
    method FRead(fs: FatFs, g: Geometry, buffer: array<byte>, count: int, ghost ch: seq<nat>) returns (n: int)
      requires Readable(fs, g, ch) && Limited(fileLength, bytenum, count) <= buffer.Length
      requires buffer !in fs.Arrays() && buffer != sector
      requires bytenum < WRAP && fileLength < WRAP && -HALF <= count < HALF
      modifies fs`disk, fs`head, fs`list, fs.buffers, fs.Arrays()
      modifies this`bytenum, this`lastIdx, this`lastCluster, this`dataAddress, cacheIdx, cacheData, sector, buffer
      ensures Readable(fs, g, ch) && Content(fs, g, ch) == old(Content(fs, g, ch))
      ensures n == ReadResult(readable, |Content(fs, g, ch)|, fileLength, old(bytenum), count)
      ensures n <= 0 ==> bytenum == old(bytenum)
      ensures n > 0 ==> bytenum == old(bytenum) + n <= |Content(fs, g, ch)| && n <= buffer.Length
      ensures n > 0 ==> buffer[..n] == Content(fs, g, ch)[old(bytenum)..old(bytenum) + n]
    {
      hide Readable, Content;
      if !readable {
        return -1;
      }
      if count == 0 {
        return 0;
      }
      if bytenum >= fileLength {
        return -1;
      }
      var left := if Wrapped(bytenum + count) > fileLength then Signed(fileLength - bytenum) else count;
      n := ReadPieces(fs, g, buffer, left, ch);
    }

    // ---- fl_fseek ----

    /** Moves the position; the sector buffer is dropped, which costs a read but changes no byte. */
    method FSeek(offset: int, origin: Origin, ghost fs: FatFs, ghost g: Geometry, ghost ch: seq<nat>) returns (res: int)
      requires Readable(fs, g, ch) && bytenum < WRAP && fileLength < WRAP
      modifies this`bytenum, this`dataAddress
      ensures Readable(fs, g, ch) && Content(fs, g, ch) == old(Content(fs, g, ch))
      ensures bytenum == SeekResult(fileLength, old(bytenum), offset, origin)
      ensures res == if origin.Other? || (origin.End? && offset != 0) then -1 else 0
    {
      hide FatFs.Valid, FatFs.View, FatFs.Table, Lookups, IsChain, Bytes, OnDisk, FatFs.Arrays;
      res := -1;
      if origin.End? && offset != 0 {
        return;
      }
      dataAddress := INVALID;
      match origin {
        case Set =>
          bytenum := Wrapped(offset);
          if bytenum > fileLength {
            bytenum := fileLength;
          }
          res := 0;
        case Cur =>
          if offset >= 0 {
            bytenum := Wrapped(bytenum + offset);
            if bytenum > fileLength {
              bytenum := fileLength;
            }
          } else {
            var back := -offset;
            if Wrapped(back) > bytenum {
              bytenum := 0;
            } else {
              bytenum := Wrapped(bytenum - back);
            }
          }
          res := 0;
        case End =>
          bytenum := fileLength;
          res := 0;
        case Other =>
      }
    }
  }

  datatype Origin = Set | Cur | End | Other

  const WRAP: nat := 0x1_0000_0000
  const HALF: int := 0x8000_0000

  /** Conversion to an unsigned 32-bit number. */
  function Wrapped(x: int): (w: nat)
    ensures w < WRAP
  {
    x % WRAP
  }

  /** Conversion of an unsigned 32-bit number to a signed one. */
  function Signed(x: int): int {
    if x < HALF then x else x - WRAP
  }

  /** The count once it is limited to the file. */
  function Limited(length: nat, pos: nat, count: int): int {
    if Wrapped(pos + count) > length then Signed(length - pos) else count
  }

  /** What fl_fread returns, for a chain of `total` bytes. */
  function ReadResult(readable: bool, total: nat, length: nat, pos: nat, count: int): int {
    if !readable then -1
    else if count == 0 then 0
    else if pos >= length then -1
    else if Limited(length, pos, count) < 0 then 0
    else Min(Limited(length, pos, count), total - pos)
  }

  /** Where fl_fseek leaves the position. */
  function SeekResult(length: nat, pos: nat, offset: int, origin: Origin): nat {
    match origin
    case Set => if Wrapped(offset) > length then length else Wrapped(offset)
    case Cur =>
      if offset >= 0 then (if Wrapped(pos + offset) > length then length else Wrapped(pos + offset))
      else if Wrapped(-offset) > pos then 0 else Wrapped(pos + offset)
    case End => if offset == 0 then length else pos
    case Other => pos
  }

  /** A read is limited to the file exactly when position plus count fits 32 bits, unless the chain has no byte to
      spare. */
  lemma ReadIsLimited(total: nat, length: nat, pos: nat, count: nat)
    requires pos < length <= total && length < WRAP && 0 < count < HALF
    ensures ReadResult(true, total, length, pos, count) == Min(count, length - pos)
            <==> pos + count < WRAP || total == length
  {
    assert pos + count >= WRAP ==> Wrapped(pos + count) == pos + count - WRAP;
  }

  /** A negative count reads nothing, unless it wraps past the end of a file with less than 2^31 bytes to go. */
  lemma NegativeReads(total: nat, length: nat, pos: nat, count: int)
    requires pos < length <= total && length < WRAP && -HALF <= count < 0
    ensures ReadResult(true, total, length, pos, count) == 0
            <==> pos + count >= 0 || WRAP + pos + count <= length || length - pos >= HALF
  {
    assert pos + count < 0 ==> Wrapped(pos + count) == WRAP + pos + count;
  }

  /** Seeks go where they were told, cut off at both ends of the file, exactly when they stay within 32 bits or what is
      left of them is cut off all the same. */
  lemma SeekIsClamped(length: nat, pos: nat, offset: int)
    requires pos < WRAP && length < WRAP
    ensures SeekResult(length, pos, offset, Set) == (if offset < 0 then 0 else Min(offset, length))
            <==> || 0 <= offset < WRAP
                 || if offset < 0 then Wrapped(offset) == 0 || length == 0 else Wrapped(offset) >= length
    ensures offset >= 0 ==>
              (SeekResult(length, pos, offset, Cur) == Min(pos + offset, length)
               <==> pos + offset < WRAP || Wrapped(pos + offset) >= length)
    ensures offset < 0 ==>
              (SeekResult(length, pos, offset, Cur) == (if pos + offset < 0 then 0 else pos + offset)
               <==> -offset < WRAP || Wrapped(-offset) >= pos)
  {
    if offset < 0 {
      Negated(pos, offset);
    }
  }

  lemma Negated(pos: nat, offset: int)
    requires offset < 0 && pos < WRAP
    ensures Wrapped(-offset) <= pos ==> Wrapped(pos + offset) == pos - Wrapped(-offset)
  {
    var q := (-offset) / WRAP;
    assert -offset == q * WRAP + Wrapped(-offset);
    assert pos + offset == -q * WRAP + (pos - Wrapped(-offset));
  }

  lemma JoinPieces(b: seq<byte>, bytes: seq<byte>, pos: nat, read: nat, copied: nat)
    requires read + copied <= |b| && pos + read + copied <= |bytes|
    requires b[..read] == bytes[pos..pos + read] && b[read..read + copied] == bytes[pos + read..pos + read + copied]
    ensures b[..read + copied] == bytes[pos..pos + (read + copied)]
  {
    assert b[..read + copied] == b[..read] + b[read..read + copied];
    assert bytes[pos..pos + (read + copied)] == bytes[pos..pos + read] + bytes[pos + read..pos + read + copied];
  }

  lemma Copied(bytes: seq<byte>, sector: seq<byte>, from: nat, offset: nat, n: nat, got: seq<byte>)
    requires |sector| == 512 && from + 512 <= |bytes| && sector == bytes[from..from + 512] && offset + n <= 512
    requires got == sector[offset..offset + n]
    ensures got == bytes[from + offset..from + offset + n]
  {
    forall i | 0 <= i < n ensures got[i] == bytes[from + offset + i] {
      assert sector[offset + i] == bytes[from + (offset + i)];
    }
  }

  lemma LbaIs(fs: FatFs, g: Geometry, ch: seq<nat>, size: nat, s: nat)
    requires OnDisk(fs, g, ch, size) && s < |ch| * g.sectorsPerCluster && s / g.sectorsPerCluster < |ch|
    ensures SectorLba(fs, g, ch, size, s) == LbaOfCluster(fs.kind, g, ch[s / g.sectorsPerCluster])
            + s % g.sectorsPerCluster
  {}

  lemma WhichCluster(offset: nat, n: nat, spc: nat)
    requires spc > 0 && offset <= n * spc
    ensures offset / spc <= n && (offset / spc == n <==> offset == n * spc)
    ensures offset - offset / spc * spc == offset % spc < spc
  {
    DivMod(offset, spc);
    MulGap(n, offset / spc, spc);
    MulGap(offset / spc, n, spc);
  }

  lemma InChain(fs: FatFs, ch: seq<nat>, k: nat)
    requires fs.Valid() && IsChain(fs.kind, fs.Table(), ch)
    ensures k < |ch| ==> ch[k] != LAST
  {
    fs.TableFits();
  }

  /** The sectors about to be read are on the disk as everyone sees them. */
  lemma OnMedium(fs: FatFs, g: Geometry, ch: seq<nat>, s: nat, n: nat)
    requires fs.Valid() && OnDisk(fs, g, ch, |fs.View()|) && s < |ch| * g.sectorsPerCluster && n > 0
    requires s % g.sectorsPerCluster + n <= g.sectorsPerCluster
    ensures var lba := SectorLba(fs, g, ch, |fs.View()|, s);
            lba + n <= |fs.disk| == |fs.View()| && forall a :: lba <= a < lba + n ==> fs.disk[a] == fs.View()[a]
  {
    hide FatFs.View, SectorLba;
    var lba := SectorLba(fs, g, ch, |fs.View()|, s);
    NextInCluster(fs, g, ch, |fs.View()|, s, n - 1);
    forall a | lba <= a < lba + n ensures fs.disk[a] == fs.View()[a] {
      NextInCluster(fs, g, ch, |fs.View()|, s, a - lba);
      fs.DataOnDisk(a);
    }
  }
}
