/** Runs of fl_fread and fl_fseek on one handle, and the sector lookup that directories use. */
module FatFileRuns {
  import opened Arithmetic
  import opened SectorCache
  import opened FatChains
  import opened FatTable
  import opened FatFile

  // ---- The flat file ----

  datatype Call = Read(count: nat) | Seek(offset: int, origin: Origin)

  datatype Reply = Reply(rc: int, data: seq<byte>)

  /** Reading from, and moving within, a plain sequence of bytes. */
  function FlatCall(content: seq<byte>, readable: bool, pos: nat, call: Call): (r: (nat, Reply)) {
    match call
    case Read(count) =>
      if !readable || (count > 0 && pos >= |content|) then (pos, Reply(-1, []))
      else if count == 0 then (pos, Reply(0, []))
      else
        var n: nat := Min(count, |content| - pos);
        (pos + n, Reply(n, content[pos..pos + n]))
    case Seek(offset, origin) =>
      match origin
      case Set => (if offset < 0 then 0 else Min(offset, |content|), Reply(0, []))
      case Cur => (if pos + offset < 0 then 0 else Min(pos + offset, |content|), Reply(0, []))
      case End => if offset == 0 then (|content|, Reply(0, [])) else (pos, Reply(-1, []))
      case Other => (pos, Reply(-1, []))
  }

  /** The arithmetic of the call stays within 32 bits, signed ones for a count. */
  predicate NoOverflow(pos: nat, call: Call) {
    match call
    case Read(count) => count < HALF && pos + count < WRAP
    case Seek(offset, origin) =>
      match origin
      case Set => 0 <= offset < WRAP
      case Cur => -offset < WRAP && pos + offset < WRAP
      case _ => true
  }

  function FlatCalls(content: seq<byte>, readable: bool, pos: nat, calls: seq<Call>): (nat, seq<Reply>) {
    if calls == [] then (pos, [])
    else
      var last := |calls| - 1;
      var (p, replies) := FlatCalls(content, readable, pos, calls[..last]);
      var (q, reply) := FlatCall(content, readable, p, calls[last]);
      (q, replies + [reply])
  }

  lemma OneMoreCall(content: seq<byte>, readable: bool, pos: nat, calls: seq<Call>, i: nat)
    requires i < |calls|
    ensures var (p, replies) := FlatCalls(content, readable, pos, calls[..i]);
            var (q, reply) := FlatCall(content, readable, p, calls[i]);
            FlatCalls(content, readable, pos, calls[..i + 1]) == (q, replies + [reply])
  {
    hide FlatCall;
    assert calls[..i + 1][..i] == calls[..i] && calls[..i + 1][i] == calls[i];
  }

  /** A handle just opened on a file whose chain covers its length knows nothing wrong about it. */
  method Open(fs: FatFs, g: Geometry, length: nat, readable: bool, entries: nat, start: nat, ghost ch: seq<nat>)
      returns (file: FlFile)
    requires fs.Valid() && !fs.faulty && IsChain(fs.kind, fs.Table(), ch) && ch[0] == start
    requires OnDisk(fs, g, ch, |fs.View()|) && |ch| * g.sectorsPerCluster < INVALID
    requires length <= |Bytes(fs, g, ch, fs.View())|
    ensures fresh(file) && fresh(file.sector) && fresh(file.cacheIdx) && fresh(file.cacheData)
    ensures file.Readable(fs, g, ch) && file.bytenum == 0 && file.fileLength == length && file.readable == readable
    ensures file.Content(fs, g, ch) == Bytes(fs, g, ch, fs.View())
  {
    hide FatFs.Valid, FatFs.View, FatFs.Table, Bytes, OnDisk, IsChain;
    HasLength(fs, g, ch);
    ghost var others := fs.Arrays();
    file := new FlFile(start, length, readable, entries);
  }

  lemma HasLength(fs: FatFs, g: Geometry, ch: seq<nat>)
    requires fs.Valid() && OnDisk(fs, g, ch, |fs.View()|) && |ch| * g.sectorsPerCluster < INVALID
    requires IsChain(fs.kind, fs.Table(), ch)
    ensures 0 < |ch| < INVALID
  {
    hide FatFs.Valid, FatFs.View, FatFs.Table;
    MulGap(1, g.sectorsPerCluster, |ch|);
  }

  /** One call, as the flat file answers it. */
  method Perform(fs: FatFs, g: Geometry, file: FlFile, call: Call, ghost ch: seq<nat>) returns (reply: Reply)
    requires file.Readable(fs, g, ch) && file.bytenum <= file.fileLength < WRAP && NoOverflow(file.bytenum, call)
    modifies fs`disk, fs`head, fs`list, fs.buffers, fs.Arrays()
    modifies file`bytenum, file`lastIdx, file`lastCluster, file`dataAddress, file.cacheIdx, file.cacheData, file.sector
    ensures file.Readable(fs, g, ch) && file.Content(fs, g, ch) == old(file.Content(fs, g, ch))
            && file.bytenum <= file.fileLength
    ensures (file.bytenum, reply)
            == FlatCall(file.Content(fs, g, ch)[..file.fileLength], file.readable, old(file.bytenum), call)
  {
    hide FlFile.Readable, FlFile.Content;
    match call
    case Read(count) =>
      LimitedFits(file.fileLength, file.bytenum, count);
      var buffer := new byte[count](i => 0);
      var n := file.FRead(fs, g, buffer, count, ch);
      reply := Reply(n, if n > 0 then buffer[..n] else []);
      if file.readable && count > 0 && old(file.bytenum) < file.fileLength {
        ReadIsLimited(|file.Content(fs, g, ch)|, file.fileLength, old(file.bytenum), count);
        SliceOfPrefix(file.Content(fs, g, ch), file.fileLength, old(file.bytenum), n);
      }
    case Seek(offset, origin) =>
      SeekIsClamped(file.fileLength, file.bytenum, offset);
      var res := file.FSeek(offset, origin, fs, g, ch);
      reply := Reply(res, []);
  }

  lemma LimitedFits(length: nat, pos: nat, count: nat)
    requires pos <= length < WRAP && count < HALF && pos + count < WRAP
    ensures Limited(length, pos, count) <= count
  {}

  lemma SliceOfPrefix(b: seq<byte>, length: nat, from: nat, n: nat)
    requires from + n <= length <= |b|
    ensures b[..length][from..from + n] == b[from..from + n]
  {}

  /** Any run of reads and seeks on an open handle returns the bytes and positions of the flat file. */
  method Run(fs: FatFs, g: Geometry, file: FlFile, calls: seq<Call>, ghost ch: seq<nat>) returns (replies: seq<Reply>)
    requires file.Readable(fs, g, ch) && file.bytenum <= file.fileLength < WRAP
    requires forall i :: 0 <= i < |calls| ==>
               NoOverflow(FlatCalls(file.Content(fs, g, ch)[..file.fileLength], file.readable, file.bytenum,
                   calls[..i]).0, calls[i])
    modifies fs`disk, fs`head, fs`list, fs.buffers, fs.Arrays()
    modifies file`bytenum, file`lastIdx, file`lastCluster, file`dataAddress, file.cacheIdx, file.cacheData, file.sector
    ensures file.Readable(fs, g, ch) && file.Content(fs, g, ch) == old(file.Content(fs, g, ch))
    ensures (file.bytenum, replies)
            == FlatCalls(file.Content(fs, g, ch)[..file.fileLength], file.readable, old(file.bytenum), calls)
  {
    hide FlFile.Readable, FlFile.Content, FlatCalls, FlatCall, NoOverflow;
    ghost var flat, pos := file.Content(fs, g, ch)[..file.fileLength], file.bytenum;
    replies := [];
    NoCalls(flat, file.readable, pos, calls);
    for i := 0 to |calls|
      invariant file.Readable(fs, g, ch) && file.Content(fs, g, ch) == old(file.Content(fs, g, ch))
                && file.bytenum <= file.fileLength
      invariant (file.bytenum, replies) == FlatCalls(flat, file.readable, pos, calls[..i])
    {
      OneMoreCall(flat, file.readable, pos, calls, i);
      var reply := Perform(fs, g, file, calls[i], ch);
      replies := replies + [reply];
    }
    assert calls[..|calls|] == calls;
  }

  lemma NoCalls(content: seq<byte>, readable: bool, pos: nat, calls: seq<Call>)
    ensures FlatCalls(content, readable, pos, calls[..0]) == (pos, [])
  {}

  // ---- fatfs_sector_reader ----

  /** Cluster number n of a chain, or the end mark just behind it. */
  method WalkTo(fs: FatFs, start: nat, n: nat, ghost ch: seq<nat>) returns (cluster: nat)
    requires fs.Valid() && !fs.faulty && IsChain(fs.kind, fs.Table(), ch) && ch[0] == start && n <= |ch|
    modifies fs`disk, fs`head, fs`list, fs.buffers, fs.Arrays()
    ensures fs.Valid() && fs.View() == old(fs.View()) && fs.Table() == old(fs.Table())
    ensures cluster == if n < |ch| then ch[n] else LAST
  {
    hide FatFs.Valid, FatFs.View, FatFs.SlotsOf, FatFs.Slots, FatFs.Listed, FatFs.Table, FatFs.Buffered, Next;
    fs.TableFits();
    cluster := start;
    for i := 0 to n
      invariant fs.Valid() && fs.View() == old(fs.View()) && fs.Table() == old(fs.Table())
      invariant i <= |ch| && cluster == if i < |ch| then ch[i] else LAST
    {
      cluster := fs.FindNextCluster(cluster);
    }
  }

  /** Which sector of the disk holds sector `offset` of a chain: none past its end. The FAT16 root directory, cluster
      0, has no chain. */
  method ResolveSector(fs: FatFs, g: Geometry, rootFirst: nat, rootSectors: nat, start: nat, offset: nat,
      ghost ch: seq<nat>)
      returns (ok: bool, lba: nat)
    requires fs.Valid() && !fs.faulty
    requires fs.kind.Fat32? || start != 0 ==>
               && IsChain(fs.kind, fs.Table(), ch) && ch[0] == start && OnDisk(fs, g, ch, |fs.View()|)
               && offset <= |ch| * g.sectorsPerCluster
    modifies fs`disk, fs`head, fs`list, fs.buffers, fs.Arrays()
    ensures fs.Valid() && fs.View() == old(fs.View())
    ensures fs.kind.Fat16? && start == 0 ==> ok == (offset < rootSectors) && (ok ==> lba == rootFirst + offset)
    ensures fs.kind.Fat32? || start != 0 ==>
              && ok == (offset < |ch| * g.sectorsPerCluster)
              && (ok ==> OnDisk(fs, g, ch, |fs.View()|) && lba == SectorLba(fs, g, ch, |fs.View()|, offset))
  {
    hide FatFs.Valid, FatFs.View, FatFs.SlotsOf, FatFs.Slots, FatFs.Listed, FatFs.Table, FatFs.Buffered, Next,
         OnDisk, SectorLba;
    lba := 0;
    if fs.kind.Fat16? && start == 0 {
      ok := offset < rootSectors;
      lba := rootFirst + offset;
      return;
    }
    SomeSectors(fs, g, ch);
    fs.TableFits();
    var clusterToRead := offset / g.sectorsPerCluster;
    WhichCluster(offset, |ch|, g.sectorsPerCluster);
    var sectorToRead := offset - clusterToRead * g.sectorsPerCluster;
    var cluster := WalkTo(fs, start, clusterToRead, ch);
    InChain(fs, ch, clusterToRead);
    if cluster == LAST {
      return false, 0;
    }
    Located(fs, g, ch, |fs.View()|, offset);
    ok, lba := true, LbaOfCluster(fs.kind, g, cluster) + sectorToRead;
  }

  lemma SomeSectors(fs: FatFs, g: Geometry, ch: seq<nat>)
    requires fs.Valid() && OnDisk(fs, g, ch, |fs.View()|)
    ensures g.sectorsPerCluster > 0
  {}

  lemma Located(fs: FatFs, g: Geometry, ch: seq<nat>, size: nat, s: nat)
    requires OnDisk(fs, g, ch, size) && s < |ch| * g.sectorsPerCluster && s / g.sectorsPerCluster < |ch|
    ensures ch[s / g.sectorsPerCluster] >= 2
    ensures SectorLba(fs, g, ch, size, s) == LbaOfCluster(fs.kind, g, ch[s / g.sectorsPerCluster])
            + s % g.sectorsPerCluster
  {}
}
