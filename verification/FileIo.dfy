/** exfat_generic_pread and exfat_generic_pwrite: reading and writing a file through its chain. */
module FileIo {
  import opened Arithmetic
  import opened Bitmap
  import opened Chains
  import opened FlatFile
  import opened Cluster
  import opened Volume

  // ---- exfat_generic_pread ----

  /** Reading inside cluster k of a chain reads exactly there in the file. */
  lemma ViewRead(heap: seq<byte>, cs: nat, count: nat, ch: seq<nat>, k: nat, lo: nat, n: nat, pos: nat)
    requires Layout(heap, cs, count, ch) && k < |ch| && lo + n <= cs && pos == k * cs + lo
    ensures Offset(cs, ch[k]) + lo + n <= |heap|
    ensures pos + n <= |ch| * cs
    ensures heap[Offset(cs, ch[k]) + lo..Offset(cs, ch[k]) + lo + n] == View(heap, cs, count, ch)[pos..pos + n]
  {
    OffsetFits(cs, count, ch[k]);
    MulGap(k, |ch|, cs);
    var h, v := Offset(cs, ch[k]) + lo, k * cs + lo;
    var got, want := heap[h..h + n], View(heap, cs, count, ch)[v..v + n];
    forall i | 0 <= i < n ensures got[i] == want[i] {
      ReadByte(heap, cs, count, ch, k, lo + i);
    }
  }

  lemma ReadByte(heap: seq<byte>, cs: nat, count: nat, ch: seq<nat>, k: nat, at: nat)
    requires Layout(heap, cs, count, ch) && k < |ch| && at < cs
    ensures Offset(cs, ch[k]) + at < |heap| && k * cs + at < |ch| * cs
    ensures heap[Offset(cs, ch[k]) + at] == View(heap, cs, count, ch)[k * cs + at]
  {
    OffsetFits(cs, count, ch[k]);
    MulGap(k, |ch|, cs);
    DivModUnique(k, at, cs);
    ViewAt(heap, cs, count, ch, k * cs + at);
  }

  /** exfat_pread of n bytes at a heap position. */
  method DeviceRead(ef: ExFat, buffer: array<byte>, at: nat, n: nat, position: nat)
    requires buffer != ef.heap && at + n <= buffer.Length && position + n <= ef.heap.Length
    modifies buffer
    ensures buffer[..] == old(buffer[..at]) + ef.heap[position..position + n] + old(buffer[at + n..])
  {
    forall i | 0 <= i < n {
      buffer[at + i] := ef.heap[position + i];
    }
  }

  /** Reads the bytes of a file from offset on, up to its end. */
  method GenericPread(ef: ExFat, node: Node, buffer: array<byte>, size: nat, offset: nat) returns (n: int)
    requires ef.Valid() && node in ef.files && size <= buffer.Length && buffer != ef.heap
    requires buffer as object != ef.chunk && buffer as object != ef.fat
    modifies buffer, node`fptrIndex, node`fptrCluster
    ensures ef.Valid() && n == (if offset >= node.size then 0 else Min(size, node.size - offset))
    ensures forall f :: f in ef.files ==>
            ef.FileChain(f) == old(ef.FileChain(f)) && Content(ef, f) == old(Content(ef, f))
    ensures n > 0 ==> buffer[..n] == Content(ef, node)[offset..offset + n]
    ensures buffer[n..] == old(buffer[n..])
  {
    hide Denotes, Exclusive, Bits, AllSet, AllValid, NoDup, Linked, View, ExFat.Clusters, Node.Cursor, ExFat.Map, Walk,
         ExFat.Valid, ExFat.FileOk, CeilDiv, IsChain, ExFat.FileChain, Content, Recorded, Pow2, Recall,
         ExFat.FileView;
    if offset >= node.size || size == 0 {
      return 0;
    }
    ValidParts(ef, node);
    ghost var b := Before(ef.fat[..], ef.Map(), ef.heap[..], ef.FileChains(), node.size);
    OwnChain(ef, node);
    RecallNow(ef, b);
    n := Min(size, node.size - offset);
    ReadLoop(ef, node, buffer, offset, n, ef.FileChain(node));
    CursorMoved(ef, node, b);
    RecallNow(ef, b);
    assert ef.FileChain(node) == b.chains[node] by { assert ef.FileChains()[node] == ef.FileChain(node); }
    ContentSlice(ef, node, offset, offset + n);
  }

  lemma ContentSlice(ef: ExFat, f: Node, from: nat, to: nat)
    requires ef.Valid() && f in ef.files && from <= to <= f.size
    ensures AllValid(ef.count, ef.FileChain(f)) && to <= |ef.FileView(ef.FileChain(f))|
    ensures Content(ef, f)[from..to] == ef.FileView(ef.FileChain(f))[from..to]
  {
    hide View, Exclusive, Bits, ExFat.Clusters, Walk, CeilDiv;
    OwnChain(ef, f);
  }

  /** Moving a node's cursor within its chain leaves the volume consistent and every chain as it was. */
  lemma CursorMoved(ef: ExFat, node: Node, b: Before)
    requires ef.HeapShape() && ef.clusterSize == Pow2(ef.clusterBits) && ef.clusterSize <= 0x200_0000
    requires Recorded(ef, node, b.fat, b.chains) && b.fat == ef.fat[..]
    requires Exclusive(ef.count, ef.Map(), ef.reserved, b.chains) && node.size <= MAX_CLUSTERS * ef.clusterSize
    requires |b.chains[node]| == ef.Clusters(node.size) && node.Cursor(b.chains[node])
    requires Denotes(ef.fat[..], ef.count, node.startCluster, node.isContiguous, b.chains[node])
    ensures ef.Valid() && ef.FileChains() == b.chains
  {
    hide Denotes, Exclusive, Bits, Node.Cursor, Pow2, Resized, SameOutside, OwnOrFree;
    NothingResized(ef.Map(), b.chains[node]);
    NothingTouched(b.fat, ef.Map(), b.chains[node]);
    Settle(ef, node, b.fat, ef.Map(), b.chains, b.chains[node], b.chains[node]);
  }

  /** A chunk that reaches the end of cluster k is followed by the start of cluster k + 1, if the file goes on. */
  lemma NextPos(k: nat, cs: nat, n: nat, lo: nat, pos: nat, chunk: nat)
    requires pos == k * cs + lo && lo + chunk == cs && pos + chunk < n * cs
    ensures k + 1 < n && pos + chunk == (k + 1) * cs
  {
    MulGap(n, k + 1, cs);
  }

  /** The first `at` bytes are the file's from `from` on, and the others are what they were. */
  ghost predicate ReadTo(now: seq<byte>, orig: seq<byte>, v: seq<byte>, from: nat, at: nat) {
    && |now| == |orig| && at <= |now| && from + at <= |v|
    && now[..at] == v[from..from + at] && now[at..] == orig[at..]
  }

  /** One chunk more of a read from byte `from` on. */
  method ReadInCluster(ef: ExFat, ghost k: nat, cluster: nat, lo: nat, buffer: array<byte>, at: nat, n: nat,
                       ghost ch: seq<nat>, ghost from: nat, ghost orig: seq<byte>)
    requires ef.HeapShape() && AllValid(ef.count, ch) && buffer != ef.heap
    requires k < |ch| && cluster == ch[k] && lo + n <= ef.clusterSize && at + n <= buffer.Length
    requires from + at == k * ef.clusterSize + lo && ReadTo(buffer[..], orig, ef.FileView(ch), from, at)
    modifies buffer
    ensures ReadTo(buffer[..], orig, ef.FileView(ch), from, at + n)
  {
    hide View, AllValid;
    ghost var v := ef.FileView(ch);
    ef.ChainAt(ch, k);
    ViewRead(ef.heap[..], ef.clusterSize, ef.count, ch, k, lo, n, from + at);
    DeviceRead(ef, buffer, at, n, (cluster - FIRST_DATA_CLUSTER) * ef.clusterSize + lo);
    ReadSoFar(buffer[..], orig, v, from, at, n,
              ef.heap[Offset(ef.clusterSize, ch[k]) + lo..Offset(ef.clusterSize, ch[k]) + lo + n]);
  }

  lemma ReadSoFar(now: seq<byte>, orig: seq<byte>, v: seq<byte>, from: nat, at: nat, n: nat, got: seq<byte>)
    requires at + n <= |orig| == |now| && from + at + n <= |v| && got == v[from + at..from + at + n]
    requires now == v[from..from + at] + got + orig[at..][n..]
    ensures ReadTo(now, orig, v, from, at + n)
  {}

  lemma NothingRead(now: seq<byte>, v: seq<byte>, from: nat)
    requires from <= |v|
    ensures ReadTo(now, now, v, from, 0)
  {}

  lemma AllRead(now: seq<byte>, orig: seq<byte>, v: seq<byte>, from: nat, n: nat)
    requires ReadTo(now, orig, v, from, n)
    ensures n <= |now| == |orig| && from + n <= |v| && now[..n] == v[from..from + n] && now[n..] == orig[n..]
  {}

  /** Where byte `offset` of a file of n clusters is: the cluster's number and the place in it. */
  method Position(offset: nat, cs: nat, ghost n: nat) returns (index: nat, lo: nat)
    requires cs > 0 && offset < n * cs
    ensures index < n && lo < cs && offset == index * cs + lo
  {
    DivBelow(offset, n, cs);
    DivMod(offset, cs);
    index, lo := offset / cs, offset % cs;
  }

  /** The loop of exfat_generic_pread. */
  method ReadLoop(ef: ExFat, node: Node, buffer: array<byte>, offset: nat, total: nat, ghost ch: seq<nat>)
    requires ef.HeapShape() && buffer != ef.heap && buffer as object != ef.chunk && buffer as object != ef.fat
    requires Denotes(ef.fat[..], ef.count, node.startCluster, node.isContiguous, ch) && node.Cursor(ch)
    requires AllValid(ef.count, ch) && 0 < total <= buffer.Length && offset + total <= |ch| * ef.clusterSize
    modifies buffer, node`fptrIndex, node`fptrCluster
    ensures node.Cursor(ch)
    ensures buffer[..total] == ef.FileView(ch)[offset..offset + total]
    ensures buffer[total..] == old(buffer[total..])
  {
    hide Denotes, Bits, AllValid, NoDup, Linked, View, Node.Cursor, ExFat.Map, IsChain, ExFat.FileView, ReadTo;
    var cs := ef.clusterSize;
    ef.ShapeOfChain(node, ch);
    var index, loffset := Position(offset, cs, |ch|);
    var cluster := ef.AdvanceCluster(node, index, ch);
    ghost var k, v, orig := index, ef.FileView(ch), buffer[..];
    var bufp: nat, remainder: nat := 0, total;
    NothingRead(orig, v, offset);
    while remainder > 0
      invariant bufp + remainder == total && loffset < cs && k >= 0
      invariant remainder > 0 ==> k < |ch| && cluster == ch[k] && offset + bufp == k * cs + loffset
      invariant node.Cursor(ch)
      invariant ReadTo(buffer[..], orig, v, offset, bufp)
    {
      var lsize := Min(cs - loffset, remainder);
      ReadInCluster(ef, k, cluster, loffset, buffer, bufp, lsize, ch, offset, orig);
      if remainder > lsize {
        NextPos(k, cs, |ch|, loffset, offset + bufp, lsize);
        ef.LinkedAt(ef.fat[..], node.isContiguous, ch, k);
      }
      bufp := bufp + lsize;
      loffset := 0;
      remainder := remainder - lsize;
      cluster := ef.NextCluster(node, cluster);
      k := k + 1;
    }
    AllRead(buffer[..], orig, v, offset, total);
  }

  // ---- exfat_generic_pwrite ----

  /** exfat_pwrite of n bytes to a heap position. */
  method DeviceWrite(ef: ExFat, buffer: array<byte>, at: nat, n: nat, position: nat)
    requires buffer != ef.heap && at + n <= buffer.Length && position + n <= ef.heap.Length
    modifies ef.heap
    ensures ef.heap[..] == Splice(old(ef.heap[..]), position, buffer[at..at + n])
  {
    forall i | 0 <= i < n {
      ef.heap[position + i] := buffer[at + i];
    }
  }

  /** One chunk of a write. */
  method WriteInCluster(ef: ExFat, ghost k: nat, cluster: nat, lo: nat, buffer: array<byte>, at: nat, n: nat,
      ghost ch: seq<nat>,
                        ghost pos: nat)
    requires ef.HeapShape() && AllValid(ef.count, ch) && NoDup(ch)
    requires k < |ch| && cluster == ch[k] && lo + n <= ef.clusterSize && buffer != ef.heap && at + n <= buffer.Length
    requires pos == k * ef.clusterSize + lo
    modifies ef.heap
    ensures pos + n <= |ch| * ef.clusterSize
    ensures ef.FileView(ch) == Splice(old(ef.FileView(ch)), pos, buffer[at..at + n])
    ensures ef.Undisturbed(old(ef.heap[..]), ef.heap[..], ch)
  {
    hide View, NoDup;
    ghost var heap0, data := ef.heap[..], buffer[at..at + n];
    ef.ChainAt(ch, k);
    OffsetFits(ef.clusterSize, ef.count, cluster);
    MulGap(k, |ch|, ef.clusterSize);
    ViewWrite(heap0, ef.clusterSize, ef.count, ch, k, lo, data);
    DeviceWrite(ef, buffer, at, n, (cluster - FIRST_DATA_CLUSTER) * ef.clusterSize + lo);
    ef.ClusterUndisturbed(heap0, cluster, lo, data, ch);
  }

  /** One chunk more of a write from byte `from` on, of which buffer[..at] is already in place. */
  method WriteChunk(ef: ExFat, ghost k: nat, cluster: nat, lo: nat, buffer: array<byte>, at: nat, n: nat,
      ghost ch: seq<nat>,
                    ghost from: nat, ghost v0: seq<byte>, ghost heap0: seq<byte>)
    requires ef.HeapShape() && AllValid(ef.count, ch) && NoDup(ch)
    requires k < |ch| && cluster == ch[k] && lo + n <= ef.clusterSize && buffer != ef.heap && at + n <= buffer.Length
    requires from + at == k * ef.clusterSize + lo && from + at <= |v0| && |heap0| == ef.heap.Length
    requires ef.FileView(ch) == Splice(v0, from, buffer[..at]) && ef.Undisturbed(heap0, ef.heap[..], ch)
    modifies ef.heap
    ensures from + at + n <= |v0| && ef.FileView(ch) == Splice(v0, from, buffer[..at + n])
    ensures ef.Undisturbed(heap0, ef.heap[..], ch)
  {
    hide AllValid, NoDup, Splice, ExFat.Undisturbed, View;
    ghost var heap1, data := ef.heap[..], buffer[..at + n];
    WriteInCluster(ef, k, cluster, lo, buffer, at, n, ch, from + at);
    assert data[..at] == buffer[..at] && data[at..at + n] == buffer[at..at + n] && data[..at + n] == buffer[..at + n];
    SpliceFurther(v0, from, data, at, n);
    ef.UndisturbedTwice(heap0, heap1, ef.heap[..], ch);
  }

  /** The loop of exfat_generic_pwrite. */
  method WriteLoop(ef: ExFat, node: Node, buffer: array<byte>, offset: nat, total: nat, ghost ch: seq<nat>)
    requires ef.HeapShape() && buffer != ef.heap
    requires Denotes(ef.fat[..], ef.count, node.startCluster, node.isContiguous, ch) && node.Cursor(ch)
    requires AllValid(ef.count, ch) && 0 < total <= buffer.Length && offset + total <= |ch| * ef.clusterSize
    modifies ef.heap, node`fptrIndex, node`fptrCluster
    ensures node.Cursor(ch)
    ensures ef.FileView(ch) == Splice(old(ef.FileView(ch)), offset, buffer[..total])
    ensures ef.Undisturbed(old(ef.heap[..]), ef.heap[..], ch)
  {
    hide Denotes, Bits, AllValid, NoDup, Linked, View, Node.Cursor, ExFat.Map, IsChain, Splice, ExFat.Undisturbed,
         ValidCluster, ExFat.FileView;
    var cs := ef.clusterSize;
    ef.ShapeOfChain(node, ch);
    var index, loffset := Position(offset, cs, |ch|);
    var cluster := ef.AdvanceCluster(node, index, ch);
    ghost var k, v0, heap0 := index, ef.FileView(ch), ef.heap[..];
    var bufp: nat, remainder: nat := 0, total;
    ef.NothingDisturbed(heap0, ch);
    SpliceNothing(v0, offset);
    while remainder > 0
      invariant bufp + remainder == total && loffset < cs && k >= 0
      invariant remainder > 0 ==> k < |ch| && cluster == ch[k] && offset + bufp == k * cs + loffset
      invariant node.Cursor(ch)
      invariant ef.FileView(ch) == Splice(v0, offset, buffer[..bufp])
      invariant ef.Undisturbed(heap0, ef.heap[..], ch)
    {
      var lsize := Min(cs - loffset, remainder);
      ef.ChainAt(ch, k);
      WriteChunk(ef, k, cluster, loffset, buffer, bufp, lsize, ch, offset, v0, heap0);
      if remainder > lsize {
        NextPos(k, cs, |ch|, loffset, offset + bufp, lsize);
        ef.LinkedAt(ef.fat[..], node.isContiguous, ch, k);
      }
      bufp := bufp + lsize;
      loffset := 0;
      remainder := remainder - lsize;
      cluster := ef.NextCluster(node, cluster);
      k := k + 1;
    }
  }

  lemma SpliceFurther(v: seq<byte>, offset: nat, data: seq<byte>, k: nat, n: nat)
    requires k + n <= |data| && offset + k + n <= |v|
    ensures Splice(Splice(v, offset, data[..k]), offset + k, data[k..k + n]) == Splice(v, offset, data[..k + n])
  {
    SpliceTwice(v, offset, data[..k], data[k..k + n]);
    assert data[..k + n] == data[..k] + data[k..k + n];
  }

  /** Writing over bytes the file already has. */
  method WriteWithin(ef: ExFat, node: Node, buffer: array<byte>, size: nat, offset: nat)
    requires ef.Valid() && node in ef.files && 0 < size <= buffer.Length && offset + size <= node.size
    requires buffer != ef.heap
    modifies ef.heap, node`fptrIndex, node`fptrCluster
    ensures ef.Valid()
    ensures Content(ef, node) == Splice(old(Content(ef, node)), offset, buffer[..size])
    ensures forall g :: g in ef.files ==> ef.FileChain(g) == old(ef.FileChain(g))
    ensures forall g :: g in ef.files && g != node ==> Content(ef, g) == old(Content(ef, g))
  {
    hide Denotes, Exclusive, Bits, AllSet, AllValid, NoDup, Linked, View, ExFat.Clusters, Node.Cursor, ExFat.Map, Walk,
         ExFat.Valid, ExFat.FileOk, CeilDiv, IsChain, ExFat.FileChain, Content, Recorded, Pow2, Recall,
         Splice, ExFat.Undisturbed;
    ValidParts(ef, node);
    ghost var b := Before(ef.fat[..], ef.Map(), ef.heap[..], ef.FileChains(), node.size);
    ghost var ch := ef.FileChain(node);
    OwnChain(ef, node);
    RecallNow(ef, b);
    SameChains(ef, b);
    WriteLoop(ef, node, buffer, offset, size, ch);
    CursorMoved(ef, node, b);
    SameChains(ef, b);
    OtherContents(ef, node, b, ch);
    OwnWritten(ef, node, b, offset, buffer[..size]);
  }

  lemma OwnWritten(ef: ExFat, node: Node, b: Before, offset: nat, data: seq<byte>)
    requires ef.Valid() && node in ef.files && |b.heap| == ef.heap.Length
    requires node in b.chains && ef.FileChain(node) == b.chains[node] && AllValid(ef.count, b.chains[node])
    requires node.size <= |b.chains[node]| * ef.clusterSize && offset + |data| <= node.size
    requires ef.FileView(b.chains[node]) == Splice(View(b.heap, ef.clusterSize, ef.count, b.chains[node]), offset, data)
    ensures Content(ef, node) == Splice(Recall(ef, b, node, node.size), offset, data)
  {
    hide View, Exclusive, Bits, Denotes;
  }

  // ---- The flat file each operation refines ----

  /** One file as a byte sequence, beside the number of free clusters of its volume. */
  datatype Flat = Flat(content: seq<byte>, free: nat)

  function FlatResized(c: seq<byte>, size: nat): (r: seq<byte>)
    ensures |r| == size
  {
    if size <= |c| then c[..size] else c + Zeros(size - |c|)
  }

  function FlatTruncate(s: Flat, cs: nat, size: nat): (Flat, int)
    requires cs > 0
  {
    var have, need := CeilDiv(|s.content|, cs), CeilDiv(size, cs);
    if need <= have + s.free then (Flat(FlatResized(s.content, size), have + s.free - need), 0) else (s, -ENOSPC)
  }

  function FlatWrite(s: Flat, cs: nat, offset: nat, data: seq<byte>): (Flat, int)
    requires cs > 0
  {
    var (s1, rc1) := if offset > |s.content| then FlatTruncate(s, cs, offset) else (s, 0);
    if rc1 != 0 then (s1, rc1) else FlatWriteOn(s1, cs, offset, data)
  }

  /** The write once the file reaches to the offset. */
  function FlatWriteOn(s: Flat, cs: nat, offset: nat, data: seq<byte>): (Flat, int)
    requires cs > 0 && offset <= |s.content|
  {
    var (s2, rc2) := if offset + |data| > |s.content| then FlatTruncate(s, cs, offset + |data|) else (s, 0);
    if rc2 != 0 then (s2, rc2) else (s2.(content := Splice(s2.content, offset, data)), |data|)
  }

  /** What a successful flat write means byte by byte. */
  lemma FlatWriteMeaning(s: Flat, cs: nat, offset: nat, data: seq<byte>)
    requires cs > 0 && FlatWrite(s, cs, offset, data).1 >= 0
    ensures var c := FlatWrite(s, cs, offset, data).0.content;
            && |c| == (if |s.content| < offset + |data| then offset + |data| else |s.content|)
            && c[offset..offset + |data|] == data
            && forall i :: 0 <= i < |c| && !(offset <= i < offset + |data|) ==>
                 c[i] == if i < |s.content| then s.content[i] else 0
  {
    hide CeilDiv;
  }

  ghost function FlatOf(ef: ExFat, node: Node): Flat
    requires ef.Valid() && node in ef.files
    reads ef, ef.chunk, ef.fat, ef.heap, ef.files
  {
    Flat(Content(ef, node), FreeClusters(ef))
  }

  lemma CeilDivMonotone(a: nat, b: nat, d: nat)
    requires d > 0 && a <= b
    ensures CeilDiv(a, d) <= CeilDiv(b, d)
  {
    if CeilDiv(b, d) < CeilDiv(a, d) { SmallerIsFewer(a, b, d); }
  }

  lemma SmallerNotBackward(ef: ExFat, node: Node, a: nat, b: nat)
    requires ef.Valid() && node in ef.files && a <= b <= MAX_CLUSTERS * ef.clusterSize && !Backward(ef, node, b)
    ensures !Backward(ef, node, a)
  {
    ClusterCount(ef, a);
    ClusterCount(ef, b);
    CeilDivMonotone(a, b, ef.clusterSize);
  }

  /** exfat_truncate of a file that is not in the lone backward case, to a size its clusters can hold. */
  method FitTruncate(ef: ExFat, node: Node, size: nat, erase: bool) returns (rc: int)
    requires ef.Valid() && node in ef.files && (node.references != 0 || node.parent == null)
    requires size <= MAX_CLUSTERS * ef.clusterSize && !Backward(ef, node, size)
    modifies ef`dirty, ef.chunk, ef.fat, ef.heap,
             node`fptrIndex, node`fptrCluster, node`startCluster, node`isContiguous, node`isDirty, node`size
    ensures ef.Valid() && node.size == if rc == 0 then size else old(node.size)
    ensures var r := FlatTruncate(old(FlatOf(ef, node)), ef.clusterSize, size);
            rc == r.1 && FreeClusters(ef) == r.0.free
    ensures var before, after := old(Content(ef, node)), Content(ef, node);
            && |before| == old(node.size) && (rc != 0 ==> after == before)
            && (rc == 0 && size <= |before| ==> after == before[..size])
            && (rc == 0 && size > |before| ==> after[..|before|] == before)
            && (rc == 0 && size > |before| && erase ==> after == before + Zeros(size - |before|))
    ensures forall g :: g in ef.files && g != node ==> Content(ef, g) == old(Content(ef, g))
    ensures |old(ef.FileChain(node))| < |ef.FileChain(node)| ==> !LoneBackward(ef.Map(), ef.FileChain(node))
    ensures |old(ef.FileChain(node))| == ef.Clusters(size) ==>
              && ef.FileChain(node) == old(ef.FileChain(node)) && ef.Map() == old(ef.Map())
              && node.isContiguous == old(node.isContiguous)
  {
    hide Content, CeilDiv, ExFat.Valid, ExFat.FileChain, Backward, FreeClusters, LoneBackward, ExFat.Clusters,
         ExFat.Map, Resized, Extend, LoneAnswer, LoneHeap, LoneMap, Denotes;
    rc := Truncate(ef, node, size, erase);
  }

  /** exfat_truncate with erase, as the flat operation. */
  method FlatTruncated(ef: ExFat, node: Node, size: nat) returns (rc: int)
    requires ef.Valid() && node in ef.files && (node.references != 0 || node.parent == null)
    requires size <= MAX_CLUSTERS * ef.clusterSize && !Backward(ef, node, size)
    modifies ef`dirty, ef.chunk, ef.fat, ef.heap,
             node`fptrIndex, node`fptrCluster, node`startCluster, node`isContiguous, node`isDirty, node`size
    ensures ef.Valid() && (FlatOf(ef, node), rc) == FlatTruncate(old(FlatOf(ef, node)), ef.clusterSize, size)
    ensures forall g :: g in ef.files && g != node ==> Content(ef, g) == old(Content(ef, g))
  {
    hide Content, CeilDiv, ExFat.Valid, ExFat.FileChain, Backward, FreeClusters, LoneBackward, ExFat.Clusters,
         ExFat.Map;
    rc := FitTruncate(ef, node, size, true);
  }

  /** After a truncate that was not in the lone backward case, growing further is not either. */
  lemma StillNotBackward(ef: ExFat, node: Node, ch: seq<nat>, bits: seq<bool>, contiguous: bool, size: nat, next: nat)
    requires ef.Valid() && node in ef.files && node.size == size <= next <= MAX_CLUSTERS * ef.clusterSize
    requires |ch| < |ef.FileChain(node)| ==> !LoneBackward(ef.Map(), ef.FileChain(node))
    requires |ch| == ef.Clusters(size) ==>
               ef.FileChain(node) == ch && ef.Map() == bits && node.isContiguous == contiguous
    requires |ch| <= ef.Clusters(size)
    requires !(|ch| < ef.Clusters(next) && contiguous && LoneBackward(bits, ch))
    ensures !Backward(ef, node, next)
  {
    hide LoneBackward, Bits, Exclusive;
    OwnChain(ef, node);
  }

  /** Writes bytes at an offset, after growing the file to it with zeros and then to the end of the data without. */
  method GenericPwrite(ef: ExFat, node: Node, buffer: array<byte>, size: nat, offset: nat) returns (rc: int)
    requires ef.Valid() && node in ef.files && (node.references != 0 || node.parent == null)
    requires size <= buffer.Length && buffer != ef.heap && buffer as object != ef.chunk && buffer as object != ef.fat
    requires offset + size <= MAX_CLUSTERS * ef.clusterSize && !Backward(ef, node, offset + size)
    modifies ef`dirty, ef.chunk, ef.fat, ef.heap,
             node`fptrIndex, node`fptrCluster, node`startCluster, node`isContiguous, node`isDirty, node`size
    ensures ef.Valid()
    ensures (FlatOf(ef, node), rc) == FlatWrite(old(FlatOf(ef, node)), ef.clusterSize, offset, buffer[..size])
    ensures forall g :: g in ef.files && g != node ==> Content(ef, g) == old(Content(ef, g))
  {
    hide Content, CeilDiv, ExFat.Valid, ExFat.FileChain, Backward, FreeClusters, LoneBackward, ExFat.Clusters,
         ExFat.Map, Splice,
         FlatWriteOn;
    if offset > node.size {
      ValidParts(ef, node);
      ghost var ch, bits, contiguous := ef.FileChain(node), ef.Map(), node.isContiguous;
      SmallerNotBackward(ef, node, offset, offset + size);
      EntryFacts(ef, node, offset, offset + size);
      rc := FitTruncate(ef, node, offset, true);
      if rc != 0 {
        return;
      }
      StillNotBackward(ef, node, ch, bits, contiguous, offset, offset + size);
    }
    rc := WriteOn(ef, node, buffer, size, offset);
  }

  /** The rest of the write, on a file that reaches to the offset. */
  method WriteOn(ef: ExFat, node: Node, buffer: array<byte>, size: nat, offset: nat) returns (rc: int)
    requires ef.Valid() && node in ef.files && (node.references != 0 || node.parent == null) && offset <= node.size
    requires size <= buffer.Length && buffer != ef.heap && buffer as object != ef.chunk && buffer as object != ef.fat
    requires offset + size <= MAX_CLUSTERS * ef.clusterSize && !Backward(ef, node, offset + size)
    modifies ef`dirty, ef.chunk, ef.fat, ef.heap,
             node`fptrIndex, node`fptrCluster, node`startCluster, node`isContiguous, node`isDirty, node`size
    ensures ef.Valid() && |old(Content(ef, node))| == old(node.size)
    ensures (FlatOf(ef, node), rc) == FlatWriteOn(old(FlatOf(ef, node)), ef.clusterSize, offset, buffer[..size])
    ensures forall g :: g in ef.files && g != node ==> Content(ef, g) == old(Content(ef, g))
  {
    hide Content, CeilDiv, ExFat.Valid, ExFat.FileChain, Backward, FreeClusters, LoneBackward, ExFat.Clusters,
         ExFat.Map, Splice;
    rc := 0;
    ghost var s1 := FlatOf(ef, node);
    if offset + size > node.size {
      rc := FitTruncate(ef, node, offset + size, false);
      if rc != 0 {
        return;
      }
    }
    if size == 0 {
      SpliceNothing(s1.content, offset);
      return 0;
    }
    ghost var c2 := Content(ef, node);
    WriteWithin(ef, node, buffer, size, offset);
    if offset + size > |s1.content| {
      SpliceCovers(c2, FlatResized(s1.content, offset + size), offset, buffer[..size]);
    }
    rc := size;
  }

  lemma SpliceCovers(c1: seq<byte>, c2: seq<byte>, offset: nat, data: seq<byte>)
    requires |c1| == |c2| == offset + |data| && c1[..offset] == c2[..offset]
    ensures Splice(c1, offset, data) == Splice(c2, offset, data)
  {}

  lemma EntryFacts(ef: ExFat, node: Node, size: nat, next: nat)
    requires ef.Valid() && node in ef.files && size <= next <= MAX_CLUSTERS * ef.clusterSize
             && !Backward(ef, node, next)
    ensures node.size <= size ==> |ef.FileChain(node)| <= ef.Clusters(size)
    ensures !(|ef.FileChain(node)| < ef.Clusters(next) && node.isContiguous
            && LoneBackward(ef.Map(), ef.FileChain(node)))
  {
    hide LoneBackward, Bits, Exclusive;
    OwnChain(ef, node);
    ClusterCount(ef, size);
    if node.size <= size { CeilDivMonotone(node.size, size, ef.clusterSize); }
  }
}
