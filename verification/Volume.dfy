/** exfat_truncate over a whole volume of files. */
module Volume {
  import opened Arithmetic
  import opened Bitmap
  import opened Chains
  import opened FlatFile
  import opened Cluster

  const MAX_CLUSTERS: nat := 0xffffffff

  /** Bytes rounded up to whole clusters, on unbounded numbers. */
  function CeilDiv(bytes: nat, d: nat): (n: nat)
    requires d > 0
  {
    if bytes == 0 then 0 else (bytes - 1) / d + 1
  }

  lemma CeilDivCovers(bytes: nat, d: nat)
    requires d > 0
    ensures var n := CeilDiv(bytes, d);
            bytes <= n * d && (n > 0 ==> (n - 1) * d < bytes)
  {
    if bytes > 0 { DivMod(bytes - 1, d); }
  }

  lemma RoundUp(bytes: nat, d: nat)
    requires d > 0
    ensures (bytes + d - 1) / d == CeilDiv(bytes, d)
  {
    if bytes == 0 {
      DivModUnique(0, d - 1, d);
    } else {
      var q, r := (bytes - 1) / d, (bytes - 1) % d;
      DivMod(bytes - 1, d);
      DivModUnique(q + 1, r, d);
      assert (q + 1) * d + r == bytes + d - 1;
    }
  }

  /** The 32-bit cluster count is the true one exactly for sizes of fewer than 2^32 clusters. */
  lemma ClusterCountExact(ef: ExFat, bytes: nat)
    requires 0 < ef.clusterSize <= 0x200_0000 && bytes < 0x1_0000_0000_0000_0000
    ensures ef.Clusters(bytes) == CeilDiv(bytes, ef.clusterSize) <==> bytes <= MAX_CLUSTERS * ef.clusterSize
  {
    var cs := ef.clusterSize;
    var n := CeilDiv(bytes, cs);
    CeilDivCovers(bytes, cs);
    if bytes <= MAX_CLUSTERS * cs {
      RoundUp(bytes, cs);
      assert (bytes + cs - 1) % 0x1_0000_0000_0000_0000 == bytes + cs - 1;
      FewClusters(bytes, n, cs);
    } else {
      MulGap(n, MAX_CLUSTERS, cs);
    }
  }

  lemma FewClusters(bytes: nat, n: nat, cs: nat)
    requires bytes <= MAX_CLUSTERS * cs && (n > 0 ==> (n - 1) * cs < bytes)
    ensures n <= MAX_CLUSTERS
  {
    if n > MAX_CLUSTERS { MulGap(MAX_CLUSTERS, n - 1, cs); }
  }

  lemma ClusterCount(ef: ExFat, bytes: nat)
    requires 0 < ef.clusterSize <= 0x200_0000 && bytes <= MAX_CLUSTERS * ef.clusterSize
    ensures ef.Clusters(bytes) == CeilDiv(bytes, ef.clusterSize)
    ensures bytes <= ef.Clusters(bytes) * ef.clusterSize
  {
    assert bytes <= MAX_CLUSTERS * 0x200_0000;
    ClusterCountExact(ef, bytes);
    CeilDivCovers(bytes, ef.clusterSize);
  }

  /** The bytes of a file. */
  ghost function Content(ef: ExFat, f: Node): (bytes: seq<byte>)
    requires ef.Valid() && f in ef.files
    reads ef, ef.chunk, ef.fat, ef.heap, ef.files
    ensures |bytes| == f.size
  {
    ClusterCount(ef, f.size);
    ef.FileView(ef.FileChain(f))[..f.size]
  }

  ghost function FreeClusters(ef: ExFat): (n: nat)
    requires ef.Shape()
    reads ef.chunk
  {
    CountClear(ef.Map())
  }

  /** exfat_count_free_clusters. */
  method CountFreeClusters(ef: ExFat) returns (n: nat)
    requires ef.Shape()
    ensures n == FreeClusters(ef)
  {
    hide Bit;
    n := 0;
    var i := 0;
    while i < ef.count
      invariant i <= ef.count && n == CountClear(ef.Map()[..i])
    {
      assert ef.Map()[..i + 1][..i] == ef.Map()[..i];
      if !Get(ef.chunk[..], i) {
        n := n + 1;
      }
      i := i + 1;
    }
    assert ef.Map()[..i] == ef.Map();
  }

  /** A new file joins the volume with no bytes and no clusters, and disturbs nothing. */
  method AddNode(ef: ExFat, parent: Node?) returns (node: Node)
    requires ef.Valid()
    modifies ef`files
    ensures ef.Valid() && fresh(node) && node.parent == parent && ef.files == old(ef.files) + {node}
    ensures Content(ef, node) == [] && ef.FileChain(node) == []
    ensures forall f :: f in old(ef.files) ==>
              ef.FileChain(f) == old(ef.FileChain(f)) && Content(ef, f) == old(Content(ef, f))
  {
    hide Exclusive, Bits, Pow2, Content, ExFat.FileOk, ExFat.Valid, ExFat.FileChain, Recall, Denotes;
    HasShape(ef);
    ghost var b := Before(ef.fat[..], ef.Map(), ef.heap[..], ef.FileChains(), 0);
    WholeVolume(ef, b);
    RecallNow(ef, b);
    node := new Node(parent);
    ef.files := ef.files + {node};
    Joined(ef, node, b);
  }

  lemma HasShape(ef: ExFat)
    requires ef.Valid()
    ensures ef.Shape() && ef.clusterSize > 0
  {}

  lemma WholeVolume(ef: ExFat, b: Before)
    requires ef.Valid() && b.fat == ef.fat[..] && b.bits == ef.Map() && b.heap == ef.heap[..]
             && b.chains == ef.FileChains()
    ensures ef.HeapShape() && ef.clusterSize == Pow2(ef.clusterBits) && ef.clusterSize <= 0x200_0000
    ensures Exclusive(ef.count, b.bits, ef.reserved, b.chains) && b.chains.Keys == ef.files
    ensures forall f :: f in ef.files ==> ef.FileOk(f) && ef.FileChain(f) == b.chains[f]
  {}

  lemma Joined(ef: ExFat, node: Node, b: Before)
    requires ef.HeapShape() && ef.clusterSize == Pow2(ef.clusterBits) && ef.clusterSize <= 0x200_0000
    requires b.bits == ef.Map() && b.heap == ef.heap[..] && node !in b.chains && ef.files == b.chains.Keys + {node}
    requires Exclusive(ef.count, b.bits, ef.reserved, b.chains)
    requires forall f :: f in b.chains ==> ef.FileOk(f) && ef.FileChain(f) == b.chains[f]
    requires node.size == node.startCluster == node.fptrIndex == node.fptrCluster == 0
    ensures ef.Valid() && ef.FileChain(node) == [] && Content(ef, node) == []
    ensures forall f :: f in b.chains ==> ef.FileChain(f) == b.chains[f]
    ensures forall f :: f in b.chains ==>
              && AllValid(ef.count, b.chains[f]) && f.size <= |b.chains[f]| * ef.clusterSize
              && Content(ef, f) == Recall(ef, b, f, f.size)
  {
    hide Exclusive, Bits, Pow2, View, ExFat.FileOk, Content, Recall, AllValid, ExFat.FileChain;
    EmptyNode(ef, node);
    OneMoreEmpty(ef.count, b.bits, ef.reserved, b.chains, node);
    assert ef.FileChains() == b.chains[node := []];
    forall f | f in b.chains
      ensures AllValid(ef.count, b.chains[f]) && f.size <= |b.chains[f]| * ef.clusterSize
      ensures Content(ef, f) == Recall(ef, b, f, f.size)
    {
      AsRecorded(ef, b, f);
    }
    NoBytes(ef, node);
  }

  lemma EmptyNode(ef: ExFat, node: Node)
    requires ef.HeapShape() && ef.clusterSize <= 0x200_0000
    requires node.size == node.startCluster == node.fptrIndex == node.fptrCluster == 0
    ensures ef.FileOk(node) && ef.FileChain(node) == []
  {
    hide Bits, ExFat.Clusters;
    ClusterCount(ef, 0);
  }

  lemma NoBytes(ef: ExFat, node: Node)
    requires ef.Valid() && node in ef.files && node.size == 0
    ensures Content(ef, node) == []
  {
    hide ExFat.Valid;
  }

  lemma AsRecorded(ef: ExFat, b: Before, f: Node)
    requires ef.Valid() && f in ef.files && f in b.chains && ef.FileChain(f) == b.chains[f] && b.heap == ef.heap[..]
    ensures AllValid(ef.count, b.chains[f]) && f.size <= |b.chains[f]| * ef.clusterSize
    ensures Content(ef, f) == Recall(ef, b, f, f.size)
  {
    hide View, Bits, Exclusive, ExFat.Clusters, Walk;
    OwnChain(ef, f);
  }

  /** A chain map with one more, empty chain owns the same clusters. */
  lemma OneMoreEmpty<F>(count: nat, bits: seq<bool>, reserved: set<nat>, chains: map<F, seq<nat>>, f: F)
    requires Exclusive(count, bits, reserved, chains) && f !in chains
    ensures Exclusive(count, bits, reserved, chains[f := []])
  {
    forall c ensures Owned(reserved, chains, c) == Owned(reserved, chains[f := []], c) {
      SameOwner(reserved, chains, f, c);
    }
  }

  lemma SameOwner<F>(reserved: set<nat>, chains: map<F, seq<nat>>, f: F, c: nat)
    requires f !in chains
    ensures Owned(reserved, chains, c) == Owned(reserved, chains[f := []], c)
  {
    var chains' := chains[f := []];
    if g :| g in chains && c in chains[g] {
      assert chains'[g] == chains[g];
    }
  }

  // ---- Resizing one chain ----

  /** The lone backward case of grow_file (see Chains.LoneBackward), as a condition on the state before a truncate. */
  ghost predicate Backward(ef: ExFat, node: Node, size: nat)
    requires ef.Shape() && ef.clusterSize > 0
    reads ef.chunk, ef.fat, node
  {
    && ef.Clusters(node.size) < ef.Clusters(size)
    && node.isContiguous
    && LoneBackward(ef.Map(), ef.FileChain(node))
  }

  /** Every touched cluster was the file's own or free. */
  ghost predicate OwnOrFree(bits0: seq<bool>, ch: seq<nat>, touched: seq<nat>) {
    forall c :: c in touched && c !in ch ==> ValidCluster(|bits0|, c) && !bits0[c - FIRST_DATA_CLUSTER]
  }

  /** From chain ch and bitmap bits0 to chain ch2 and bitmap bits: an extension by free clusters, or a prefix. */
  ghost predicate Resized(bits0: seq<bool>, bits: seq<bool>, ch: seq<nat>, ch2: seq<nat>) {
    if |ch| <= |ch2| then
      && ch == ch2[..|ch|]
      && AllClear(bits0, ch2[|ch|..]) && NoDup(ch2[|ch|..])
      && Marked(bits0, bits, ch2[|ch|..], true)
    else
      ch2 == ch[..|ch2|] && Marked(bits0, bits, ch[|ch2|..], false)
  }

  /** The grow or shrink of exfat_truncate, on one chain of c1 clusters that shall have c2. */
  method Resize(ef: ExFat, node: Node, c1: nat, c2: nat, ghost ch: seq<nat>)
      returns (rc: int, ghost ch2: seq<nat>, ghost touched: seq<nat>)
    requires ef.Shape() && c1 == |ch|
    requires Denotes(ef.fat[..], ef.count, node.startCluster, node.isContiguous, ch) && node.Cursor(ch)
    requires AllSet(ef.Map(), ch)
    modifies ef`dirty, ef.chunk, ef.fat, node`fptrIndex, node`fptrCluster, node`startCluster, node`isContiguous,
             node`isDirty
    ensures c1 < c2 && old(node.isContiguous && LoneBackward(ef.Map(), ch)) ==>
              ef.Misgrown(node, old(ef.Map()), old(ef.fat[..]), ch, c2 - c1 == 1, rc)
    ensures !(c1 < c2 && old(node.isContiguous && LoneBackward(ef.Map(), ch))) ==>
              && Denotes(ef.fat[..], ef.count, node.startCluster, node.isContiguous, ch2) && node.Cursor(ch2)
              && SameOutside(old(ef.fat[..]), ef.fat[..], touched) && OwnOrFree(old(ef.Map()), ch, touched)
              && (rc == 0 <==> c2 <= c1 + CountClear(old(ef.Map())))
              && Resized(old(ef.Map()), ef.Map(), ch, ch2)
              && (rc == 0 ==> |ch2| == c2)
              && (rc == 0 && c1 == 0 && c2 == 1 ==> !LoneBackward(ef.Map(), ch2))
              && (rc == 0 && c1 < c2 ==>
                    && ch2 == ch + Extend(old(ef.Map()), ef.LastOf(ch), c2 - c1)
                    && node.isContiguous == (c1 == 0 && c2 == 1))
              && (c1 >= c2 ==> node.isContiguous == old(node.isContiguous))
              && (c1 == c2 ==> ch2 == ch && ef.Map() == old(ef.Map()) && node.isContiguous == old(node.isContiguous))
              && (rc != 0 ==> rc == -ENOSPC && ch2 == ch && ef.Map() == old(ef.Map()))
  {
    hide Denotes, SameOutside, Extend, AllSet, Marked, CountClear, AllClear, NoDup, LoneBackward, ExFat.Misgrown,
         AllValid, Linked, IsChain, Bits, ExFat.Map, Node.Cursor;
    ghost var bits0 := ef.Map();
    rc, ch2, touched := 0, ch, ch;
    NothingResized(bits0, ch);
    NothingTouched(ef.fat[..], bits0, ch);
    ef.ShapeOfChain(node, ch);
    LongNotBackward(bits0, ch);
    if ch != [] { ef.LastValid(ch); }
    if c1 < c2 {
      ghost var ext := Extend(bits0, ef.LastOf(ch), c2 - c1);
      ExtendClaimsFree(bits0, ef.LastOf(ch), c2 - c1);
      ExtendLength(bits0, ef.LastOf(ch), c2 - c1);
      rc := ef.GrowFile(node, c1, c2 - c1, ch);
      touched := ch + ext;
      FreeIsFree(bits0, ch, ext);
      if rc == 0 {
        ch2 := ch + ext;
        assert ch2[..|ch|] == ch && ch2[|ch|..] == ext;
        if c1 == 0 && c2 == 1 {
          assert ch == [] && ch2 == ext;
          FirstClusterNotBackward(bits0, ef.Map(), ch2);
        }
      }
    } else if c1 > c2 {
      ef.ReleasedAll(ch, c2);
      rc := ef.ShrinkFile(node, c1, c1 - c2, ch);
      ch2 := ch[..c2];
    }
  }

  lemma FirstClusterNotBackward(bits0: seq<bool>, bits: seq<bool>, ch2: seq<nat>)
    requires ch2 == Extend(bits0, 1, 1) && |ch2| == 1 && Marked(bits0, bits, ch2, true)
    ensures !LoneBackward(bits, ch2)
  {
    ExtendUnfold(bits0, 1, 1);
    FreshNeverBackward(bits0);
  }

  lemma NothingResized(bits0: seq<bool>, ch: seq<nat>)
    ensures Resized(bits0, bits0, ch, ch)
  {}

  lemma NothingTouched(fat0: seq<u32>, bits0: seq<bool>, ch: seq<nat>)
    ensures SameOutside(fat0, fat0, ch) && OwnOrFree(bits0, ch, ch)
  {}

  lemma FreeIsFree(bits0: seq<bool>, ch: seq<nat>, ext: seq<nat>)
    requires AllClear(bits0, ext)
    ensures OwnOrFree(bits0, ch, ch + ext)
  {}

  // ---- The other files ----

  lemma OwnChain(ef: ExFat, f: Node)
    requires ef.Valid() && f in ef.files
    ensures Denotes(ef.fat[..], ef.count, f.startCluster, f.isContiguous, ef.FileChain(f))
    ensures f.Cursor(ef.FileChain(f)) && AllSet(ef.Map(), ef.FileChain(f)) && NoDup(ef.FileChain(f))
    ensures |ef.FileChain(f)| == CeilDiv(f.size, ef.clusterSize) == ef.Clusters(f.size)
    ensures f.size <= |ef.FileChain(f)| * ef.clusterSize
  {
    hide Bits, Pow2, CeilDiv, ExFat.FileChain, ExFat.Clusters, Node.Cursor;
    var chains := ef.FileChains();
    assert chains[f] == ef.FileChain(f);
    WalkLength(ef, f);
    ChainBitsSet(ef.count, ef.Map(), ef.reserved, chains, f);
    ClusterCount(ef, f.size);
  }

  lemma WalkLength(ef: ExFat, f: Node)
    requires ef.Shape() && ef.clusterSize > 0
    ensures |ef.FileChain(f)| == ef.Clusters(f.size)
  {}

  /** What one file owns or what is free is no other file's. */
  lemma OtherDisjoint(count: nat, bits: seq<bool>, reserved: set<nat>, chains: map<Node, seq<nat>>, f: Node, g: Node,
                      touched: seq<nat>)
    requires Exclusive(count, bits, reserved, chains) && f in chains && g in chains && f != g
    requires OwnOrFree(bits, chains[f], touched)
    ensures forall c :: c in chains[g] ==> c !in touched
  {
    forall c | c in chains[g] ensures c !in touched {
      assert Owned(reserved, chains, c);
      ChainBitsSet(count, bits, reserved, chains, g);
    }
  }

  /** A file whose clusters were not touched keeps its chain. */
  lemma OtherKeeps(ef: ExFat, g: Node, fat0: seq<u32>, ch: seq<nat>, touched: seq<nat>)
    requires ef.Shape() && ef.clusterSize > 0 && |fat0| == ef.fat.Length
    requires Denotes(fat0, ef.count, g.startCluster, g.isContiguous, ch) && |ch| == ef.Clusters(g.size)
    requires SameOutside(fat0, ef.fat[..], touched) && forall c :: c in ch ==> c !in touched
    ensures ef.FileChain(g) == ch
    ensures Denotes(ef.fat[..], ef.count, g.startCluster, g.isContiguous, ch)
  {
    DenotesElsewhere(fat0, ef.fat[..], ef.count, g.startCluster, g.isContiguous, ch, touched);
    ChainIsWalk(ef, g, ch);
  }

  lemma ChainIsWalk(ef: ExFat, g: Node, ch: seq<nat>)
    requires ef.Shape() && ef.clusterSize > 0 && |ch| == ef.Clusters(g.size)
    requires Denotes(ef.fat[..], ef.count, g.startCluster, g.isContiguous, ch)
    ensures ef.FileChain(g) == ch
  {
    if ch != [] { LinkedIsWalk(ef.fat[..], g.isContiguous, ch); }
  }

  lemma ResizedExclusive(count: nat, bits0: seq<bool>, bits: seq<bool>, reserved: set<nat>, chains: map<Node, seq<nat>>,
                         f: Node, ch2: seq<nat>)
    requires Exclusive(count, bits0, reserved, chains) && f in chains && Resized(bits0, bits, chains[f], ch2)
    ensures Exclusive(count, bits, reserved, chains[f := ch2])
  {
    var ch := chains[f];
    if |ch| <= |ch2| {
      assert ch2 == ch + ch2[|ch|..];
      ExclusiveGrow(count, bits0, bits, reserved, chains, f, ch2[|ch|..]);
    } else {
      ExclusiveShrink(count, bits0, bits, reserved, chains, f, |ch2|);
    }
  }

  /** Free space is conserved: what a file gains the volume loses. */
  lemma ResizedFree(bits0: seq<bool>, bits: seq<bool>, ch: seq<nat>, ch2: seq<nat>)
    requires Resized(bits0, bits, ch, ch2) && AllSet(bits0, ch) && NoDup(ch)
    ensures CountClear(bits) + |ch2| == CountClear(bits0) + |ch|
  {
    if |ch| <= |ch2| {
      CountClearMarked(bits0, bits, ch2[|ch|..], true);
    } else {
      CountClearMarked(bits0, bits, ch[|ch2|..], false);
    }
  }

  // ---- exfat_truncate ----

  /** The files other than node as they were recorded before the call. */
  ghost predicate Recorded(ef: ExFat, node: Node, fat0: seq<u32>, chains0: map<Node, seq<nat>>)
    requires ef.Shape() && ef.clusterSize > 0
    reads ef`files, ef.files - {node}
  {
    && |fat0| == ef.fat.Length
    && chains0.Keys == ef.files && node in ef.files
    && forall g :: g in ef.files && g != node ==>
         && g.size <= MAX_CLUSTERS * ef.clusterSize
         && Denotes(fat0, ef.count, g.startCluster, g.isContiguous, chains0[g])
         && g.Cursor(chains0[g])
         && |chains0[g]| == ef.Clusters(g.size)
  }

  lemma Record(ef: ExFat, node: Node)
    requires ef.Valid() && node in ef.files
    ensures Recorded(ef, node, ef.fat[..], ef.FileChains())
  {
    forall g | g in ef.files ensures |ef.FileChains()[g]| == ef.Clusters(g.size) {
      OwnChain(ef, g);
    }
  }

  /** Once node has its new chain and size, the volume is consistent again and no other file moved. */
  lemma Settle(ef: ExFat, node: Node, fat0: seq<u32>, bits0: seq<bool>, chains0: map<Node, seq<nat>>,
               ch2: seq<nat>, touched: seq<nat>)
    requires ef.HeapShape() && ef.clusterSize == Pow2(ef.clusterBits) && ef.clusterSize <= 0x200_0000
    requires Recorded(ef, node, fat0, chains0)
    requires Exclusive(ef.count, bits0, ef.reserved, chains0) && Resized(bits0, ef.Map(), chains0[node], ch2)
    requires SameOutside(fat0, ef.fat[..], touched) && OwnOrFree(bits0, chains0[node], touched)
    requires node.size <= MAX_CLUSTERS * ef.clusterSize && |ch2| == ef.Clusters(node.size)
    requires Denotes(ef.fat[..], ef.count, node.startCluster, node.isContiguous, ch2) && node.Cursor(ch2)
    ensures ef.Valid()
    ensures ef.FileChain(node) == ch2
    ensures forall g :: g in ef.files && g != node ==> ef.FileChain(g) == chains0[g]
  {
    hide Denotes, Exclusive, SameOutside, OwnOrFree, Resized, Pow2, Bits;
    ChainsSettle(ef, node, fat0, bits0, chains0, ch2, touched);
  }

  /** The same but for the node's size, which may be one that its clusters cannot hold. */
  lemma ChainsSettle(ef: ExFat, node: Node, fat0: seq<u32>, bits0: seq<bool>, chains0: map<Node, seq<nat>>,
                     ch2: seq<nat>, touched: seq<nat>)
    requires ef.Shape() && ef.clusterSize > 0 && Recorded(ef, node, fat0, chains0)
    requires Exclusive(ef.count, bits0, ef.reserved, chains0) && Resized(bits0, ef.Map(), chains0[node], ch2)
    requires SameOutside(fat0, ef.fat[..], touched) && OwnOrFree(bits0, chains0[node], touched)
    requires |ch2| == ef.Clusters(node.size)
    requires Denotes(ef.fat[..], ef.count, node.startCluster, node.isContiguous, ch2)
    ensures ef.FileChain(node) == ch2 && Exclusive(ef.count, ef.Map(), ef.reserved, ef.FileChains())
    ensures forall g :: g in ef.files && g != node ==> ef.FileChain(g) == chains0[g] && ef.FileOk(g)
  {
    hide Denotes, Exclusive, SameOutside, OwnOrFree, Resized, Bits;
    ResizedExclusive(ef.count, bits0, ef.Map(), ef.reserved, chains0, node, ch2);
    ChainIsWalk(ef, node, ch2);
    forall g | g in ef.files && g != node
      ensures ef.FileChain(g) == chains0[g] && ef.FileOk(g)
    {
      OtherDisjoint(ef.count, bits0, ef.reserved, chains0, node, g, touched);
      OtherKeeps(ef, g, fat0, chains0[g], touched);
    }
    assert ef.FileChains() == chains0[node := ch2];
  }

  /** Same, prefix and extension of the flat file, from the three ways its clusters can change. */
  lemma ResizedContent(ef: ExFat, heap0: seq<byte>, heap1: seq<byte>, ch: seq<nat>, ch2: seq<nat>,
                       size0: nat, size: nat, erased: bool)
    requires ef.HeapShape() && |heap0| == |heap1| == ef.heap.Length && AllValid(ef.count, ch) && AllValid(ef.count, ch2)
    requires if |ch| <= |ch2| then ch == ch2[..|ch|] else ch2 == ch[..|ch2|]
    requires size0 <= |ch| * ef.clusterSize && size <= |ch2| * ef.clusterSize
    requires |ch2| < |ch| ==> size <= size0
    requires if erased && size0 < size then
               |ch| <= |ch2| && ef.Erased(View(heap0, ef.clusterSize, ef.count, ch2),
                   View(heap1, ef.clusterSize, ef.count, ch2), size0, size)
             else heap1 == heap0
    ensures var before := View(heap0, ef.clusterSize, ef.count, ch)[..size0];
            var after := View(heap1, ef.clusterSize, ef.count, ch2)[..size];
            && (size <= size0 ==> after == before[..size])
            && (size0 <= size ==> after[..size0] == before)
            && (erased && size0 <= size ==> after == before + Zeros(size - size0))
  {
    var cs := ef.clusterSize;
    if |ch| <= |ch2| {
      ViewPrefix(heap0, cs, ef.count, ch2, |ch|);
      assert forall i :: 0 <= i < |ch| * cs ==>
          View(heap0, cs, ef.count, ch2)[..|ch| * cs][i] == View(heap0, cs, ef.count, ch)[i];
    } else {
      ViewPrefix(heap0, cs, ef.count, ch, |ch2|);
      assert forall i :: 0 <= i < |ch2| * cs ==>
          View(heap0, cs, ef.count, ch)[..|ch2| * cs][i] == View(heap0, cs, ef.count, ch2)[i];
    }
  }

  /** A set bit whose cluster no chain reaches. */
  lemma BrokenByLeak(ef: ExFat, bits0: seq<bool>, chains0: map<Node, seq<nat>>, i: nat)
    requires ef.Shape() && Exclusive(ef.count, bits0, ef.reserved, chains0)
    requires i < ef.count && !bits0[i] && ef.Map()[i] && ef.FileChains() == chains0
    ensures !ef.Valid()
  {
    assert !Owned(ef.reserved, chains0, i + FIRST_DATA_CLUSTER);
  }

  /** A contiguous file of two clusters whose second is out of range or someone else's. */
  lemma BrokenByOverlap(ef: ExFat, node: Node, bits0: seq<bool>, chains0: map<Node, seq<nat>>, s: nat)
    requires ef.Shape() && node in ef.files && Exclusive(ef.count, bits0, ef.reserved, chains0)
    requires chains0.Keys == ef.files && chains0[node] == [s] && LoneBackward(bits0, [s]) && ValidCluster(ef.count, s)
    requires ef.FileChain(node) == [s, s + 1]
    requires forall g :: g in ef.files && g != node ==> ef.FileChain(g) == chains0[g]
    ensures !ef.Valid()
  {
    var chains := ef.FileChains();
    assert chains[node][1] == s + 1;
    if ValidCluster(ef.count, s + 1) {
      assert bits0[s + 1 - FIRST_DATA_CLUSTER];
      assert Owned(ef.reserved, chains0, s + 1);
      assert s + 1 in chains[node];
      if s + 1 !in ef.reserved {
        var g: Node :| g in chains0 && s + 1 in chains0[g];
        assert s + 1 in chains[g];
      }
    }
  }

  /** What is recorded before a truncate. */
  datatype Before = Before(fat: seq<u32>, bits: seq<bool>, heap: seq<byte>, chains: map<Node, seq<nat>>, size: nat)

  /** How the heap changes while a chain is resized: by the erased range at most. */
  ghost predicate HeapChanged(ef: ExFat, heap0: seq<byte>, ch2: seq<nat>, size0: nat, size: nat, erased: bool)
    requires ef.HeapShape() && |heap0| == ef.heap.Length && AllValid(ef.count, ch2)
    reads ef.heap
  {
    if erased && size0 < size then
      ef.Undisturbed(heap0, ef.heap[..], ch2) &&
      ef.Erased(View(heap0, ef.clusterSize, ef.count, ch2), ef.FileView(ch2), size0, size)
    else
      ef.heap[..] == heap0
  }

  /** The same, for the chain a file has now. */
  ghost predicate FileErased(ef: ExFat, node: Node, heap0: seq<byte>, size0: nat, size: nat, erased: bool)
    reads ef, ef.heap, ef.fat, node
  {
    && ef.HeapShape() && |heap0| == ef.heap.Length && AllValid(ef.count, ef.FileChain(node))
    && HeapChanged(ef, heap0, ef.FileChain(node), size0, size, erased)
  }

  /** The bitmap after the lone backward growth of a file at cluster s. */
  ghost function LoneMap(ef: ExFat, bits0: seq<bool>, s: nat, size: nat): seq<bool>
    requires |bits0| == ef.count && 3 <= s && ValidCluster(ef.count, s) && ef.clusterSize > 0
  {
    if ef.Clusters(size) == 2 then bits0[s - 3 := true] else ef.Unsettled(bits0, s)
  }

  /** What it answers: with two clusters wanted it succeeds, unless it is to erase and the cluster behind the file's is
      out of range. */
  ghost predicate LoneAnswer(ef: ExFat, s: nat, size: nat, erase: bool, rc: int)
    requires ef.clusterSize > 0
  {
    if ef.Clusters(size) != 2 then rc == -ENOSPC
    else if erase && !ValidCluster(ef.count, s + 1) then rc == -EIO || rc == ef.ABORTED
    else rc == 0
  }

  /** What it does to the heap: erasing runs into the cluster behind the file's, which is someone else's. */
  ghost predicate LoneHeap(ef: ExFat, heap0: seq<byte>, s: nat, size0: nat, size: nat, erase: bool)
    requires ef.HeapShape() && |heap0| == ef.heap.Length && ValidCluster(ef.count, s)
    reads ef.heap
  {
    if ef.Clusters(size) != 2 || !erase then ef.heap[..] == heap0
    else if ValidCluster(ef.count, s + 1) then HeapChanged(ef, heap0, [s, s + 1], size0, size, true)
    else ef.Undisturbed(heap0, ef.heap[..], [s])
  }

  /** The statements of exfat_truncate, with what they do to the one file. */
  method TruncateSteps(ef: ExFat, node: Node, size: nat, erase: bool, ghost ch: seq<nat>, ghost back: bool)
      returns (rc: int, ghost ch2: seq<nat>, ghost touched: seq<nat>)
    requires ef.HeapShape() && ef.clusterSize == Pow2(ef.clusterBits) && ef.clusterSize <= 0x200_0000
    requires |ch| == ef.Clusters(node.size) && node.size <= MAX_CLUSTERS * ef.clusterSize
    requires erase ==> size <= MAX_CLUSTERS * ef.clusterSize
    requires Denotes(ef.fat[..], ef.count, node.startCluster, node.isContiguous, ch) && node.Cursor(ch)
    requires AllSet(ef.Map(), ch)
    requires back == (|ch| < ef.Clusters(size) && node.isContiguous && LoneBackward(ef.Map(), ch))
    modifies ef`dirty, ef.chunk, ef.fat, ef.heap,
             node`fptrIndex, node`fptrCluster, node`startCluster, node`isContiguous, node`isDirty, node`size
    ensures node.size == if rc == 0 then size else old(node.size)
    ensures !erase ==> ef.heap[..] == old(ef.heap[..])
    ensures back ==>
              && ef.fat[..] == old(ef.fat[..]) && node.isContiguous
              && node.startCluster == old(node.startCluster) == ch[0]
              && |ch| == 1 && 3 <= ch[0] && ValidCluster(ef.count, ch[0]) && ef.Map()[ch[0] - 3]
              && LoneAnswer(ef, ch[0], size, erase, rc) && ef.Map() == LoneMap(ef, old(ef.Map()), ch[0], size)
              && LoneHeap(ef, old(ef.heap[..]), ch[0], old(node.size), size, erase)
    ensures !back ==>
              && Denotes(ef.fat[..], ef.count, node.startCluster, node.isContiguous, ch2) && node.Cursor(ch2)
              && SameOutside(old(ef.fat[..]), ef.fat[..], touched) && OwnOrFree(old(ef.Map()), ch, touched)
              && (rc == 0 || rc == -ENOSPC)
              && (rc == 0 <==> ef.Clusters(size) <= |ch| + CountClear(old(ef.Map())))
              && Resized(old(ef.Map()), ef.Map(), ch, ch2)
              && |ch2| == ef.Clusters(node.size) && AllValid(ef.count, ch2)
              && HeapChanged(ef, old(ef.heap[..]), ch2, old(node.size), size, rc == 0 && erase)
              && (|ch| < |ch2| ==> !LoneBackward(ef.Map(), ch2))
              && (rc == 0 && |ch| < |ch2| ==>
                    && ch2 == ch + Extend(old(ef.Map()), ef.LastOf(ch), |ch2| - |ch|)
                    && node.isContiguous == (ch == [] && |ch2| == 1))
              && (|ch2| < |ch| ==> node.isContiguous == old(node.isContiguous))
              && (|ch| == ef.Clusters(size) ==>
                    ch2 == ch && ef.Map() == old(ef.Map()) && node.isContiguous == old(node.isContiguous))
  {
    hide Denotes, SameOutside, OwnOrFree, Resized, Pow2, Bits, AllSet, NoDup, CountClear, AllValid, LoneBackward,
         ExFat.Erased, ExFat.Undisturbed, View, ExFat.Clusters, IsChain, Linked, ExFat.Misgrown, Node.Cursor,
         ExFat.Map, CeilDiv, Extend;
    ghost var bits0, fat0 := ef.Map(), ef.fat[..];
    ef.ShapeOfChain(node, ch);
    ch2, touched, rc := ch, ch, 0;
    var c1, c2 := ef.Clusters(node.size), ef.Clusters(size);
    if erase {
      ClusterCount(ef, size);
    }
    if node.size == size {
      NothingResized(bits0, ch);
      NothingTouched(fat0, bits0, ch);
      return;
    }
    rc, ch2, touched := Resize(ef, node, c1, c2, ch);
    if back {
      LoneIsOne(bits0, ch);
      MisgrownShape(ef, node, bits0, fat0, ch, c2 - c1 == 1, rc);
      ch2 := [ch[0], ch[0] + 1];
    } else {
      ef.ShapeOfChain(node, ch2);
      LongNotBackward(ef.Map(), ch2);
    }
    if rc != 0 {
      return;
    }
    if back && erase {
      PastOne(ef, node.size, size);
      LonePart(ef, ch[0]);
    }
    if erase && node.size < size {
      rc := ef.EraseRange(node, node.size, size, ch2);
      if rc != 0 {
        return;
      }
    }
    node.size := size;
    node.isDirty := true;
  }

  lemma PastOne(ef: ExFat, size0: nat, size: nat)
    requires 0 < ef.clusterSize <= 0x200_0000 && size0 <= MAX_CLUSTERS * ef.clusterSize
    requires size <= MAX_CLUSTERS * ef.clusterSize
    requires ef.Clusters(size0) == 1 && ef.Clusters(size) == 2
    ensures size0 <= ef.clusterSize < size <= 2 * ef.clusterSize
  {
    ClusterCount(ef, size0);
    ClusterCount(ef, size);
    CeilDivCovers(size, ef.clusterSize);
  }

  lemma LonePart(ef: ExFat, s: nat)
    requires ValidCluster(ef.count, s)
    ensures ef.ValidPart([s, s + 1]) == if ValidCluster(ef.count, s + 1) then [s, s + 1] else [s]
    ensures AllValid(ef.count, [s, s + 1]) <==> ValidCluster(ef.count, s + 1)
  {
    assert [s, s + 1][..1] == [s] && [s, s + 1][1] == s + 1;
  }

  lemma LongNotBackward(bits: seq<bool>, ch2: seq<nat>)
    ensures |ch2| != 1 ==> !LoneBackward(bits, ch2)
  {}

  lemma LoneIsOne(bits0: seq<bool>, ch: seq<nat>)
    requires LoneBackward(bits0, ch) && AllSet(bits0, ch)
    ensures |ch| == 1 && 3 <= ch[0] && ValidCluster(|bits0|, ch[0])
  {}

  lemma MisgrownShape(ef: ExFat, node: Node, bits0: seq<bool>, fat0: seq<u32>, ch: seq<nat>, enough: bool, rc: int)
    requires ef.Shape() && LoneBackward(bits0, ch) && |bits0| == ef.count && ValidCluster(ef.count, ch[0])
    requires ef.Misgrown(node, bits0, fat0, ch, enough, rc)
    ensures ef.fat[..] == fat0 && node.isContiguous && node.startCluster == ch[0]
    ensures |ch| == 1 && 3 <= ch[0] && ef.Map()[ch[0] - 3] && rc == (if enough then 0 else -ENOSPC)
    ensures ef.Map() == if enough then bits0[ch[0] - 3 := true] else ef.Unsettled(bits0, ch[0])
    ensures IsChain(ef.fat[..], ef.count, node.startCluster, node.isContiguous, [ch[0], ch[0] + 1])
    ensures NoDup([ch[0], ch[0] + 1]) && node.Cursor([ch[0], ch[0] + 1])
  {
    hide Bits;
    ef.LoneShrinkable(node, ch[0]);
  }

  /** exfat_truncate, as far as it concerns which clusters are whose. */
  method TruncateChains(ef: ExFat, node: Node, size: nat, erase: bool) returns (rc: int)
    requires ef.Valid() && node in ef.files
    requires node.references != 0 || node.parent == null
    requires size <= MAX_CLUSTERS * ef.clusterSize || (!erase && size < 0x1_0000_0000_0000_0000)
    modifies ef`dirty, ef.chunk, ef.fat, ef.heap,
             node`fptrIndex, node`fptrCluster, node`startCluster, node`isContiguous, node`isDirty, node`size
    ensures ef.Valid() <==> !old(Backward(ef, node, size)) && !(rc == 0 && size > MAX_CLUSTERS * ef.clusterSize)
    ensures old(Backward(ef, node, size)) ==>
              && ValidCluster(ef.count, old(node.startCluster)) && 3 <= old(node.startCluster)
              && ef.Map() == LoneMap(ef, old(ef.Map()), old(node.startCluster), size) && ef.fat[..] == old(ef.fat[..])
              && node.startCluster == old(node.startCluster) && node.isContiguous
              && LoneAnswer(ef, node.startCluster, size, erase, rc)
              && LoneHeap(ef, old(ef.heap[..]), node.startCluster, old(node.size), size, erase)
    ensures node.size == if rc == 0 then size else old(node.size)
    ensures rc == 0 && size > MAX_CLUSTERS * ef.clusterSize ==> |ef.FileChain(node)| * ef.clusterSize < size
    ensures !erase ==> ef.heap[..] == old(ef.heap[..])
    ensures !old(Backward(ef, node, size)) ==>
              && (rc == 0 || rc == -ENOSPC)
              && (rc == 0 <==> ef.Clusters(size) <= |old(ef.FileChain(node))| + old(FreeClusters(ef)))
              && FreeClusters(ef) + |ef.FileChain(node)| == old(FreeClusters(ef)) + |old(ef.FileChain(node))|
              && |ef.FileChain(node)| == ef.Clusters(node.size)
              && Denotes(ef.fat[..], ef.count, node.startCluster, node.isContiguous, ef.FileChain(node))
    ensures !old(Backward(ef, node, size)) && size <= MAX_CLUSTERS * ef.clusterSize ==>
              && (rc == 0 <==>
                    CeilDiv(size, ef.clusterSize) <= CeilDiv(old(node.size), ef.clusterSize) + old(FreeClusters(ef)))
              && FreeClusters(ef) + CeilDiv(node.size, ef.clusterSize) ==
                 old(FreeClusters(ef)) + CeilDiv(old(node.size), ef.clusterSize)
    ensures !old(Backward(ef, node, size)) ==>
              && Resized(old(ef.Map()), ef.Map(), old(ef.FileChain(node)), ef.FileChain(node))
              && (|old(ef.FileChain(node))| < |ef.FileChain(node)| ==>
                    var before, after := old(ef.FileChain(node)), ef.FileChain(node);
                    && after == before + Extend(old(ef.Map()), ef.LastOf(before), |after| - |before|)
                    && node.isContiguous == (before == [] && |after| == 1) && !LoneBackward(ef.Map(), after))
              && (|ef.FileChain(node)| < |old(ef.FileChain(node))| ==> node.isContiguous == old(node.isContiguous))
              && (|old(ef.FileChain(node))| == ef.Clusters(size) ==>
                    && ef.FileChain(node) == old(ef.FileChain(node)) && ef.Map() == old(ef.Map())
                    && node.isContiguous == old(node.isContiguous))
    ensures !old(Backward(ef, node, size)) ==>
              forall g :: g in ef.files && g != node ==> ef.FileChain(g) == old(ef.FileChain(g))
    ensures ef.Valid() ==> FileErased(ef, node, old(ef.heap[..]), old(node.size), size, rc == 0 && erase)
  {
    hide Denotes, Exclusive, SameOutside, OwnOrFree, Resized, Bits, AllSet, AllValid, NoDup, Recorded, CountClear,
         Linked, LoneBackward, ExFat.Erased, ExFat.Undisturbed, View, ExFat.Clusters, HeapChanged, Node.Cursor,
         ExFat.Map, Walk, ExFat.Valid, ExFat.FileOk, CeilDiv, Content, Recall, ExFat.FileChain, LoneMap, LoneHeap;
    ValidParts(ef, node);
    ghost var b := Before(ef.fat[..], ef.Map(), ef.heap[..], ef.FileChains(), node.size);
    ghost var ch, back := ef.FileChain(node), Backward(ef, node, size);
    SameChains(ef, b);
    OwnChain(ef, node);
    if size <= MAX_CLUSTERS * ef.clusterSize { ClusterCount(ef, size); }
    ghost var ch2, touched;
    rc, ch2, touched := TruncateSteps(ef, node, size, erase, ch, back);
    if rc == 0 && size > MAX_CLUSTERS * ef.clusterSize {
      TooLong(ef, node);
    }
    if back {
      LoneIsOne(b.bits, ch);
      AfterBackward(ef, node, b);
    } else {
      ChainsSettle(ef, node, b.fat, b.bits, b.chains, ch2, touched);
      ResizedFree(b.bits, ef.Map(), ch, ch2);
      if rc != 0 || size <= MAX_CLUSTERS * ef.clusterSize {
        Settle(ef, node, b.fat, b.bits, b.chains, ch2, touched);
        OwnChain(ef, node);
      }
    }
  }

  /** exfat_truncate: afterwards the volume is consistent exactly when it was not the lone backward case, and the call
      did not succeed with more clusters than 32 bits count. If it is, this file is its old self cut or extended, every
      other file is untouched, and free space is conserved. Erasing as far as that is not part of this. */
  method Truncate(ef: ExFat, node: Node, size: nat, erase: bool) returns (rc: int)
    requires ef.Valid() && node in ef.files
    requires node.references != 0 || node.parent == null
    requires size <= MAX_CLUSTERS * ef.clusterSize || (!erase && size < 0x1_0000_0000_0000_0000)
    modifies ef`dirty, ef.chunk, ef.fat, ef.heap,
             node`fptrIndex, node`fptrCluster, node`startCluster, node`isContiguous, node`isDirty, node`size
    ensures ef.Valid() <==> !old(Backward(ef, node, size)) && !(rc == 0 && size > MAX_CLUSTERS * ef.clusterSize)
    ensures old(Backward(ef, node, size)) ==>
              && ValidCluster(ef.count, old(node.startCluster)) && 3 <= old(node.startCluster)
              && ef.Map() == LoneMap(ef, old(ef.Map()), old(node.startCluster), size) && ef.fat[..] == old(ef.fat[..])
              && node.startCluster == old(node.startCluster) && node.isContiguous
              && LoneAnswer(ef, node.startCluster, size, erase, rc)
              && LoneHeap(ef, old(ef.heap[..]), node.startCluster, old(node.size), size, erase)
    ensures node.size == if rc == 0 then size else old(node.size)
    ensures rc == 0 && size > MAX_CLUSTERS * ef.clusterSize ==> |ef.FileChain(node)| * ef.clusterSize < size
    ensures !erase ==> ef.heap[..] == old(ef.heap[..])
    ensures !old(Backward(ef, node, size)) ==>
              && (rc == 0 || rc == -ENOSPC)
              && (rc == 0 <==> ef.Clusters(size) <= |old(ef.FileChain(node))| + old(FreeClusters(ef)))
              && FreeClusters(ef) + |ef.FileChain(node)| == old(FreeClusters(ef)) + |old(ef.FileChain(node))|
              && |ef.FileChain(node)| == ef.Clusters(node.size)
              && Denotes(ef.fat[..], ef.count, node.startCluster, node.isContiguous, ef.FileChain(node))
    ensures !old(Backward(ef, node, size)) && size <= MAX_CLUSTERS * ef.clusterSize ==>
              && (rc == 0 <==>
                    CeilDiv(size, ef.clusterSize) <= CeilDiv(old(node.size), ef.clusterSize) + old(FreeClusters(ef)))
              && FreeClusters(ef) + CeilDiv(node.size, ef.clusterSize) ==
                 old(FreeClusters(ef)) + CeilDiv(old(node.size), ef.clusterSize)
    ensures !old(Backward(ef, node, size)) ==>
              && Resized(old(ef.Map()), ef.Map(), old(ef.FileChain(node)), ef.FileChain(node))
              && (|old(ef.FileChain(node))| < |ef.FileChain(node)| ==>
                    var before, after := old(ef.FileChain(node)), ef.FileChain(node);
                    && after == before + Extend(old(ef.Map()), ef.LastOf(before), |after| - |before|)
                    && node.isContiguous == (before == [] && |after| == 1) && !LoneBackward(ef.Map(), after))
              && (|ef.FileChain(node)| < |old(ef.FileChain(node))| ==> node.isContiguous == old(node.isContiguous))
              && (|old(ef.FileChain(node))| == ef.Clusters(size) ==>
                    && ef.FileChain(node) == old(ef.FileChain(node)) && ef.Map() == old(ef.Map())
                    && node.isContiguous == old(node.isContiguous))
    ensures ef.Valid() ==>
              var before, after := old(Content(ef, node)), Content(ef, node);
              && (rc != 0 ==> after == before)
              && (rc == 0 && size <= |before| ==> after == before[..size])
              && (rc == 0 && size > |before| ==> after[..|before|] == before)
              && (rc == 0 && size > |before| && erase ==> after == before + Zeros(size - |before|))
    ensures !old(Backward(ef, node, size)) ==>
              forall g :: g in ef.files && g != node ==> ef.FileChain(g) == old(ef.FileChain(g))
    ensures ef.Valid() ==> forall g :: g in ef.files && g != node ==> Content(ef, g) == old(Content(ef, g))
  {
    hide Denotes, Exclusive, Resized, Bits, AllValid, CountClear, LoneBackward, View, ExFat.Clusters, HeapChanged,
         ExFat.Map, ExFat.Valid, CeilDiv, Content, Recall, ExFat.FileChain, LoneMap, LoneHeap, LoneAnswer, Backward,
         FreeClusters, Extend, ExFat.FileView, Recorded, Linked, ExFat.Undisturbed, ExFat.FileChains, Node.Cursor,
         AllSet, NoDup, IsChain, Pow2, ExFat.FileOk, Walk;
    ValidParts(ef, node);
    ghost var b := Before(ef.fat[..], ef.Map(), ef.heap[..], ef.FileChains(), node.size);
    SameChains(ef, b);
    RecallNow(ef, b);
    OwnChain(ef, node);
    ghost var ch := ef.FileChain(node);
    rc := TruncateChains(ef, node, size, erase);
    if ef.Valid() {
      ghost var ch2 := ef.FileChain(node);
      OwnChain(ef, node);
      ResizedShape(b.bits, ef.Map(), ch, ch2);
      OwnContent(ef, node, b, ch2, size, rc == 0, erase);
      HeapUndisturbed(ef, b.heap, ch2, b.size, size, rc == 0 && erase);
      OtherContents(ef, node, b, ch2);
    }
  }

  /** A size of 2^32 clusters or more is one its clusters cannot hold. */
  lemma TooLong(ef: ExFat, node: Node)
    requires ef.Shape() && node in ef.files && node.size > MAX_CLUSTERS * ef.clusterSize
    ensures !ef.Valid() && |ef.FileChain(node)| * ef.clusterSize < node.size
  {
    hide ExFat.FileChain, ExFat.Clusters, ExFat.Valid;
    if ef.Valid() { ValidParts(ef, node); }
    WalkLength(ef, node);
    ThirtyTwoBits(ef, node.size);
    MulGap(|ef.FileChain(node)|, MAX_CLUSTERS, ef.clusterSize);
  }

  /** Growing a file to 2^32 clusters frees all it has, and succeeds. */
  method GrowPast(ef: ExFat, node: Node) returns (rc: int)
    requires ef.Valid() && node in ef.files && (node.references != 0 || node.parent == null)
    modifies ef`dirty, ef.chunk, ef.fat, ef.heap,
             node`fptrIndex, node`fptrCluster, node`startCluster, node`isContiguous, node`isDirty, node`size
    ensures rc == 0 && node.size == 0x1_0000_0000 * ef.clusterSize && !ef.Valid()
    ensures ef.FileChain(node) == [] && node.startCluster == 0
    ensures FreeClusters(ef) == old(FreeClusters(ef)) + |old(ef.FileChain(node))|
  {
    hide ExFat.Valid, ExFat.FileChain, ExFat.Clusters, FreeClusters, Content, Resized, Linked, ExFat.Map, CeilDiv;
    HasShape(ef);
    Wrapped(ef);
    WalkLength(ef, node);
    rc := Truncate(ef, node, 0x1_0000_0000 * ef.clusterSize, false);
  }

  lemma Wrapped(ef: ExFat)
    requires ef.Valid()
    ensures 0x1_0000_0000 * ef.clusterSize < 0x1_0000_0000_0000_0000 && ef.Clusters(0x1_0000_0000 * ef.clusterSize) == 0
  {
    hide Exclusive, ExFat.FileOk, Bits;
    var cs := ef.clusterSize;
    DivModUnique(0x1_0000_0000, cs - 1, cs);
    assert (0x1_0000_0000 * cs + cs - 1) % 0x1_0000_0000_0000_0000 == 0x1_0000_0000 * cs + cs - 1;
  }

  lemma ThirtyTwoBits(ef: ExFat, size: nat)
    requires ef.clusterSize > 0
    ensures ef.Clusters(size) <= MAX_CLUSTERS
  {}

  lemma ValidParts(ef: ExFat, node: Node)
    requires ef.Valid() && node in ef.files
    ensures ef.HeapShape() && ef.clusterSize == Pow2(ef.clusterBits) && ef.clusterSize <= 0x200_0000
    ensures Exclusive(ef.count, ef.Map(), ef.reserved, ef.FileChains()) && node.size <= MAX_CLUSTERS * ef.clusterSize
    ensures ef.FileChains()[node] == ef.FileChain(node) && AllValid(ef.count, ef.FileChain(node))
    ensures Recorded(ef, node, ef.fat[..], ef.FileChains())
  {
    Record(ef, node);
  }

  lemma RecallNow(ef: ExFat, b: Before)
    requires ef.Valid() && b.heap == ef.heap[..] && b.chains == ef.FileChains()
    ensures forall f :: f in ef.files ==>
              && AllValid(ef.count, b.chains[f]) && f.size <= |b.chains[f]| * ef.clusterSize
              && Content(ef, f) == Recall(ef, b, f, f.size)
  {
    hide View, Bits;
    forall f | f in ef.files
      ensures AllValid(ef.count, b.chains[f]) && f.size <= |b.chains[f]| * ef.clusterSize
      ensures Content(ef, f) == Recall(ef, b, f, f.size)
    {
      OwnChain(ef, f);
    }
  }

  lemma ResizedShape(bits0: seq<bool>, bits: seq<bool>, ch: seq<nat>, ch2: seq<nat>)
    requires Resized(bits0, bits, ch, ch2)
    ensures if |ch| <= |ch2| then ch == ch2[..|ch|] else ch2 == ch[..|ch2|]
  {}

  /** The content of a file as recorded before a truncate. */
  ghost function Recall(ef: ExFat, b: Before, f: Node, size: nat): (bytes: seq<byte>)
    requires ef.HeapShape() && |b.heap| == ef.heap.Length && f in b.chains && AllValid(ef.count, b.chains[f])
    requires size <= |b.chains[f]| * ef.clusterSize
  {
    View(b.heap, ef.clusterSize, ef.count, b.chains[f])[..size]
  }

  lemma OtherContents(ef: ExFat, node: Node, b: Before, ch2: seq<nat>)
    requires ef.Valid() && node in ef.files && |b.heap| == ef.heap.Length
    requires b.chains.Keys == ef.files && ef.FileChain(node) == ch2
    requires forall g :: g in ef.files && g != node ==> ef.FileChain(g) == b.chains[g]
    requires ef.Undisturbed(b.heap, ef.heap[..], ch2)
    ensures forall g :: g in ef.files && g != node ==>
              && AllValid(ef.count, b.chains[g]) && g.size <= |b.chains[g]| * ef.clusterSize
              && Content(ef, g) == Recall(ef, b, g, g.size)
  {
    hide View, Bits;
    forall g | g in ef.files && g != node
      ensures AllValid(ef.count, b.chains[g]) && g.size <= |b.chains[g]| * ef.clusterSize
      ensures Content(ef, g) == Recall(ef, b, g, g.size)
    {
      OwnChain(ef, g);
      assert forall c :: c in ef.FileChains()[g] ==> c !in ef.FileChains()[node];
    }
  }

  lemma HeapUndisturbed(ef: ExFat, heap0: seq<byte>, ch2: seq<nat>, size0: nat, size: nat, erased: bool)
    requires ef.HeapShape() && |heap0| == ef.heap.Length && AllValid(ef.count, ch2)
    requires HeapChanged(ef, heap0, ch2, size0, size, erased)
    ensures ef.Undisturbed(heap0, ef.heap[..], ch2)
  {}

  lemma SameChains(ef: ExFat, b: Before)
    requires ef.Shape() && ef.clusterSize > 0 && ef.FileChains() == b.chains
    ensures b.chains.Keys == ef.files && forall g :: g in ef.files ==> ef.FileChain(g) == b.chains[g]
  {}

  lemma OwnContent(ef: ExFat, node: Node, b: Before, ch2: seq<nat>, size: nat, done: bool, erase: bool)
    requires ef.Valid() && node in ef.files && |b.heap| == ef.heap.Length
    requires node in b.chains && AllValid(ef.count, b.chains[node]) && AllValid(ef.count, ch2)
    requires |b.chains[node]| == ef.Clusters(b.size) && b.size <= |b.chains[node]| * ef.clusterSize
    requires b.size <= MAX_CLUSTERS * ef.clusterSize
    requires ef.FileChain(node) == ch2 && node.size == if done then size else b.size
    requires if |b.chains[node]| <= |ch2| then b.chains[node] == ch2[..|b.chains[node]|]
             else ch2 == b.chains[node][..|ch2|]
    requires !done ==> ch2 == b.chains[node]
    requires HeapChanged(ef, b.heap, ch2, b.size, size, done && erase)
    ensures var before, after := Recall(ef, b, node, b.size), Content(ef, node);
            && (!done ==> after == before)
            && (done && size <= |before| ==> after == before[..size])
            && (done && size > |before| ==> after[..|before|] == before)
            && (done && size > |before| && erase ==> after == before + Zeros(size - |before|))
  {
    hide View, ExFat.Erased, ExFat.Undisturbed, Bits, ExFat.Clusters, Exclusive;
    ClusterCount(ef, b.size);
    ClusterCount(ef, node.size);
    if done {
      if |ch2| < |b.chains[node]| { SmallerIsFewer(b.size, size, ef.clusterSize); }
      ResizedContent(ef, b.heap, ef.heap[..], b.chains[node], ch2, b.size, size, erase);
    }
  }

  lemma SmallerIsFewer(a: nat, b: nat, d: nat)
    requires d > 0 && CeilDiv(b, d) < CeilDiv(a, d)
    ensures b < a
  {
    CeilDivCovers(a, d);
    CeilDivCovers(b, d);
    MulGap(CeilDiv(b, d), CeilDiv(a, d) - 1, d);
  }

  lemma OneCluster(bits: seq<bool>, ch: seq<nat>)
    requires LoneBackward(bits, ch)
    ensures ch == [ch[0]] && 3 <= ch[0] < |bits| + 3 && !bits[ch[0] - 3]
  {}

  lemma AfterBackward(ef: ExFat, node: Node, b: Before)
    requires ef.Shape() && ef.clusterSize > 0 && Recorded(ef, node, b.fat, b.chains)
    requires Exclusive(ef.count, b.bits, ef.reserved, b.chains) && LoneBackward(b.bits, b.chains[node])
    requires ValidCluster(ef.count, b.chains[node][0])
    requires ef.fat[..] == b.fat && node.isContiguous && node.startCluster == b.chains[node][0]
    requires ef.Map()[b.chains[node][0] - 3]
    requires ef.Clusters(node.size) == 1 || ef.Clusters(node.size) == 2
    ensures !ef.Valid()
  {
    hide Bits, Exclusive, NoDup, Linked, AllValid, LoneBackward, ExFat.Valid, ExFat.FileChain, ExFat.Clusters,
         ExFat.Map;
    var s := node.startCluster;
    OneCluster(b.bits, b.chains[node]);
    ChainAfterwards(ef, node, b);
    if ef.Clusters(node.size) == 1 {
      BrokenByLeak(ef, b.bits, b.chains, s - 3);
    } else {
      BrokenByOverlap(ef, node, b.bits, b.chains, s);
    }
  }

  /** After the misgrowth, or before it when nothing was claimed: the other chains are as before, and the file has s
      or s, s + 1. */
  lemma ChainAfterwards(ef: ExFat, node: Node, b: Before)
    requires ef.Shape() && ef.clusterSize > 0 && Recorded(ef, node, b.fat, b.chains)
    requires ef.fat[..] == b.fat && node.isContiguous && [node.startCluster] == b.chains[node]
    ensures forall g :: g in ef.files && g != node ==> ef.FileChain(g) == b.chains[g]
    ensures ef.Clusters(node.size) == 1 ==> ef.FileChains() == b.chains
    ensures ef.Clusters(node.size) == 2 ==> ef.FileChain(node) == [node.startCluster, node.startCluster + 1]
  {
    hide Bits, NoDup, Linked, AllValid;
    forall g | g in ef.files && g != node ensures ef.FileChain(g) == b.chains[g] {
      ChainIsWalk(ef, g, b.chains[g]);
    }
    if ef.Clusters(node.size) == 1 {
      assert ef.FileChain(node) == [node.startCluster];
    } else if ef.Clusters(node.size) == 2 {
      assert ef.FileChain(node) == [node.startCluster, node.startCluster + 1];
    }
  }

  // ---- The lone backward case, reached ----

  /** A new file of one byte, on a volume whose clusters are single bytes. */
  method TakeOne(ef: ExFat, ghost k: nat) returns (f: Node)
    requires ef.Valid() && ef.clusterSize == 1 && Scan(ef.Map(), 0) == k < ef.count
    modifies ef`files, ef`dirty, ef.chunk, ef.fat, ef.heap
    ensures ef.Valid() && fresh(f) && f.parent == null && f.size == 1 && ef.files == old(ef.files) + {f}
    ensures ef.Map() == old(ef.Map())[k := true] && ef.FileChain(f) == [k + 2] && f.isContiguous
    ensures forall g :: g in old(ef.files) ==> ef.FileChain(g) == old(ef.FileChain(g))
  {
    hide ExFat.Valid, ExFat.FileChain, Content, FreeClusters, ExFat.Map, Extend, Backward, LoneMap, Resized, CeilDiv,
         Scan;
    HasShape(ef);
    ghost var bits := ef.Map();
    f := AddNode(ef, null);
    NotEmptyNow(ef, f, k);
    FirstOne(bits, k);
    var rc := Truncate(ef, f, 1, false);
    OneByte(ef, f);
    OneClaimed(bits, ef.Map(), k);
  }

  lemma NotEmptyNow(ef: ExFat, f: Node, k: nat)
    requires ef.Valid() && f in ef.files && ef.clusterSize == 1 && ef.FileChain(f) == [] && f.size == 0
    requires Scan(ef.Map(), 0) == k < ef.count
    ensures !Backward(ef, f, 1) && 1 <= FreeClusters(ef) && CeilDiv(1, 1) == 1 && CeilDiv(0, 1) == 0
    ensures ef.LastOf([]) == 1
  {
    hide ExFat.Valid, ExFat.FileChain, Bits;
    HasShape(ef);
    CountClearZero(ef.Map());
  }

  lemma FirstOne(bits: seq<bool>, k: nat)
    requires Scan(bits, 0) == k < |bits|
    ensures Extend(bits, 1, 1) == [k + 2] && [] + [k + 2] == [k + 2]
  {
    ExtendUnfold(bits, 1, 1);
  }

  lemma OneByte(ef: ExFat, f: Node)
    requires ef.Valid() && f in ef.files && f.size == 1 && ef.clusterSize == 1
    ensures |ef.FileChain(f)| == 1
  {
    hide ExFat.Valid;
    OwnChain(ef, f);
  }

  lemma OneClaimed(bits0: seq<bool>, bits: seq<bool>, k: nat)
    requires Resized(bits0, bits, [], [k + 2]) && k < |bits0|
    ensures bits == bits0[k := true]
  {
    assert [k + 2][0..] == [k + 2];
  }

  lemma OneReleased(bits0: seq<bool>, bits: seq<bool>, k: nat)
    requires Resized(bits0, bits, [k + 2], []) && k < |bits0|
    ensures bits == bits0[k := false]
  {
    assert [k + 2][0..] == [k + 2];
  }

  /** Three clusters of one byte each, and none of them used. */
  method EmptyVolume() returns (ef: ExFat)
    ensures fresh(ef) && fresh(ef.chunk) && fresh(ef.fat) && fresh(ef.heap)
    ensures ef.Valid() && ef.files == {} && ef.clusterSize == 1 && ef.Map() == [false, false, false]
  {
    hide ExFat.Valid, ExFat.Map;
    var chunk := new Word[1](i => 0);
    var fat := new u32[5](i => 0);
    var heap := new byte[3](i => 0);
    assert Pow2(0) == 1;
    ef := new ExFat(3, 0, chunk, fat, heap);
    HasShape(ef);
    NothingUsed(ef);
  }

  /** Three files of one byte take one each. */
  method FullVolume() returns (ef: ExFat, second: Node, third: Node)
    ensures fresh(ef) && fresh(ef.files) && fresh(ef.chunk) && fresh(ef.fat) && fresh(ef.heap)
    ensures ef.Valid() && ef.clusterSize == 1 && ef.Map() == [true, true, true] && {second, third} <= ef.files
    ensures ef.FileChain(second) == [3] && second.size == 1 && second.parent == null && second != third
    ensures ef.FileChain(third) == [4] && third.size == 1 && third.parent == null && third.isContiguous
  {
    hide ExFat.Valid, ExFat.FileChain, ExFat.Map, Scan;
    ef := EmptyVolume();
    Firsts();
    HasShape(ef);
    var first := TakeOne(ef, 0);
    assert ef.Map() == [true, false, false];
    second := TakeOne(ef, 1);
    assert ef.Map() == [true, true, false];
    third := TakeOne(ef, 2);
    assert ef.Map() == [true, true, true];
  }

  /** And the second file gives its own back. */
  method LoneVolume() returns (ef: ExFat, file: Node)
    ensures fresh(ef) && fresh(ef.files) && fresh(ef.chunk) && fresh(ef.fat) && fresh(ef.heap)
    ensures ef.Valid() && file in ef.files && file.parent == null && ef.clusterSize == 1
            && ef.Map() == [true, false, true]
    ensures ef.FileChain(file) == [4] && file.isContiguous && Backward(ef, file, 2)
  {
    hide ExFat.Valid, ExFat.FileChain, Content, FreeClusters, ExFat.Map, Backward, LoneMap, Resized, CeilDiv, Extend;
    var second: Node;
    ef, second, file := FullVolume();
    HasShape(ef);
    Shrinks(ef, second);
    var rc := Truncate(ef, second, 0, false);
    NoChain(ef, second);
    OneReleased([true, true, true], ef.Map(), 1);
    Reached(ef, file);
  }

  lemma NoChain(ef: ExFat, f: Node)
    requires ef.Valid() && f in ef.files && f.size == 0
    ensures ef.FileChain(f) == []
  {
    hide ExFat.Valid;
    OwnChain(ef, f);
  }

  lemma NothingUsed(ef: ExFat)
    requires ef.Shape() && ef.count == 3 && ef.chunk.Length == 1 && ef.chunk[0] == 0
    ensures ef.Map() == [false, false, false]
  {
    forall i | 0 <= i < 3 ensures !Get(ef.chunk[..], i) {
      NoBit(i);
    }
  }

  lemma {:induction false} NoBit(i: nat)
    ensures !Bit(0, i)
  {
    if i > 0 { NoBit(i - 1); }
  }

  lemma Firsts()
    ensures Scan([false, false, false], 0) == 0 && Scan([true, false, false], 0) == 1
            && Scan([true, true, false], 0) == 2
  {
    FirstClearUnique([true, true, false], 0, 3, 2);
    FirstClearUnique([true, false, false], 0, 3, 1);
  }

  lemma Shrinks(ef: ExFat, f: Node)
    requires ef.Valid() && f in ef.files && ef.clusterSize == 1 && f.size == 1
    ensures !Backward(ef, f, 0) && CeilDiv(0, 1) == 0 && CeilDiv(1, 1) == 1
  {
    hide ExFat.Valid, Bits;
    HasShape(ef);
    ClusterCount(ef, 0);
  }

  lemma Reached(ef: ExFat, f: Node)
    requires ef.Valid() && f in ef.files && ef.clusterSize == 1 && f.size == 1 && f.isContiguous
    requires ef.FileChain(f) == [4] && ef.Map() == [true, false, true]
    ensures Backward(ef, f, 2)
  {
    hide ExFat.Valid, ExFat.FileChain, ExFat.Map, ExFat.Clusters, Bits;
    HasShape(ef);
    ClusterCount(ef, 1);
    ClusterCount(ef, 2);
    LoneExample();
  }

  lemma StartsAtFour(ef: ExFat, f: Node)
    requires ef.Valid() && f in ef.files && ef.FileChain(f) == [4]
    ensures f.startCluster == 4
  {
    hide ExFat.Valid, ExFat.FileChain;
    OwnChain(ef, f);
  }

  lemma TwoBytes()
    ensures CeilDiv(2, 1) == 2
  {}

  /** Growing that file by a byte breaks the volume, and reports success. */
  method BreakVolume() returns (ef: ExFat, file: Node, rc: int)
    ensures rc == 0 && ef.Shape() && !ef.Valid() && file in ef.files && file.size == 2
    ensures ef.Map() == [true, true, true] && file.startCluster == 4 && file.isContiguous
  {
    hide ExFat.Valid, ExFat.FileChain, Content, FreeClusters, ExFat.Map, Backward, Resized, CeilDiv;
    ef, file := LoneVolume();
    HasShape(ef);
    StartsAtFour(ef, file);
    ClusterCount(ef, 2);
    TwoBytes();
    rc := Truncate(ef, file, 2, false);
  }
}
