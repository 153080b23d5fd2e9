/** Allocation of clusters to files: growing, shrinking and truncating.
    Device access always succeeds here; running out of free clusters is the error that remains. */
module Cluster {
  import opened Arithmetic
  import opened Bitmap
  import opened Chains
  import opened FlatFile

  const EIO: int := 5
  const ENOSPC: int := 28

  class Node {
    var references: int
    var parent: Node?
    var fptrIndex: nat
    var fptrCluster: nat
    var startCluster: nat
    var isContiguous: bool
    var isDirty: bool
    var size: nat

    /** The node of a new, empty file, as commit_entry leaves it. */
    constructor (parent: Node?)
      ensures size == startCluster == fptrIndex == fptrCluster == 0 && !isContiguous && !isDirty
      ensures references == 0 && this.parent == parent
    {
      references, this.parent := 0, parent;
      fptrIndex, fptrCluster, startCluster, size := 0, 0, 0, 0;
      isContiguous, isDirty := false, false;
    }

    /** The cached cursor names the cluster at its recorded index. */
    ghost predicate Cursor(ch: seq<nat>)
      reads this`fptrIndex, this`fptrCluster, this`startCluster
    {
      if ch == [] then fptrIndex == 0 && fptrCluster == startCluster
      else fptrIndex < |ch| && fptrCluster == ch[fptrIndex]
    }
  }

  class ExFat {
    const count: nat
    const clusterBits: nat
    const clusterSize: nat
    const chunk: array<Word>
    const fat: array<u32>
    const heap: array<byte>
    var dirty: bool
    /** All nodes whose clusters this volume manages, and the clusters that belong to no node. */
    ghost var files: set<Node>
    ghost const reserved: set<nat>

    ghost predicate Shape() {
      && count <= LAST_DATA_CLUSTER - FIRST_DATA_CLUSTER + 1
      && count <= chunk.Length * WORD_BITS
      && FIRST_DATA_CLUSTER + count <= fat.Length
      && clusterSize > 0
      && (chunk as object) != fat && (chunk as object) != heap && (fat as object) != heap
    }

    /** The heap holds every cluster. */
    ghost predicate HeapShape() {
      Shape() && heap.Length == count * clusterSize
    }

    ghost function Map(): (bits: seq<bool>)
      requires Shape()
      reads chunk
      ensures |bits| == count
    {
      Bits(chunk[..], count)
    }

    // ---- What a consistent volume is ----

    /** bytes2clusters: 64-bit arithmetic, the result cut to 32 bits. */
    function Clusters(bytes: nat): (n: nat)
      requires clusterSize > 0
    {
      (bytes + clusterSize - 1) % 0x1_0000_0000_0000_0000 / clusterSize % 0x1_0000_0000
    }

    /** The chain a node's start cluster, flag and size denote. */
    ghost function FileChain(f: Node): (ch: seq<nat>)
      requires Shape()
      reads fat, f
    {
      Walk(fat[..], f.isContiguous, f.startCluster, Clusters(f.size))
    }

    ghost predicate FileOk(f: Node)
      requires Shape()
      reads fat, f
    {
      && f.size <= 0xffffffff * clusterSize
      && Denotes(fat[..], count, f.startCluster, f.isContiguous, FileChain(f))
      && f.Cursor(FileChain(f))
    }

    ghost function FileChains(): (chains: map<Node, seq<nat>>)
      requires Shape()
      reads this, fat, files
    {
      map f | f in files :: FileChain(f)
    }

    ghost predicate Valid()
      reads this, chunk, fat, files
    {
      && HeapShape() && clusterSize == Pow2(clusterBits) && clusterSize <= 0x200_0000
      && (forall f :: f in files ==> FileOk(f))
      && Exclusive(count, Map(), reserved, FileChains())
    }

    /** A volume none of whose files has been read yet: every cluster in use counts as reserved. */
    constructor (count: nat, clusterBits: nat, chunk: array<Word>, fat: array<u32>, heap: array<byte>)
      requires count <= LAST_DATA_CLUSTER - FIRST_DATA_CLUSTER + 1 && count <= chunk.Length * WORD_BITS
      requires FIRST_DATA_CLUSTER + count <= fat.Length && heap.Length == count * Pow2(clusterBits)
      requires Pow2(clusterBits) <= 0x200_0000
      requires (chunk as object) != fat && (chunk as object) != heap && (fat as object) != heap
      ensures Valid() && files == {} && this.count == count && clusterSize == Pow2(clusterBits)
      ensures this.chunk == chunk && this.fat == fat && this.heap == heap
    {
      this.count, this.clusterBits, clusterSize := count, clusterBits, Pow2(clusterBits);
      this.chunk, this.fat, this.heap, dirty, files := chunk, fat, heap, false, {};
      reserved := set i | 0 <= i < count && Bits(chunk[..], count)[i] :: i + FIRST_DATA_CLUSTER;
    }

    // ---- exfat_next_cluster, exfat_advance_cluster ----

    method NextCluster(node: Node, cluster: nat) returns (next: nat)
      requires Shape() && ValidCluster(count, cluster)
      ensures next == Next(fat[..], node.isContiguous, cluster)
    {
      if node.isContiguous {
        return cluster + 1;
      }
      next := fat[cluster];
    }

    /** Moves the cursor to cluster number `index`, walking from the cached cluster, or from the start to go back. */
    method AdvanceCluster(node: Node, index: nat, ghost ch: seq<nat>) returns (cluster: nat)
      requires Shape()
      requires IsChain(fat[..], count, node.startCluster, node.isContiguous, ch)
      requires node.Cursor(ch)
      requires index < |ch| || (ch == [] && index == 0)
      modifies node`fptrIndex, node`fptrCluster
      ensures cluster == if ch == [] then node.startCluster else ch[index]
      ensures node.Cursor(ch) && node.fptrIndex == index
    {
      if node.fptrIndex > index {
        node.fptrIndex := 0;
        node.fptrCluster := node.startCluster;
      }
      var i := node.fptrIndex;
      while i < index
        invariant node.fptrIndex <= i <= index
        invariant ch != [] ==> node.fptrCluster == ch[i]
        invariant ch == [] ==> node.fptrCluster == node.startCluster
      {
        assert ch[i + 1] == Next(fat[..], node.isContiguous, ch[i]);
        node.fptrCluster := NextCluster(node, node.fptrCluster);
        i := i + 1;
        if !ValidCluster(count, node.fptrCluster) {
          assert i == index;
          break;
        }
      }
      node.fptrIndex := index;
      cluster := node.fptrCluster;
    }

    // ---- set_next_cluster, allocate_cluster, free_cluster ----

    /** Stores a FAT link; contiguous files have none. */
    method SetNextCluster(contiguous: bool, current: nat, next: u32)
      requires Shape() && ValidCluster(count, current)
      modifies fat
      ensures fat[..] == if contiguous then old(fat[..]) else old(fat[..])[current := next]
    {
      if contiguous {
        return;
      }
      fat[current] := next;
    }

    /** hint - EXFAT_FIRST_DATA_CLUSTER in 32-bit unsigned arithmetic. */
    function HintIndex(hint: u32): nat {
      if hint >= FIRST_DATA_CLUSTER then hint - FIRST_DATA_CLUSTER else hint + 0x1_0000_0000 - FIRST_DATA_CLUSTER
    }

    /** Claims the first free cluster going round the bitmap from the hint. */
    method AllocateCluster(hint: u32) returns (cluster: u32)
      requires Shape()
      modifies chunk, this`dirty
      ensures var r := Scan(old(Map()), HintIndex(hint));
              if r < count then cluster == r + FIRST_DATA_CLUSTER && Map() == old(Map())[r := true]
              else cluster == CLUSTER_END && Map() == old(Map())
    {
      var start := HintIndex(hint);
      if start >= count {
        start := 0;
      }
      var c := FindBitAndSet(chunk, start, count, count);
      if c == count {
        c := FindBitAndSet(chunk, 0, start, count);
        if c == start {
          return CLUSTER_END;
        }
      }
      dirty := true;
      cluster := c + FIRST_DATA_CLUSTER;
    }

    method FreeCluster(cluster: nat)
      requires Shape() && ValidCluster(count, cluster)
      modifies chunk, this`dirty
      ensures Map() == old(Map())[cluster - FIRST_DATA_CLUSTER := false]
    {
      var i := cluster - FIRST_DATA_CLUSTER;
      ClearOneBit(chunk[..], count, i);
      chunk[i / WORD_BITS] := WithoutBit(chunk[i / WORD_BITS], i % WORD_BITS);
      dirty := true;
    }

    // ---- make_noncontiguous, grow_file ----

    /** Writes the FAT links a contiguous run first .. last never had. */
    method MakeNoncontiguous(first: nat, last: nat)
      requires Shape() && ValidCluster(count, first) && ValidCluster(count, last)
      modifies fat
      ensures forall c :: 0 <= c < fat.Length ==> fat[c] == if first <= c < last then c + 1 else old(fat[c])
    {
      var c := first;
      while c < last
        invariant first <= c
        invariant c == first || c <= last
        invariant forall d :: 0 <= d < fat.Length ==> fat[d] == if first <= d < c then d + 1 else old(fat[d])
      {
        SetNextCluster(false, c, c + 1);
        c := c + 1;
      }
    }

    /** The chain as it stands between two allocations of grow_file: linked, but not yet terminated. */
    ghost predicate Open(node: Node, ch: seq<nat>)
      requires Shape()
      reads fat, node
    {
      && ch != [] && ch[0] == node.startCluster
      && AllValid(count, ch) && NoDup(ch)
      && Linked(fat[..], node.isContiguous, ch)
    }

    lemma RunIndex(ch: seq<nat>, i: nat)
      requires Linked([], true, ch) && i < |ch|
      ensures ch[i] == ch[0] + i
    {
      if i > 0 {
        RunIndex(ch, i - 1);
        assert ch[i] == Next([], true, ch[i - 1]);
      }
    }

    /** The middle of grow_file's loop: link next after previous, dropping the contiguous flag when
        the guard next != previous - 1 says so. */
    method LinkCluster(node: Node, previous: nat, next: nat, ghost ch: seq<nat>)
      requires Shape() && Open(node, ch) && previous == ch[|ch| - 1]
      requires ValidCluster(count, next) && next !in ch
      modifies fat, node`isContiguous, node`isDirty
      ensures old(node.isContiguous) && next == previous - 1 ==> fat[..] == old(fat[..]) && node.isContiguous
      ensures !(old(node.isContiguous) && next == previous - 1) ==>
                Open(node, ch + [next]) && !node.isContiguous && SameOutside(old(fat[..]), fat[..], ch)
    {
      ghost var fat0 := fat[..];
      if next != previous - 1 && node.isContiguous {
        MakeNoncontiguous(node.startCluster, previous);
        node.isContiguous := false;
        node.isDirty := true;
        ConvertedRun(fat0, fat[..], ch);
      }
      assert node.isContiguous || Linked(fat[..], false, ch);
      ghost var fat1 := fat[..];
      SetNextCluster(node.isContiguous, previous, next);
      if !node.isContiguous {
        LinkOne(fat1, ch, next);
      }
    }

    lemma ConvertedRun(fat0: seq<u32>, fat1: seq<u32>, ch: seq<nat>)
      requires Shape() && |fat0| == |fat1| == fat.Length
      requires ch != [] && AllValid(count, ch) && Linked(fat0, true, ch)
      requires forall c :: 0 <= c < |fat0| ==> fat1[c] == if ch[0] <= c < ch[|ch| - 1] then c + 1 else fat0[c]
      ensures Linked(fat1, false, ch) && SameOutside(fat0, fat1, ch)
    {
      forall i | 0 <= i < |ch| ensures ch[i] == ch[0] + i {
        RunIndex(ch, i);
      }
      forall c | ch[0] <= c < ch[|ch| - 1] ensures c in ch {
        assert ch[c - ch[0]] == c;
      }
    }

    lemma LinkOne(fat1: seq<u32>, ch: seq<nat>, next: nat)
      requires Shape() && |fat1| == fat.Length
      requires ch != [] && AllValid(count, ch) && NoDup(ch) && Linked(fat1, false, ch)
      requires ValidCluster(count, next) && next !in ch
      ensures var fat2 := fat1[ch[|ch| - 1] := next];
              var ch' := ch + [next];
              Linked(fat2, false, ch') && AllValid(count, ch') && NoDup(ch') && SameOutside(fat1, fat2, ch)
    {
      var fat2 := fat1[ch[|ch| - 1] := next];
      var ch' := ch + [next];
      forall i, j | 0 <= i && j == i + 1 && j < |ch'| ensures ch'[j] == Next(fat2, false, ch'[i]) {
        if j < |ch| { assert ch[j] == Next(fat1, false, ch[i]); }
      }
      assert ch[|ch| - 1] in ch;
    }

    /** Allocating after previous would hand out the cluster just before it. */
    ghost predicate StepsBack(bits: seq<bool>, previous: nat)
      requires previous >= 1
    {
      Scan(bits, previous + 1 - FIRST_DATA_CLUSTER) + FIRST_DATA_CLUSTER == previous - 1
    }

    /** What the loop of grow_file has built so far: ext has been claimed and linked at the end of the chain ch. */
    ghost predicate Growing(node: Node, bits0: seq<bool>, fat0: seq<u32>, ch: seq<nat>, ext: seq<nat>)
      requires Shape()
      reads chunk, fat, node
    {
      && Open(node, ch)
      && node.Cursor(ch)
      && Claimed(bits0, Map(), ch, ext)
      && SameOutside(fat0, fat[..], ch)
      && (ext == [] ==> fat[..] == fat0)
    }

    // ---- shrink_file ----

    /** The clusters given back: all from keep on, except a last link that is out of range. */
    ghost function Released(ch: seq<nat>, keep: nat): seq<nat>
      requires keep < |ch|
    {
      if ValidCluster(count, ch[|ch| - 1]) then ch[keep..] else ch[keep..|ch| - 1]
    }

    /** Gives back the last `difference` clusters, and rewinds the cursor. */
    method ShrinkFile(node: Node, current: nat, difference: nat, ghost ch: seq<nat>) returns (rc: int)
      requires Shape() && 0 < difference <= current == |ch|
      requires IsChain(fat[..], count, node.startCluster, node.isContiguous, ch) && NoDup(ch)
      requires node.startCluster != CLUSTER_FREE && node.Cursor(ch)
      modifies this`dirty, chunk, fat, node`fptrIndex, node`fptrCluster, node`startCluster, node`isDirty
      ensures var keep := current - difference;
              && Denotes(fat[..], count, node.startCluster, node.isContiguous, ch[..keep])
              && node.Cursor(ch[..keep]) && node.fptrIndex == 0
              && Marked(old(Map()), Map(), Released(ch, keep), false)
      ensures SameOutside(old(fat[..]), fat[..], ch)
      ensures node.isContiguous ==> fat[..] == old(fat[..])
      ensures rc == if ValidCluster(count, ch[|ch| - 1]) then 0 else -EIO
    {
      hide Marked, Zeroed, NoDup, Denotes, Bits, SameOutside;
      ghost var keep := current - difference;
      ghost var fat0 := fat[..];
      var previous: nat;
      if current > difference {
        var last := AdvanceCluster(node, current - difference - 1, ch);
        assert ch[keep] == Next(fat[..], node.isContiguous, ch[keep - 1]);
        previous := NextCluster(node, last);
        SetNextCluster(node.isContiguous, last, CLUSTER_END);
      } else {
        previous := node.startCluster;
        node.startCluster := CLUSTER_FREE;
        node.isDirty := true;
      }
      node.fptrIndex := 0;
      node.fptrCluster := node.startCluster;
      rc := FreeTail(node.isContiguous, previous, difference, fat0, ch, keep);
    }

    /** The loop of shrink_file: frees the clusters ch[keep..], following links as it erases them. */
    method FreeTail(contiguous: bool, first: nat, difference: nat,
                    ghost fat0: seq<u32>, ghost ch: seq<nat>, ghost keep: nat) returns (rc: int)
      requires Shape() && |fat0| == fat.Length && keep < |ch| == keep + difference
      requires NoDup(ch) && Linked(fat0, contiguous, ch)
      requires forall i :: 0 <= i < |ch| - 1 ==> ValidCluster(count, ch[i])
      requires fat[..] == Cropped(fat0, contiguous, ch, keep) && first == ch[keep]
      modifies this`dirty, chunk, fat
      ensures Denotes(fat[..], count, if keep == 0 then CLUSTER_FREE else ch[0], contiguous, ch[..keep])
      ensures Marked(old(Map()), Map(), Released(ch, keep), false)
      ensures SameOutside(fat0, fat[..], ch)
      ensures contiguous ==> fat[..] == fat0
      ensures rc == if ValidCluster(count, ch[|ch| - 1]) then 0 else -EIO
    {
      hide Marked, Zeroed, NoDup, Denotes, Bits, Linked, SameOutside;
      ghost var fat1, bits0 := fat[..], Map();
      ghost var k := keep;
      NothingFreed(fat1, bits0, contiguous, ch, keep);
      var previous, left := first, difference;
      while left > 0
        invariant keep <= k && k + left == |ch|
        invariant left > 0 ==> previous == ch[k]
        invariant forall i :: 0 <= i < k ==> ValidCluster(count, ch[i])
        invariant Zeroed(fat1, fat[..], contiguous, ch[keep..k])
        invariant Marked(bits0, Map(), ch[keep..k], false)
      {
        left := left - 1;
        if !ValidCluster(count, previous) {
          CroppedDenotes(fat0, fat[..], contiguous, ch, keep, k);
          return -EIO;
        }
        StillLinked(fat0, fat[..], contiguous, ch, keep, k);
        FreeOne(fat1, fat[..], contiguous, ch[keep..k], previous);
        MarkOne(bits0, Map(), ch[keep..k], previous, false);
        assert ch[keep..k + 1] == ch[keep..k] + [previous];
        var next := if contiguous then previous + 1 else fat[previous];
        SetNextCluster(contiguous, previous, CLUSTER_FREE);
        FreeCluster(previous);
        previous := next;
        k := k + 1;
      }
      rc := 0;
      assert ch[keep..k] == ch[keep..];
      CroppedDenotes(fat0, fat[..], contiguous, ch, keep, k);
    }

    /** The FAT while a tail is being freed: its entries are zero, all others are as before. */
    ghost predicate Zeroed(fat1: seq<u32>, fat2: seq<u32>, contiguous: bool, tail: seq<nat>) {
      |fat2| == |fat1| &&
      if contiguous then fat2 == fat1
      else forall c :: 0 <= c < |fat1| ==> fat2[c] == if c in tail then CLUSTER_FREE else fat1[c]
    }

    lemma NothingFreed(fat1: seq<u32>, bits: seq<bool>, contiguous: bool, ch: seq<nat>, keep: nat)
      requires keep <= |ch|
      ensures Zeroed(fat1, fat1, contiguous, ch[keep..keep]) && Marked(bits, bits, ch[keep..keep], false)
    {}

    lemma FreeOne(fat1: seq<u32>, fat2: seq<u32>, contiguous: bool, tail: seq<nat>, c: nat)
      requires Zeroed(fat1, fat2, contiguous, tail) && c < |fat1|
      ensures Zeroed(fat1, if contiguous then fat2 else fat2[c := CLUSTER_FREE], contiguous, tail + [c])
    {}

    ghost function Cropped(fat0: seq<u32>, contiguous: bool, ch: seq<nat>, keep: nat): seq<u32>
      requires keep <= |ch|
    {
      if contiguous || keep == 0 || ch[keep - 1] >= |fat0| then fat0 else fat0[ch[keep - 1] := CLUSTER_END]
    }

    lemma StillLinked(fat0: seq<u32>, fat2: seq<u32>, contiguous: bool, ch: seq<nat>, keep: nat, k: nat)
      requires Shape() && |fat0| == fat.Length
      requires keep <= k < |ch| && NoDup(ch) && Linked(fat0, contiguous, ch)
      requires forall i :: 0 <= i <= k ==> ValidCluster(count, ch[i])
      requires Zeroed(Cropped(fat0, contiguous, ch, keep), fat2, contiguous, ch[keep..k])
      ensures k + 1 < |ch| ==> ch[k + 1] == Next(fat2, contiguous, ch[k])
    {
      if k + 1 < |ch| {
        assert ch[k + 1] == Next(fat0, contiguous, ch[k]);
        assert ch[k] !in ch[keep..k];
      }
    }

    lemma CroppedDenotes(fat0: seq<u32>, fat2: seq<u32>, contiguous: bool, ch: seq<nat>, keep: nat, k: nat)
      requires Shape() && |fat0| == fat.Length
      requires keep <= k <= |ch| && NoDup(ch) && Linked(fat0, contiguous, ch)
      requires forall i :: 0 <= i < k ==> ValidCluster(count, ch[i])
      requires Zeroed(Cropped(fat0, contiguous, ch, keep), fat2, contiguous, ch[keep..k])
      ensures SameOutside(fat0, fat2, ch)
      ensures contiguous ==> fat2 == fat0
      ensures Denotes(fat2, count, if keep == 0 then CLUSTER_FREE else ch[0], contiguous, ch[..keep])
    {
      forall c | c in ch[keep..k] ensures c in ch {}
      if keep > 0 {
        var kept := ch[..keep];
        assert ch[keep - 1] in ch;
        forall i | 0 <= i < keep ensures kept[i] !in ch[keep..k] {}
        forall i, j | 0 <= i && j == i + 1 && j < keep ensures kept[j] == Next(fat2, contiguous, kept[i]) {
          assert ch[j] == Next(fat0, contiguous, ch[i]);
        }
      }
    }

    // ---- grow_file ----

    /** Where the search for the first new cluster starts: after the last cluster, or anywhere for a file without
        any. */
    function LastOf(ch: seq<nat>): nat {
      if ch == [] then 1 else ch[|ch| - 1]
    }

    /** A grow that went as intended: the chain is ch0 + ext when the space sufficed, ch0 again when it did not. */
    ghost predicate Grown(node: Node, bits0: seq<bool>, fat0: seq<u32>, ch0: seq<nat>, ext: seq<nat>,
                          enough: bool, rc: int)
      requires Shape()
      reads chunk, fat, node
    {
      && SameOutside(fat0, fat[..], ch0 + ext)
      && (if enough then
            && rc == 0
            && Denotes(fat[..], count, node.startCluster, node.isContiguous, ch0 + ext)
            && node.Cursor(ch0 + ext)
            && Marked(bits0, Map(), ext, true)
          else
            && rc == -ENOSPC
            && Denotes(fat[..], count, node.startCluster, node.isContiguous, ch0)
            && node.Cursor(ch0)
            && Map() == bits0)
    }

    /** The bitmap when a lone backward growth runs out of space. The cluster before s stays claimed, and the one behind
        it is given back in its place although it was never the file's. */
    ghost function Unsettled(bits0: seq<bool>, s: nat): seq<bool>
      requires |bits0| == count && 3 <= s && ValidCluster(count, s)
    {
      var claimed := bits0[s - 3 := true];
      if ValidCluster(count, s + 1) then claimed[s + 1 - FIRST_DATA_CLUSTER := false] else claimed
    }

    /** What the written guard leaves behind in the lone backward case: the flag stays, the FAT is untouched,
        and the bit before the file's only cluster is set although no file can reach that cluster. */
    ghost predicate Misgrown(node: Node, bits0: seq<bool>, fat0: seq<u32>, ch0: seq<nat>, enough: bool, rc: int)
      requires Shape() && LoneBackward(bits0, ch0) && |bits0| == count
      reads chunk, fat, node
    {
      && fat[..] == fat0 && node.isContiguous && node.startCluster == ch0[0] && node.Cursor(ch0)
      && ValidCluster(count, ch0[0])
      && (if enough then rc == 0 && Map() == bits0[ch0[0] - 3 := true]
          else rc == -ENOSPC && Map() == Unsettled(bits0, ch0[0]))
    }

    ghost predicate LoneState(node: Node, bits0: seq<bool>, fat0: seq<u32>, ch0: seq<nat>, claimed: nat, previous: nat)
      requires Shape() && LoneBackward(bits0, ch0) && |bits0| == count
      reads chunk, fat, node
    {
      && fat[..] == fat0 && node.isContiguous && node.startCluster == ch0[0] && node.Cursor(ch0)
      && |ch0| == 1 && 3 <= ch0[0] && ValidCluster(count, ch0[0])
      && (if claimed == 0 then Map() == bits0 && previous == ch0[0]
          else claimed == 1 && Map() == bits0[ch0[0] - 3 := true] && previous == ch0[0] - 1)
    }

    lemma LoneScan(bits0: seq<bool>, s: nat, hint: nat)
      requires LoneBackward(bits0, [s]) && ValidCluster(|bits0|, s)
      ensures Scan(bits0, s + 1 - FIRST_DATA_CLUSTER) == s - 3
      ensures Scan(bits0[s - 3 := true], hint) == |bits0|
    {
      BackwardIffLone(bits0, [s]);
      ScanIsCircularFirstFit(bits0[s - 3 := true], hint);
    }

    lemma Terminated(fat1: seq<u32>, contiguous: bool, ch: seq<nat>)
      requires Shape() && |fat1| == fat.Length
      requires ch != [] && AllValid(count, ch) && NoDup(ch) && Linked(fat1, contiguous, ch)
      ensures var fat2 := if contiguous then fat1 else fat1[ch[|ch| - 1] := CLUSTER_END];
              Denotes(fat2, count, ch[0], contiguous, ch) && SameOutside(fat1, fat2, ch)
    {
      assert ch[|ch| - 1] in ch;
      forall i | 0 <= i < |ch| - 1 ensures ch[i] != ch[|ch| - 1] {}
    }

    lemma LoneClaimed(node: Node, bits0: seq<bool>, fat0: seq<u32>, ch0: seq<nat>, previous: nat)
      requires Shape() && |bits0| == count && LoneBackward(bits0, ch0) && LoneState(node, bits0, fat0, ch0, 1, previous)
      ensures |ch0| == 1 && 3 <= ch0[0] && ValidCluster(count, ch0[0]) && ValidCluster(count, previous)
      ensures fat[..] == fat0 && node.isContiguous && node.startCluster == ch0[0] && node.Cursor(ch0)
      ensures Map() == bits0[ch0[0] - 3 := true]
    {
      hide LoneBackward, Bits, Node.Cursor;
    }

    lemma LoneFinished(node: Node, bits0: seq<bool>, fat0: seq<u32>, ch0: seq<nat>)
      requires Shape() && |bits0| == count && LoneBackward(bits0, ch0) && |ch0| == 1 && 3 <= ch0[0]
               && ValidCluster(count, ch0[0])
      requires fat[..] == fat0 && node.isContiguous && node.startCluster == ch0[0] && node.Cursor(ch0)
      requires Map() == bits0[ch0[0] - 3 := true]
      ensures Misgrown(node, bits0, fat0, ch0, true, 0)
    {
      hide LoneBackward, Bits, Node.Cursor;
    }

    /** The last statement of grow_file: mark the end of the chain. */
    method FinishGrow(node: Node, previous: nat, ghost bits0: seq<bool>, ghost fat0: seq<u32>,
                      ghost ch0: seq<nat>, ghost ext: seq<nat>, ghost lone: bool)
      requires Shape() && |bits0| == count && previous >= 1
      requires !lone ==> Growing(node, bits0, fat0, ch0 + ext, ext) && previous == LastOf(ch0 + ext)
      requires lone ==> LoneBackward(bits0, ch0) && LoneState(node, bits0, fat0, ch0, 1, previous)
      modifies fat
      ensures !lone ==> Grown(node, bits0, fat0, ch0, ext, true, 0)
      ensures lone ==> Misgrown(node, bits0, fat0, ch0, true, 0)
    {
      hide Marked, Linked, SameOutside, Bits, AllSet, AllClear, NoDup, Denotes, AllValid, LoneBackward, LoneState,
           Misgrown,
           Map, Node.Cursor;
      ghost var fat1 := fat[..];
      if lone {
        LoneClaimed(node, bits0, fat0, ch0, previous);
      } else {
        LastValid(ch0 + ext);
        Terminated(fat1, node.isContiguous, ch0 + ext);
      }
      SetNextCluster(node.isContiguous, previous, CLUSTER_END);
      if lone {
        LoneFinished(node, bits0, fat0, ch0);
      } else {
        SameOutsideBoth(fat0, fat1, fat[..], ch0 + ext);
      }
    }

    /** The exit of grow_file when the search fails: give back what was claimed. In the lone backward case
        shrink_file frees the cluster after the file's only one instead. */
    method AbandonGrow(node: Node, current: nat, claimed: nat, ghost bits0: seq<bool>, ghost fat0: seq<u32>,
                       ghost ch0: seq<nat>, ghost ext: seq<nat>, ghost lone: bool, ghost previous: nat)
      requires Shape() && |bits0| == count && current == |ch0|
      requires !lone ==> claimed == |ext| && Growing(node, bits0, fat0, ch0 + ext, ext)
      requires !lone && ext == [] ==> Denotes(fat0, count, node.startCluster, node.isContiguous, ch0)
      requires lone ==> claimed == 1 && LoneBackward(bits0, ch0) && LoneState(node, bits0, fat0, ch0, 1, previous)
      modifies this`dirty, chunk, fat, node`fptrIndex, node`fptrCluster, node`startCluster, node`isDirty
      ensures !lone ==> Grown(node, bits0, fat0, ch0, ext, false, -ENOSPC)
      ensures lone ==> Misgrown(node, bits0, fat0, ch0, false, -ENOSPC)
    {
      hide Marked, SameOutside, Bits, AllSet, AllClear, Denotes, LoneBackward, IsChain, NoDup, AllValid, Linked,
           Released;
      ghost var bits1, fat1 := Map(), fat[..];
      ghost var ch := if lone then [ch0[0], ch0[0] + 1] else ch0 + ext;
      if lone {
        LoneShrinkable(node, ch0[0]);
      } else {
        OpenShrinkable(node, ch);
      }
      if claimed != 0 {
        var _ := ShrinkFile(node, current + claimed, claimed, ch);
        assert ch[..current] == ch0;
        if lone {
          WrongOneReleased(bits0, bits1, Map(), ch0[0]);
          ShapeOfChain(node, ch0);
        } else {
          assert ch[current..] == ext;
          ReleasedAll(ch, current);
          MarkUndo(bits0, bits1, Map(), ext);
          SameOutsideBoth(fat0, fat1, fat[..], ch);
        }
      } else {
        assert ch == ch0;
        NothingClaimed(bits0, bits1);
      }
    }

    lemma ShapeOfChain(node: Node, ch: seq<nat>)
      requires Shape() && Denotes(fat[..], count, node.startCluster, node.isContiguous, ch)
      ensures IsChain(fat[..], count, node.startCluster, node.isContiguous, ch) && NoDup(ch) && AllValid(count, ch)
      ensures Linked(fat[..], node.isContiguous, ch)
      ensures node.startCluster == if ch == [] then CLUSTER_FREE else ch[0]
      ensures ch != [] ==> node.startCluster >= FIRST_DATA_CLUSTER
    {}

    lemma OpenShrinkable(node: Node, ch: seq<nat>)
      requires Shape() && Open(node, ch)
      ensures IsChain(fat[..], count, node.startCluster, node.isContiguous, ch) && node.startCluster != CLUSTER_FREE
    {}

    lemma LoneShrinkable(node: Node, s: nat)
      requires Shape() && node.isContiguous && node.startCluster == s && ValidCluster(count, s)
      ensures IsChain(fat[..], count, s, true, [s, s + 1]) && NoDup([s, s + 1])
    {}

    lemma ReleasedAll(ch: seq<nat>, keep: nat)
      requires keep < |ch| && AllValid(count, ch)
      ensures Released(ch, keep) == ch[keep..]
    {}

    lemma WrongOneReleased(bits0: seq<bool>, bits1: seq<bool>, bits2: seq<bool>, s: nat)
      requires Shape() && s >= 3 && ValidCluster(count, s) && |bits0| == count && bits1 == bits0[s - 3 := true]
      requires Marked(bits1, bits2, Released([s, s + 1], 1), false)
      ensures bits2 == Unsettled(bits0, s)
    {
      assert Released([s, s + 1], 1) == if ValidCluster(count, s + 1) then [s + 1] else [];
    }

    lemma NothingClaimed(bits0: seq<bool>, bits1: seq<bool>)
      requires Marked(bits0, bits1, [], true)
      ensures bits1 == bits0
    {}


    /** One pass of grow_file's loop: search, then link what was found. */
    method SearchAndLink(node: Node, previous: nat, ghost ch: seq<nat>) returns (next: nat)
      requires Shape() && Open(node, ch) && AllSet(Map(), ch) && ValidCluster(count, previous)
      requires previous == LastOf(ch) || Scan(Map(), previous + 1 - FIRST_DATA_CLUSTER) == count
      modifies this`dirty, chunk, fat, node`isContiguous, node`isDirty
      ensures var r := Scan(old(Map()), previous + 1 - FIRST_DATA_CLUSTER);
              next == (if r == count then CLUSTER_END else r + FIRST_DATA_CLUSTER) &&
              Map() == (if r == count then old(Map()) else old(Map())[r := true])
      ensures !ValidCluster(count, next) || (old(node.isContiguous) && next == previous - 1) ==>
                fat[..] == old(fat[..]) && node.isContiguous == old(node.isContiguous)
      ensures ValidCluster(count, next) && !(old(node.isContiguous) && next == previous - 1) ==>
                Open(node, ch + [next]) && !node.isContiguous && SameOutside(old(fat[..]), fat[..], ch)
    {
      hide SameOutside, Bits, NoDup, Linked, Scan, AllSet, AllValid, Map;
      ClearNotMember(Map(), ch);
      next := AllocateCluster(previous + 1);
      if ValidCluster(count, next) {
        LinkCluster(node, previous, next, ch);
      }
    }

    lemma LastValid(ch: seq<nat>)
      requires ch != [] && AllValid(count, ch)
      ensures ValidCluster(count, LastOf(ch))
    {}

    lemma ClearNotMember(bits: seq<bool>, ch: seq<nat>)
      requires AllSet(bits, ch)
      ensures forall c :: c in ch ==> ValidCluster(|bits|, c) && bits[c - FIRST_DATA_CLUSTER]
    {}

    /** One turn of the loop, in both the ordinary and the lone backward case. */
    method GrowOnce(node: Node, previous: nat, ghost remaining: nat, ghost bits0: seq<bool>, ghost fat0: seq<u32>,
                    ghost ch: seq<nat>, ghost ext: seq<nat>, ghost lone: bool) returns (next: nat)
      requires Shape() && |bits0| == count && previous >= 1 && remaining > 0
      requires !lone ==> Growing(node, bits0, fat0, ch, ext) && previous == LastOf(ch)
      requires !lone && node.isContiguous ==> !StepsBack(Map(), previous)
      requires lone ==> LoneBackward(bits0, ch) && LoneState(node, bits0, fat0, ch, |ext|, previous)
      modifies this`dirty, chunk, fat, node`isContiguous, node`isDirty
      ensures !ValidCluster(count, next) ==>
                && node.isContiguous == old(node.isContiguous)
                && (!lone ==> Growing(node, bits0, fat0, ch, ext) && Extend(old(Map()), previous, remaining) == [])
                && (lone ==> |ext| == 1 && LoneState(node, bits0, fat0, ch, 1, previous))
      ensures ValidCluster(count, next) ==>
                && (!lone ==>
                      && Growing(node, bits0, fat0, ch + [next], ext + [next]) && !node.isContiguous
                      && Extend(old(Map()), previous, remaining) == [next] + Extend(Map(), next, remaining - 1))
                && (lone ==> |ext| == 0 && LoneState(node, bits0, fat0, ch, 1, next))
    {
      hide Bits, SameOutside, LoneBackward, Extend, Scan, Growing, LoneState, Open, Claimed, AllSet, Marked, AllClear,
           NoDup, Linked, AllValid, Node.Cursor, Map;
      ghost var bits1, fat1 := Map(), fat[..];
      ExtendUnfold(bits1, previous, remaining);
      if lone {
        LoneSearch(node, bits0, fat0, ch, |ext|, previous);
      } else {
        GrowingParts(node, bits0, fat0, ch, ext);
      }
      next := SearchAndLink(node, previous, ch);
      if lone {
        LoneAfter(node, bits0, bits1, fat0, ch, |ext|, previous, next);
      } else if ValidCluster(count, next) {
        GrowingAfter(node, bits0, bits1, fat0, fat1, ch, ext, next);
      } else {
        GrowingAgain(node, bits0, fat0, ch, ext);
      }
    }

    lemma GrowingParts(node: Node, bits0: seq<bool>, fat0: seq<u32>, ch: seq<nat>, ext: seq<nat>)
      requires Shape() && Growing(node, bits0, fat0, ch, ext)
      ensures Open(node, ch) && node.Cursor(ch) && AllSet(Map(), ch) && ch != [] && ValidCluster(count, LastOf(ch))
      ensures Claimed(bits0, Map(), ch, ext) && SameOutside(fat0, fat[..], ch) && (ext == [] ==> fat[..] == fat0)
    {}

    lemma GrowingAgain(node: Node, bits0: seq<bool>, fat0: seq<u32>, ch: seq<nat>, ext: seq<nat>)
      requires Shape() && Open(node, ch) && node.Cursor(ch)
      requires Claimed(bits0, Map(), ch, ext) && SameOutside(fat0, fat[..], ch) && (ext == [] ==> fat[..] == fat0)
      ensures Growing(node, bits0, fat0, ch, ext)
    {}

    lemma GrowingAfter(node: Node, bits0: seq<bool>, bits1: seq<bool>, fat0: seq<u32>, fat1: seq<u32>,
                       ch: seq<nat>, ext: seq<nat>, next: nat)
      requires Shape() && |bits1| == count && ValidCluster(count, next) && !bits1[next - FIRST_DATA_CLUSTER]
      requires ch != [] && node.Cursor(ch) && Open(node, ch + [next])
      requires Claimed(bits0, bits1, ch, ext) && Map() == bits1[next - FIRST_DATA_CLUSTER := true]
      requires SameOutside(fat0, fat1, ch) && SameOutside(fat1, fat[..], ch)
      ensures Growing(node, bits0, fat0, ch + [next], ext + [next])
    {
      hide Open, Claimed, SameOutside, Bits;
      ClaimOne(bits0, bits1, ch, ext, next);
      SameOutsideLonger(fat0, fat1, fat[..], ch, next);
    }

    lemma LoneAfter(node: Node, bits0: seq<bool>, bits1: seq<bool>, fat0: seq<u32>, ch: seq<nat>,
                    claimed: nat, previous: nat, next: nat)
      requires Shape() && |bits0| == count && LoneBackward(bits0, ch) && ValidCluster(count, ch[0])
      requires fat[..] == fat0 && node.isContiguous && node.startCluster == ch[0] && node.Cursor(ch)
      requires if claimed == 0 then bits1 == bits0 && previous == ch[0] && next == ch[0] - 1
               else claimed == 1 && bits1 == bits0[ch[0] - 3 := true] && previous == ch[0] - 1
      requires Map() == if claimed == 0 then bits1[ch[0] - 3 := true] else bits1
      ensures LoneState(node, bits0, fat0, ch, 1, if claimed == 0 then next else previous)
    {
      hide Bits;
    }

    lemma LoneSearch(node: Node, bits0: seq<bool>, fat0: seq<u32>, ch: seq<nat>, claimed: nat, previous: nat)
      requires Shape() && |bits0| == count && LoneBackward(bits0, ch)
               && LoneState(node, bits0, fat0, ch, claimed, previous)
      ensures Scan(Map(), previous + 1 - FIRST_DATA_CLUSTER) == if claimed == 0 then ch[0] - 3 else count
      ensures |ch| == 1 && ValidCluster(count, ch[0]) && ValidCluster(count, previous) && Open(node, ch)
              && AllSet(Map(), ch)
      ensures fat[..] == fat0 && node.isContiguous && node.startCluster == ch[0] && node.Cursor(ch)
      ensures if claimed == 0 then Map() == bits0 && previous == ch[0]
              else claimed == 1 && Map() == bits0[ch[0] - 3 := true] && previous == ch[0] - 1
    {
      hide Bits, Scan, Map;
      assert ch == [ch[0]];
      LoneScan(bits0, ch[0], previous + 1 - FIRST_DATA_CLUSTER);
    }

    /** The loop of grow_file and its two exits. */
    method GrowLoop(node: Node, current: nat, difference: nat, first: nat, done: nat,
                    ghost bits0: seq<bool>, ghost fat0: seq<u32>, ghost ch0: seq<nat>, ghost ext0: seq<nat>,
                    ghost lone: bool) returns (rc: int)
      requires Shape() && |bits0| == count && current == |ch0| && done == |ext0| <= difference && 0 < difference
      requires first >= 1 && |fat0| == fat.Length
      requires !lone ==> Growing(node, bits0, fat0, ch0 + ext0, ext0) && first == LastOf(ch0 + ext0)
      requires !lone && ext0 == [] ==> Denotes(fat0, count, node.startCluster, node.isContiguous, ch0)
      requires !lone && node.isContiguous ==> !StepsBack(Map(), first)
      requires lone ==> LoneBackward(bits0, ch0) && LoneState(node, bits0, fat0, ch0, 0, first) && done == 0
      modifies this`dirty, chunk, fat, node`fptrIndex, node`fptrCluster, node`startCluster, node`isContiguous,
               node`isDirty
      ensures !lone ==>
                var rest := Extend(old(Map()), first, difference - done);
                Grown(node, bits0, fat0, ch0, ext0 + rest, |rest| == difference - done, rc)
      ensures lone ==> Misgrown(node, bits0, fat0, ch0, difference == 1, rc)
      ensures !lone && rc == 0 ==> node.isContiguous == (old(node.isContiguous) && done == difference)
    {
      hide Growing, LoneState, LoneBackward, Extend, StepsBack, Denotes, Grown, Misgrown, Bits;
      ghost var target := ext0 + Extend(Map(), first, difference - done);
      var previous, claimed := first, done;
      ghost var ext := ext0;
      while claimed < difference
        invariant done <= claimed == |ext| <= difference && previous >= 1
        invariant !lone ==> Growing(node, bits0, fat0, ch0 + ext, ext)
        invariant !lone ==> previous == LastOf(ch0 + ext)
        invariant !lone ==> target == ext + Extend(Map(), previous, difference - claimed)
        invariant !lone && node.isContiguous ==> !StepsBack(Map(), previous)
        invariant |fat0| == fat.Length
        invariant !lone ==> node.isContiguous == (old(node.isContiguous) && done == claimed)
        invariant !lone && ext == [] ==> Denotes(fat0, count, node.startCluster, node.isContiguous, ch0)
        invariant lone ==> claimed <= 1 && LoneState(node, bits0, fat0, ch0, claimed, previous)
      {
        var next := GrowOnce(node, previous, difference - claimed, bits0, fat0, if lone then ch0 else ch0 + ext, ext,
            lone);
        if !ValidCluster(count, next) {
          assert !lone ==> target == ext;
          AbandonGrow(node, current, claimed, bits0, fat0, ch0, ext, lone, previous);
          return -ENOSPC;
        }
        assert ch0 + (ext + [next]) == (ch0 + ext) + [next];
        previous := next;
        claimed := claimed + 1;
        ext := ext + [next];
      }
      assert !lone ==> Extend(Map(), previous, 0) == [] && target == ext;
      FinishGrow(node, previous, bits0, fat0, ch0, ext, lone);
      rc := 0;
    }

    /** Appends `difference` clusters to a file, or gives back what it claimed when the space runs out. */
    method GrowFile(node: Node, current: nat, difference: nat, ghost ch0: seq<nat>) returns (rc: int)
      requires Shape() && 0 < difference && current == |ch0|
      requires Denotes(fat[..], count, node.startCluster, node.isContiguous, ch0) && node.Cursor(ch0)
      requires AllSet(Map(), ch0)
      modifies this`dirty, chunk, fat, node`fptrIndex, node`fptrCluster, node`startCluster, node`isContiguous,
               node`isDirty
      ensures var ext := Extend(old(Map()), LastOf(ch0), difference);
              !old(node.isContiguous && LoneBackward(Map(), ch0)) ==>
                Grown(node, old(Map()), old(fat[..]), ch0, ext, |ext| == difference, rc)
      ensures old(node.isContiguous && LoneBackward(Map(), ch0)) ==>
                Misgrown(node, old(Map()), old(fat[..]), ch0, difference == 1, rc)
      ensures !old(node.isContiguous && LoneBackward(Map(), ch0)) && rc == 0 ==>
                (node.isContiguous <==> ch0 == [] && difference == 1)
    {
      hide Marked, NoDup, Linked, SameOutside, Bits, AllValid, AllSet, AllClear, Extend, Denotes, IsChain,
           Growing, Grown, Misgrown;
      ShapeOfChain(node, ch0);
      if node.startCluster != CLUSTER_FREE {
        var previous := AdvanceCluster(node, current - 1, ch0);
        LastValid(ch0);
        rc := GrowExisting(node, current, difference, previous, ch0);
      } else {
        rc := GrowFresh(node, difference);
      }
    }

    /** grow_file for a file that has clusters. */
    method GrowExisting(node: Node, current: nat, difference: nat, previous: nat, ghost ch0: seq<nat>) returns (rc: int)
      requires Shape() && 0 < difference && current == |ch0| && ch0 != []
      requires Denotes(fat[..], count, node.startCluster, node.isContiguous, ch0) && node.Cursor(ch0)
      requires AllSet(Map(), ch0) && previous == LastOf(ch0) >= 1
      modifies this`dirty, chunk, fat, node`fptrIndex, node`fptrCluster, node`startCluster, node`isContiguous,
               node`isDirty
      ensures var ext := Extend(old(Map()), LastOf(ch0), difference);
              !old(node.isContiguous && LoneBackward(Map(), ch0)) ==>
                Grown(node, old(Map()), old(fat[..]), ch0, ext, |ext| == difference, rc)
      ensures old(node.isContiguous && LoneBackward(Map(), ch0)) ==>
                Misgrown(node, old(Map()), old(fat[..]), ch0, difference == 1, rc)
      ensures !old(node.isContiguous && LoneBackward(Map(), ch0)) && rc == 0 ==> !node.isContiguous
    {
      hide Marked, NoDup, SameOutside, Claimed, Bits, AllValid, AllSet, AllClear, Scan, Extend, Denotes,
           Growing, Grown, Misgrown, StepsBack, LoneBackward, LoneState, Linked;
      ghost var bits0, fat0 := Map(), fat[..];
      ghost var lone := node.isContiguous && LoneBackward(bits0, ch0);
      StartGrowing(node, bits0, ch0);
      if node.isContiguous && !lone {
        ShapeOfChain(node, ch0);
        StepsBackOnlyIfLone(bits0, fat0, ch0);
      }
      assert ch0 + [] == ch0;
      rc := GrowLoop(node, current, difference, previous, 0, bits0, fat0, ch0, [], lone);
      assert [] + Extend(bits0, previous, difference) == Extend(bits0, previous, difference);
    }

    /** grow_file for a file without clusters: it starts out contiguous, with its cursor on its first cluster. */
    method GrowFresh(node: Node, difference: nat) returns (rc: int)
      requires Shape() && 0 < difference
      requires node.Cursor([]) && node.startCluster == CLUSTER_FREE
      modifies this`dirty, chunk, fat, node`fptrIndex, node`fptrCluster, node`startCluster, node`isContiguous,
               node`isDirty
      ensures var ext := Extend(old(Map()), 1, difference);
              Grown(node, old(Map()), old(fat[..]), [], ext, |ext| == difference, rc)
      ensures rc == 0 ==> node.isContiguous == (difference == 1)
    {
      hide Marked, NoDup, SameOutside, Claimed, Bits, AllValid, AllSet, AllClear, Scan, Extend, Denotes,
           Growing, Grown, Misgrown, StepsBack, Linked, LoneBackward, LoneState;
      ghost var bits0, fat0 := Map(), fat[..];
      ExtendUnfold(bits0, 1, difference);
      ScanFromStart(bits0, HintIndex(CLUSTER_FREE));
      var previous := AllocateCluster(CLUSTER_FREE);
      if !ValidCluster(count, previous) {
        NothingChanged(node, bits0, fat0);
        return -ENOSPC;
      }
      node.fptrCluster := previous;
      node.startCluster := previous;
      node.isContiguous := true;
      StartFresh(node, bits0, previous);
      FreshNeverStepsBack(bits0, previous);
      assert [] + [previous] == [previous];
      rc := GrowLoop(node, 0, difference, previous, 1, bits0, fat0, [], [previous], false);
    }

    lemma NothingChanged(node: Node, bits0: seq<bool>, fat0: seq<u32>)
      requires Shape() && Map() == bits0 && fat[..] == fat0 && node.Cursor([]) && node.startCluster == CLUSTER_FREE
      ensures Grown(node, bits0, fat0, [], [], false, -ENOSPC)
    {}

    lemma StartGrowing(node: Node, bits0: seq<bool>, ch0: seq<nat>)
      requires Shape() && Map() == bits0 && ch0 != [] && AllSet(bits0, ch0) && node.Cursor(ch0)
      requires Denotes(fat[..], count, node.startCluster, node.isContiguous, ch0)
      ensures Growing(node, bits0, fat[..], ch0, [])
      ensures LoneBackward(bits0, ch0) && node.isContiguous ==> LoneState(node, bits0, fat[..], ch0, 0, LastOf(ch0))
    {
      hide Bits, Scan;
    }

    /** A contiguous chain that is set in the bitmap steps back only in the lone backward case. */
    lemma StepsBackOnlyIfLone(bits0: seq<bool>, fat0: seq<u32>, ch0: seq<nat>)
      requires ch0 != [] && AllSet(bits0, ch0) && Linked(fat0, true, ch0) && !LoneBackward(bits0, ch0)
      ensures LastOf(ch0) >= 1 && !StepsBack(bits0, LastOf(ch0))
    {
      hide Scan;
      if |ch0| == 1 {
        BackwardIffLone(bits0, ch0);
      } else {
        var k := |ch0| - 1;
        assert ch0[k] == Next(fat0, true, ch0[k - 1]);
        assert bits0[ch0[k - 1] - FIRST_DATA_CLUSTER];
      }
    }

    lemma StartFresh(node: Node, bits0: seq<bool>, first: nat)
      requires Shape() && |bits0| == count && ValidCluster(count, first) && !bits0[first - FIRST_DATA_CLUSTER]
      requires Map() == bits0[first - FIRST_DATA_CLUSTER := true]
      requires node.startCluster == node.fptrCluster == first && node.fptrIndex == 0 && node.isContiguous
      ensures Growing(node, bits0, fat[..], [first], [first])
    {
      hide Bits, Scan, Claimed;
      FirstClaim(bits0, first);
    }

    lemma FirstClaim(bits0: seq<bool>, first: nat)
      requires ValidCluster(|bits0|, first) && !bits0[first - FIRST_DATA_CLUSTER]
      ensures Claimed(bits0, bits0[first - FIRST_DATA_CLUSTER := true], [first], [first])
    {}

    /** A file's first cluster is the lowest free one, so its second is never the one just before. */
    lemma FreshNeverStepsBack(bits0: seq<bool>, first: nat)
      requires Scan(bits0, 0) < |bits0| && first == Scan(bits0, 0) + FIRST_DATA_CLUSTER
      ensures !StepsBack(bits0[first - FIRST_DATA_CLUSTER := true], first)
    {
      FreshNeverBackward(bits0);
    }

    // ---- erase_range ----

    /** A device write of zeros into the cluster heap. */
    method EraseRaw(size: nat, offset: nat)
      requires offset + size <= heap.Length
      modifies heap
      ensures heap[..] == Splice(old(heap[..]), offset, Zeros(size))
    {
      forall i | 0 <= i < size {
        heap[offset + i] := 0;
      }
    }

    ghost function FileView(ch: seq<nat>): (v: seq<byte>)
      requires HeapShape() && AllValid(count, ch)
      reads heap
      ensures |v| == |ch| * clusterSize
    {
      View(heap[..], clusterSize, count, ch)
    }

    /** Zero bytes inside cluster k of a chain: the file changes there and no disjoint chain changes. */
    method EraseInCluster(ghost k: nat, cluster: nat, lo: nat, size: nat, ghost ch: seq<nat>)
      requires HeapShape() && AllValid(count, ch) && NoDup(ch) && k < |ch| && cluster == ch[k]
               && lo + size <= clusterSize
      modifies heap
      ensures k * clusterSize + lo + size <= |ch| * clusterSize
      ensures FileView(ch) == Splice(old(FileView(ch)), k * clusterSize + lo, Zeros(size))
      ensures Undisturbed(old(heap[..]), heap[..], ch)
    {
      ghost var heap0 := heap[..];
      OffsetFits(clusterSize, count, cluster);
      MulGap(k, |ch|, clusterSize);
      ViewWrite(heap0, clusterSize, count, ch, k, lo, Zeros(size));
      EraseRaw(size, (cluster - FIRST_DATA_CLUSTER) * clusterSize + lo);
      ClusterUndisturbed(heap0, cluster, lo, Zeros(size), ch);
    }

    /** No file whose chain is disjoint from ch sees a difference between the two heaps. */
    ghost predicate Undisturbed(heap0: seq<byte>, heap1: seq<byte>, ch: seq<nat>)
      requires HeapShape()
    {
      |heap0| == |heap1| == heap.Length &&
      forall other :: AllValid(count, other) && (forall c :: c in other ==> c !in ch) ==>
        View(heap1, clusterSize, count, other) == View(heap0, clusterSize, count, other)
    }

    lemma ClusterUndisturbed(heap0: seq<byte>, c: nat, lo: nat, data: seq<byte>, ch: seq<nat>)
      requires HeapShape() && |heap0| == heap.Length && c in ch && ValidCluster(count, c) && lo + |data| <= clusterSize
      ensures Offset(clusterSize, c) + clusterSize <= heap.Length
      ensures Undisturbed(heap0, Splice(heap0, Offset(clusterSize, c) + lo, data), ch)
    {
      OffsetFits(clusterSize, count, c);
      var heap1 := Splice(heap0, Offset(clusterSize, c) + lo, data);
      forall other | AllValid(count, other) && (forall d :: d in other ==> d !in ch)
        ensures View(heap1, clusterSize, count, other) == View(heap0, clusterSize, count, other)
      {
        ViewElsewhere(heap0, clusterSize, count, c, lo, data, other);
      }
    }

    lemma UndisturbedTwice(heap0: seq<byte>, heap1: seq<byte>, heap2: seq<byte>, ch: seq<nat>)
      requires HeapShape() && Undisturbed(heap0, heap1, ch) && Undisturbed(heap1, heap2, ch)
      ensures Undisturbed(heap0, heap2, ch)
    {}

    /** exfat_bug ends the process; here it is a result no successful call returns. */
    const ABORTED: int := 1

    /** v1 is v0 with zeros from begin to end; what lies past end may have been cleared too. */
    ghost predicate Erased(v0: seq<byte>, v1: seq<byte>, begin: nat, end: nat) {
      && |v1| == |v0|
      && (forall i :: 0 <= i < begin && i < |v0| ==> v1[i] == v0[i])
      && (forall i :: begin <= i < end && i < |v0| ==> v1[i] == 0)
    }

    /** The chain without a last link that is out of range. */
    ghost function ValidPart(ch: seq<nat>): seq<nat> {
      if AllValid(count, ch) || ch == [] then ch else ch[..|ch| - 1]
    }

    lemma ValidPartIsValid(ch: seq<nat>)
      requires forall i :: 0 <= i < |ch| - 1 ==> ValidCluster(count, ch[i])
      ensures AllValid(count, ValidPart(ch))
      ensures NoDup(ch) ==> NoDup(ValidPart(ch))
      ensures forall i :: 0 <= i < |ch| && ValidCluster(count, ch[i]) ==>
              i < |ValidPart(ch)| && ValidPart(ch)[i] == ch[i]
      ensures forall i :: 0 <= i < |ch| && !ValidCluster(count, ch[i]) ==> !AllValid(count, ch)
    {}

    lemma EraseMore(v0: seq<byte>, v1: seq<byte>, begin: nat, at: nat, size: nat, end: nat)
      requires at + size <= |v1| && Erased(v0, v1, begin, at) && begin <= at && end <= at + size
      ensures Erased(v0, Splice(v1, at, Zeros(size)), begin, end)
    {}

    /** Zeroes the bytes [begin, end) of a file and the rest of the last cluster touched. */
    method EraseRange(node: Node, begin: nat, end: nat, ghost ch: seq<nat>) returns (rc: int)
      requires HeapShape() && clusterSize == Pow2(clusterBits)
      requires IsChain(fat[..], count, node.startCluster, node.isContiguous, ch) && NoDup(ch)
      requires ch != [] && node.Cursor(ch) && begin < end <= |ch| * clusterSize
      modifies heap, node`fptrIndex, node`fptrCluster
      ensures AllValid(count, ch) ==>
                && rc == 0 && node.Cursor(ch)
                && Undisturbed(old(heap[..]), heap[..], ch)
                && Erased(old(FileView(ch)), FileView(ch), begin, end)
      ensures Undisturbed(old(heap[..]), heap[..], ValidPart(ch))
      ensures !AllValid(count, ch) && |ch| * clusterSize < end + clusterSize ==> rc == -EIO || rc == ABORTED
    {
      hide Undisturbed, NoDup, AllValid, View, Splice, BitOr, Pow2, Erased;
      ghost var heap0, valid, k := heap[..], ValidPart(ch), begin / clusterSize;
      ValidPartIsValid(ch);
      DivBelow(begin, |ch|, clusterSize);
      DivMod(begin, clusterSize);
      OrLowMask(begin, clusterBits);
      var boundary := BitOr(begin, clusterSize - 1) + 1;
      var cluster := AdvanceCluster(node, begin / clusterSize, ch);
      NothingDisturbed(heap0, valid);
      if !ValidCluster(count, cluster) {
        return -EIO;
      }
      ghost var v0 := FileView(valid);
      NothingErased(v0, begin);
      var size := (if boundary < end then boundary else end) - begin;
      EraseInCluster(k, cluster, begin % clusterSize, size, valid);
      EraseMore(v0, v0, begin, begin, size, begin + size);
      rc := EraseWhole(node, cluster, boundary, end, ch, k, begin, heap0);
    }

    /** One turn of erase_range's loop: the next cluster of the file, if there is one, reads zero. */
    method EraseNext(node: Node, cluster: nat, boundary: nat, end: nat, ghost ch: seq<nat>, ghost k: nat,
        ghost begin: nat,
                     ghost heap0: seq<byte>) returns (next: nat)
      requires HeapShape() && |heap0| == heap.Length
      requires IsChain(fat[..], count, node.startCluster, node.isContiguous, ch) && NoDup(ch)
      requires AllValid(count, ValidPart(ch)) && NoDup(ValidPart(ch))
      requires k < |ch| && cluster == ch[k] && ValidCluster(count, cluster)
      requires boundary == k * clusterSize + clusterSize && begin <= boundary < end <= |ch| * clusterSize
      requires Undisturbed(heap0, heap[..], ValidPart(ch))
      requires Erased(View(heap0, clusterSize, count, ValidPart(ch)), FileView(ValidPart(ch)), begin, boundary)
      modifies heap
      ensures k + 1 < |ch| && next == ch[k + 1] && Undisturbed(heap0, heap[..], ValidPart(ch))
      ensures ValidCluster(count, next) ==>
                Erased(View(heap0, clusterSize, count, ValidPart(ch)), FileView(ValidPart(ch)), begin,
                       Min(boundary + clusterSize, end))
    {
      hide Undisturbed, NoDup, AllValid, View, Splice, Erased, Linked;
      ghost var valid := ValidPart(ch);
      ValidPartIsValid(ch);
      MulGap(|ch|, k + 1, clusterSize);
      OneMore(k, clusterSize);
      LinkedAt(fat[..], node.isContiguous, ch, k);
      next := NextCluster(node, cluster);
      if ValidCluster(count, next) {
        ghost var heap1, v0, v1 := heap[..], View(heap0, clusterSize, count, valid), FileView(valid);
        EraseInCluster(k + 1, next, 0, clusterSize, valid);
        UndisturbedTwice(heap0, heap1, heap[..], valid);
        EraseMore(v0, v1, begin, boundary, clusterSize, Min(boundary + clusterSize, end));
      }
    }

    /** The loop of erase_range: whole clusters up to end. */
    method EraseWhole(node: Node, first: nat, from: nat, end: nat, ghost ch: seq<nat>, ghost k0: nat, ghost begin: nat,
                      ghost heap0: seq<byte>) returns (rc: int)
      requires HeapShape() && |heap0| == heap.Length
      requires IsChain(fat[..], count, node.startCluster, node.isContiguous, ch) && NoDup(ch)
      requires AllValid(count, ValidPart(ch)) && NoDup(ValidPart(ch))
      requires k0 < |ch| && first == ch[k0] && ValidCluster(count, first)
      requires from == k0 * clusterSize + clusterSize && begin <= from && end <= |ch| * clusterSize
      requires Undisturbed(heap0, heap[..], ValidPart(ch))
      requires Erased(View(heap0, clusterSize, count, ValidPart(ch)), FileView(ValidPart(ch)), begin, Min(from, end))
      modifies heap
      ensures AllValid(count, ch) ==>
                && rc == 0
                && Undisturbed(heap0, heap[..], ch)
                && Erased(View(heap0, clusterSize, count, ch), FileView(ch), begin, end)
      ensures Undisturbed(heap0, heap[..], ValidPart(ch))
      ensures !AllValid(count, ch) && |ch| * clusterSize < end + clusterSize ==> rc == ABORTED
    {
      hide Undisturbed, NoDup, AllValid, View, Splice, Erased, Linked;
      ValidPartIsValid(ch);
      ghost var k := k0;
      var cluster, boundary := first, from;
      while boundary < end
        invariant k0 <= k < |ch| && boundary == k * clusterSize + clusterSize && begin <= boundary
        invariant cluster == ch[k] && ValidCluster(count, cluster)
        invariant Undisturbed(heap0, heap[..], ValidPart(ch))
        invariant Erased(View(heap0, clusterSize, count, ValidPart(ch)), FileView(ValidPart(ch)), begin,
                  Min(boundary, end))
      {
        cluster := EraseNext(node, cluster, boundary, end, ch, k, begin, heap0);
        if !ValidCluster(count, cluster) {
          return ABORTED;
        }
        OneMore(k, clusterSize);
        k := k + 1;
        boundary := boundary + clusterSize;
      }
      if k + 1 < |ch| {
        OneMore(k, clusterSize);
        OneMore(k + 1, clusterSize);
        MulGap(k + 2, |ch|, clusterSize);
      }
      rc := 0;
    }

    lemma LinkedAt(fat1: seq<u32>, contiguous: bool, ch: seq<nat>, k: nat)
      requires Linked(fat1, contiguous, ch) && k + 1 < |ch|
      ensures ch[k + 1] == Next(fat1, contiguous, ch[k])
    {}

    lemma ChainAt(ch: seq<nat>, k: nat)
      requires AllValid(count, ch) && k < |ch|
      ensures ValidCluster(count, ch[k])
    {}

    lemma NothingDisturbed(heap0: seq<byte>, ch: seq<nat>)
      requires HeapShape() && |heap0| == heap.Length
      ensures Undisturbed(heap0, heap0, ch)
    {}

    lemma NothingErased(v: seq<byte>, begin: nat)
      ensures Erased(v, v, begin, begin)
    {}
  }
}
