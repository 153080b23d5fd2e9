/** Cluster chains, their two encodings (FAT links and the "contiguous" flag), and who owns which cluster. */
module Chains {
  import opened Bitmap

  type u32 = x: int | 0 <= x < 0x1_0000_0000

  const FIRST_DATA_CLUSTER: nat := 2
  const LAST_DATA_CLUSTER: nat := 0xfffffff6
  const CLUSTER_FREE: u32 := 0
  const CLUSTER_BAD: u32 := 0xfffffff7
  const CLUSTER_END: u32 := 0xffffffff

  /** !CLUSTER_INVALID(sb, c), for a volume of count data clusters. */
  predicate ValidCluster(count: nat, c: int) {
    FIRST_DATA_CLUSTER <= c < FIRST_DATA_CLUSTER + count
  }

  /** exfat_next_cluster: the cluster after c under either encoding. */
  function Next(fat: seq<u32>, contiguous: bool, c: nat): nat {
    if contiguous then c + 1 else if c < |fat| then fat[c] else CLUSTER_BAD
  }

  /** The first n clusters met when walking from c. */
  function Walk(fat: seq<u32>, contiguous: bool, c: nat, n: nat): (ch: seq<nat>)
    ensures |ch| == n
    decreases n
  {
    if n == 0 then [] else [c] + Walk(fat, contiguous, Next(fat, contiguous, c), n - 1)
  }

  ghost predicate Linked(fat: seq<u32>, contiguous: bool, ch: seq<nat>) {
    forall i, j :: 0 <= i && j == i + 1 && j < |ch| ==> ch[j] == Next(fat, contiguous, ch[i])
  }

  ghost predicate AllValid(count: nat, ch: seq<nat>) {
    forall i :: 0 <= i < |ch| ==> ValidCluster(count, ch[i])
  }

  ghost predicate NoDup(ch: seq<nat>) {
    forall i, j :: 0 <= i < j < |ch| ==> ch[i] != ch[j]
  }

  /** ch is what the walk from start meets. Every cluster but perhaps the last is in range:
      this much also holds of the chain of a damaged file, up to the first bad link. */
  ghost predicate IsChain(fat: seq<u32>, count: nat, start: nat, contiguous: bool, ch: seq<nat>) {
    && (ch != [] ==> ch[0] == start)
    && (forall i :: 0 <= i < |ch| - 1 ==> ValidCluster(count, ch[i]))
    && Linked(fat, contiguous, ch)
  }

  /** The encoding (start, contiguous, FAT) denotes exactly the chain ch, acyclic, in range and terminated. */
  ghost predicate Denotes(fat: seq<u32>, count: nat, start: nat, contiguous: bool, ch: seq<nat>)
    requires |fat| >= FIRST_DATA_CLUSTER + count
  {
    && AllValid(count, ch)
    && NoDup(ch)
    && Linked(fat, contiguous, ch)
    && (if ch == [] then start == CLUSTER_FREE
        else ch[0] == start && (!contiguous ==> fat[ch[|ch| - 1]] == CLUSTER_END))
  }

  /** A chain is determined by its encoding and its length. */
  lemma {:induction false} LinkedIsWalk(fat: seq<u32>, contiguous: bool, ch: seq<nat>)
    requires Linked(fat, contiguous, ch) && ch != []
    ensures ch == Walk(fat, contiguous, ch[0], |ch|)
  {
    if |ch| > 1 {
      assert ch[1] == Next(fat, contiguous, ch[0]);
      LinkedIsWalk(fat, contiguous, ch[1..]);
    }
  }

  lemma {:induction false} WalkIsLinked(fat: seq<u32>, contiguous: bool, c: nat, n: nat)
    ensures Linked(fat, contiguous, Walk(fat, contiguous, c, n))
    ensures n > 0 ==> Walk(fat, contiguous, c, n)[0] == c
    decreases n
  {
    if n > 1 {
      WalkIsLinked(fat, contiguous, Next(fat, contiguous, c), n - 1);
      var w, tail := Walk(fat, contiguous, c, n), Walk(fat, contiguous, Next(fat, contiguous, c), n - 1);
      forall i, j | 0 <= i && j == i + 1 && j < |w| ensures w[j] == Next(fat, contiguous, w[i]) {
        if i > 0 { assert w[i] == tail[i - 1] && w[j] == tail[j - 1]; }
      }
    }
  }

  /** fat' differs from fat at most at the clusters of ch. */
  ghost predicate SameOutside(fat: seq<u32>, fat': seq<u32>, ch: seq<nat>) {
    |fat'| == |fat| && forall c :: 0 <= c < |fat| && c !in ch ==> fat'[c] == fat[c]
  }

  /** bits' is bits with every cluster of ch set to b. */
  ghost predicate Marked(bits: seq<bool>, bits': seq<bool>, ch: seq<nat>, b: bool) {
    |bits'| == |bits| &&
    forall i :: 0 <= i < |bits| ==> bits'[i] == if i + FIRST_DATA_CLUSTER in ch then b else bits[i]
  }

  lemma MarkOne(bits: seq<bool>, bits': seq<bool>, ch: seq<nat>, c: nat, b: bool)
    requires Marked(bits, bits', ch, b) && ValidCluster(|bits|, c)
    ensures Marked(bits, bits'[c - FIRST_DATA_CLUSTER := b], ch + [c], b)
  {}

  ghost predicate AllSet(bits: seq<bool>, ch: seq<nat>) {
    forall i :: 0 <= i < |ch| ==> ValidCluster(|bits|, ch[i]) && bits[ch[i] - FIRST_DATA_CLUSTER]
  }

  ghost predicate AllClear(bits: seq<bool>, ch: seq<nat>) {
    forall i :: 0 <= i < |ch| ==> ValidCluster(|bits|, ch[i]) && !bits[ch[i] - FIRST_DATA_CLUSTER]
  }

  /** From bits0, exactly the clusters of ext have been claimed, which completes the chain ch. */
  ghost predicate Claimed(bits0: seq<bool>, bits: seq<bool>, ch: seq<nat>, ext: seq<nat>) {
    Marked(bits0, bits, ext, true) && AllClear(bits0, ext) && AllSet(bits, ch)
  }

  lemma ClaimOne(bits0: seq<bool>, bits: seq<bool>, ch: seq<nat>, ext: seq<nat>, c: nat)
    requires Claimed(bits0, bits, ch, ext) && ValidCluster(|bits|, c) && !bits[c - FIRST_DATA_CLUSTER]
    ensures Claimed(bits0, bits[c - FIRST_DATA_CLUSTER := true], ch + [c], ext + [c])
    ensures c !in ch
  {
    MarkOne(bits0, bits, ext, c, true);
  }

  lemma SameOutsideLonger(fat0: seq<u32>, fat1: seq<u32>, fat2: seq<u32>, ch: seq<nat>, c: nat)
    requires SameOutside(fat0, fat1, ch) && SameOutside(fat1, fat2, ch)
    ensures SameOutside(fat0, fat2, ch + [c])
  {}

  lemma SameOutsideBoth(fat0: seq<u32>, fat1: seq<u32>, fat2: seq<u32>, ch: seq<nat>)
    requires SameOutside(fat0, fat1, ch) && SameOutside(fat1, fat2, ch)
    ensures SameOutside(fat0, fat2, ch)
  {}

  lemma MarkUndo(bits: seq<bool>, bits': seq<bool>, bits'': seq<bool>, ch: seq<nat>)
    requires AllClear(bits, ch)
    requires Marked(bits, bits', ch, true) && Marked(bits', bits'', ch, false)
    ensures bits'' == bits
  {}

  lemma DenotesElsewhere(fat: seq<u32>, fat': seq<u32>, count: nat, start: nat, contiguous: bool, ch: seq<nat>,
                         touched: seq<nat>)
    requires |fat| >= FIRST_DATA_CLUSTER + count
    requires Denotes(fat, count, start, contiguous, ch)
    requires SameOutside(fat, fat', touched)
    requires forall c :: c in ch ==> c !in touched
    ensures Denotes(fat', count, start, contiguous, ch)
  {
    forall i, j | 0 <= i && j == i + 1 && j < |ch| ensures ch[j] == Next(fat', contiguous, ch[i]) {
      assert ch[j] == Next(fat, contiguous, ch[i]);
      assert ch[i] in ch;
    }
    if ch != [] { assert ch[|ch| - 1] in ch; }
  }

  // ---- Ownership ----

  /** Chains are acyclic, in range and pairwise disjoint, and a bit is set exactly when
      its cluster belongs to a chain or is reserved (bitmap, upper-case table). */
  ghost predicate Exclusive<F>(count: nat, bits: seq<bool>, reserved: set<nat>, chains: map<F, seq<nat>>) {
    && |bits| == count
    && (forall f :: f in chains ==> AllValid(count, chains[f]) && NoDup(chains[f]))
    && (forall f, c :: f in chains && c in chains[f] ==> c !in reserved)
    && (forall f, g, c :: f in chains && g in chains && c in chains[f] && c in chains[g] ==> f == g)
    && (forall i :: 0 <= i < count ==> (bits[i] <==> Owned(reserved, chains, i + FIRST_DATA_CLUSTER)))
  }

  ghost predicate Owned<F>(reserved: set<nat>, chains: map<F, seq<nat>>, c: nat) {
    c in reserved || exists f :: f in chains && c in chains[f]
  }

  lemma ChainBitsSet<F>(count: nat, bits: seq<bool>, reserved: set<nat>, chains: map<F, seq<nat>>, f: F)
    requires Exclusive(count, bits, reserved, chains) && f in chains
    ensures forall c :: c in chains[f] ==> ValidCluster(count, c) && bits[c - FIRST_DATA_CLUSTER]
  {
    forall c | c in chains[f] ensures ValidCluster(count, c) && bits[c - FIRST_DATA_CLUSTER] {
      assert Owned(reserved, chains, c);
      var k :| 0 <= k < |chains[f]| && chains[f][k] == c;
    }
  }

  /** Claiming free clusters for the end of one chain keeps every cluster singly owned. */
  lemma ExclusiveGrow<F>(count: nat, bits: seq<bool>, bits': seq<bool>, reserved: set<nat>,
                         chains: map<F, seq<nat>>, f: F, ext: seq<nat>)
    requires Exclusive(count, bits, reserved, chains) && f in chains
    requires AllClear(bits, ext) && NoDup(ext)
    requires Marked(bits, bits', ext, true)
    ensures Exclusive(count, bits', reserved, chains[f := chains[f] + ext])
  {
    var chains' := chains[f := chains[f] + ext];
    forall c | c in ext ensures !Owned(reserved, chains, c) {
      var k :| 0 <= k < |ext| && ext[k] == c;
      assert !bits[ext[k] - FIRST_DATA_CLUSTER];
    }
    forall i, j | 0 <= i < j < |chains'[f]| ensures chains'[f][i] != chains'[f][j] {
      if i < |chains[f]| <= j {
        assert chains'[f][i] in chains[f] && chains'[f][j] in ext;
        assert Owned(reserved, chains, chains'[f][i]);
      }
    }
    forall g, h, c | g in chains' && h in chains' && c in chains'[g] && c in chains'[h] ensures g == h {
      if c in ext { assert !Owned(reserved, chains, c); }
    }
    forall i | 0 <= i < count
      ensures bits'[i] <==> Owned(reserved, chains', i + FIRST_DATA_CLUSTER)
    {
      var c := i + FIRST_DATA_CLUSTER;
      if c in ext {
        assert c in chains'[f];
      } else if Owned(reserved, chains, c) && c !in reserved {
        var g :| g in chains && c in chains[g];
        assert c in chains'[g];
      }
    }
  }

  /** Releasing the end of one chain keeps every cluster singly owned. */
  lemma ExclusiveShrink<F>(count: nat, bits: seq<bool>, bits': seq<bool>, reserved: set<nat>,
                           chains: map<F, seq<nat>>, f: F, keep: nat)
    requires Exclusive(count, bits, reserved, chains) && f in chains && keep <= |chains[f]|
    requires Marked(bits, bits', chains[f][keep..], false)
    ensures Exclusive(count, bits', reserved, chains[f := chains[f][..keep]])
  {
    var ch := chains[f];
    var chains' := chains[f := ch[..keep]];
    assert forall g, c :: g in chains' && c in chains'[g] ==> c in chains[g];
    forall c | c in ch[keep..] ensures c in ch && c !in ch[..keep] {
      var k :| keep <= k < |ch| && ch[k] == c;
      assert c in ch;
    }
    forall i | 0 <= i < count
      ensures bits'[i] <==> Owned(reserved, chains', i + FIRST_DATA_CLUSTER)
    {
      var c := i + FIRST_DATA_CLUSTER;
      if c in ch[keep..] {
        assert !Owned(reserved, chains', c);
      } else if Owned(reserved, chains, c) && c !in reserved {
        var g :| g in chains && c in chains[g];
        if g == f { ShrunkMember(ch, keep, c); }
        assert c in chains'[g];
      }
    }
  }

  lemma ShrunkMember(ch: seq<nat>, keep: nat, c: nat)
    requires keep <= |ch| && c in ch && c !in ch[keep..]
    ensures c in ch[..keep]
  {
    assert ch == ch[..keep] + ch[keep..];
  }

  // ---- Choosing a free cluster ----

  /** allocate_cluster's choice: the index of the claimed bit, |bits| when every bit is set. */
  function Scan(bits: seq<bool>, hint: nat): (r: nat)
    ensures r <= |bits|
    ensures r < |bits| ==> !bits[r]
  {
    var h := if hint < |bits| then hint else 0;
    var r := FirstClear(bits, h, |bits|);
    if r < |bits| then r
    else
      var r0 := FirstClear(bits, 0, h);
      if r0 < h then r0 else |bits|
  }

  /** The choice is the first clear bit going round the bitmap from the hint, and none is reported only when it is
      full. */
  lemma ScanIsCircularFirstFit(bits: seq<bool>, hint: nat)
    ensures Scan(bits, hint) == |bits| <==> forall i :: 0 <= i < |bits| ==> bits[i]
    ensures var r := Scan(bits, hint);
            var h := if hint < |bits| then hint else 0;
            r < |bits| ==>
              forall i :: 0 <= i < |bits| && (if h <= r then h <= i < r else i >= h || i < r) ==> bits[i]
  {
    var r := Scan(bits, hint);
    if r < |bits| { assert !bits[r]; }
  }

  lemma ScanFromStart(bits: seq<bool>, hint: nat)
    requires hint >= |bits|
    ensures Scan(bits, hint) == Scan(bits, 0)
  {}

  /** The clusters a file claims one after another, each next search starting just after the last claim.
      Shorter than n exactly when the volume fills up. A file without clusters starts from prev == 1. */
  function Extend(bits: seq<bool>, prev: nat, n: nat): (ext: seq<nat>)
    requires prev >= 1
    ensures |ext| <= n
    decreases n
  {
    if n == 0 then []
    else
      var r := Scan(bits, prev + 1 - FIRST_DATA_CLUSTER);
      if r == |bits| then []
      else [r + FIRST_DATA_CLUSTER] + Extend(bits[r := true], r + FIRST_DATA_CLUSTER, n - 1)
  }

  lemma ExtendUnfold(bits: seq<bool>, prev: nat, n: nat)
    requires prev >= 1 && n > 0
    ensures var r := Scan(bits, prev + 1 - FIRST_DATA_CLUSTER);
            Extend(bits, prev, n) ==
            if r == |bits| then []
            else [r + FIRST_DATA_CLUSTER] + Extend(bits[r := true], r + FIRST_DATA_CLUSTER, n - 1)
  {}

  lemma {:induction false} ExtendClaimsFree(bits: seq<bool>, prev: nat, n: nat)
    requires prev >= 1
    ensures AllClear(bits, Extend(bits, prev, n)) && NoDup(Extend(bits, prev, n))
    decreases n
  {
    hide Scan, AllClear, NoDup;
    var r := Scan(bits, prev + 1 - FIRST_DATA_CLUSTER);
    if n > 0 && r < |bits| {
      var tail := Extend(bits[r := true], r + FIRST_DATA_CLUSTER, n - 1);
      ExtendClaimsFree(bits[r := true], r + FIRST_DATA_CLUSTER, n - 1);
      PrependClaim(bits, r, tail);
    } else {
      NoClaim(bits);
    }
  }

  lemma NoClaim(bits: seq<bool>)
    ensures AllClear(bits, []) && NoDup([])
  {}

  lemma PrependClaim(bits: seq<bool>, r: nat, tail: seq<nat>)
    requires r < |bits| && !bits[r] && AllClear(bits[r := true], tail) && NoDup(tail)
    ensures AllClear(bits, [r + FIRST_DATA_CLUSTER] + tail) && NoDup([r + FIRST_DATA_CLUSTER] + tail)
  {
    var ext := [r + FIRST_DATA_CLUSTER] + tail;
    forall i | 0 < i < |ext|
      ensures ValidCluster(|bits|, ext[i]) && !bits[ext[i] - FIRST_DATA_CLUSTER] && ext[i] != ext[0] {
      assert ext[i] == tail[i - 1];
    }
    forall i, j | 0 <= i < j < |ext| ensures ext[i] != ext[j] {
      if i > 0 { assert ext[i] == tail[i - 1] && ext[j] == tail[j - 1]; }
    }
  }

  lemma {:induction false} ExtendLength(bits: seq<bool>, prev: nat, n: nat)
    requires prev >= 1
    ensures |Extend(bits, prev, n)| == if CountClear(bits) < n then CountClear(bits) else n
    decreases n
  {
    hide Scan, CountClear;
    var r := Scan(bits, prev + 1 - FIRST_DATA_CLUSTER);
    ScanIsCircularFirstFit(bits, prev + 1 - FIRST_DATA_CLUSTER);
    CountClearZero(bits);
    if n > 0 && r < |bits| {
      CountClearUpdate(bits, r, true);
      ExtendLength(bits[r := true], r + FIRST_DATA_CLUSTER, n - 1);
    }
  }

  /** Free clusters are conserved: marking k clear clusters takes k off the free count, and back. */
  lemma {:induction false} CountClearMarked(bits: seq<bool>, bits': seq<bool>, ch: seq<nat>, b: bool)
    requires AllValid(|bits|, ch) && NoDup(ch)
    requires forall i :: 0 <= i < |ch| ==> bits[ch[i] - FIRST_DATA_CLUSTER] != b
    requires Marked(bits, bits', ch, b)
    ensures CountClear(bits') == if b then CountClear(bits) - |ch| else CountClear(bits) + |ch|
    decreases |ch|
  {
    if ch == [] {
      assert bits' == bits;
    } else {
      var c := ch[0] - FIRST_DATA_CLUSTER;
      CountClearUpdate(bits, c, b);
      var tail := ch[1..];
      assert forall i :: 0 <= i < |tail| ==> tail[i] == ch[i + 1];
      assert forall x :: x in ch <==> x == ch[0] || x in tail;
      CountClearMarked(bits[c := b], bits', tail, b);
    }
  }

  // ---- The contiguity guard of grow_file ----

  /** The one situation in which the written guard (next != previous - 1) goes wrong: a one-cluster contiguous
      file grows while the only free cluster of the volume is the one just before it. */
  predicate LoneBackward(bits: seq<bool>, ch: seq<nat>) {
    && |ch| == 1
    && 3 <= ch[0] && ch[0] - 3 < |bits|
    && !bits[ch[0] - 3]
    && forall i :: 0 <= i < |bits| && i != ch[0] - 3 ==> bits[i]
  }

  /** Growing a one-cluster file steps backwards exactly in that situation. */
  lemma BackwardIffLone(bits: seq<bool>, ch: seq<nat>)
    requires |ch| == 1 && ValidCluster(|bits|, ch[0]) && bits[ch[0] - FIRST_DATA_CLUSTER]
    ensures Scan(bits, ch[0] + 1 - FIRST_DATA_CLUSTER) + FIRST_DATA_CLUSTER == ch[0] - 1 <==> LoneBackward(bits, ch)
  {
    var hint := ch[0] + 1 - FIRST_DATA_CLUSTER;
    var r := Scan(bits, hint);
    ScanIsCircularFirstFit(bits, hint);
    if LoneBackward(bits, ch) {
      assert r < |bits|;
      assert r == ch[0] - 3;
    } else if r + FIRST_DATA_CLUSTER == ch[0] - 1 {
      forall i | 0 <= i < |bits| && i != ch[0] - 3 ensures bits[i] {
        assert i == ch[0] - FIRST_DATA_CLUSTER || i < r || i >= hint;
      }
      assert false;
    }
  }

  /** It happens: of the clusters 2, 3, 4 only 3 is free, and the file is cluster 4. The flag then claims 4 and 5,
      not 4 and 3. */
  lemma LoneExample()
    ensures LoneBackward([true, false, true], [4])
    ensures Extend([true, false, true], 4, 1) == [3] && !ValidCluster(3, 5)
  {
    var bits := [true, false, true];
    assert LoneBackward(bits, [4]);
    BackwardIffLone(bits, [4]);
    ExtendUnfold(bits, 4, 1);
    assert Extend(bits[1 := true], 3, 0) == [];
  }

  /** A fresh file's first cluster is the lowest free one, so the cluster before it is taken, and its second one is not
      that. */
  lemma FreshNeverBackward(bits: seq<bool>)
    requires Scan(bits, 0) < |bits|
    ensures forall i :: 0 <= i < Scan(bits, 0) ==> bits[i]
    ensures var r := Scan(bits, 0); Scan(bits[r := true], r + 1) != r - 1
  {
    ScanIsCircularFirstFit(bits, 0);
    var r := Scan(bits, 0);
    assert r > 0 ==> bits[r := true][r - 1];
  }
}
