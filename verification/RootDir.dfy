/** rootdir_size in mount.c: measuring the root directory's chain on a FAT nobody has checked yet. */
module RootDir {
  import opened Arithmetic
  import opened Chains

  /** From c the FAT leads through n valid clusters, the last of which is marked as the end. */
  predicate Reaches(fat: seq<u32>, count: nat, c: nat, n: nat)
    decreases n
  {
    && n > 0 && ValidCluster(count, c)
    && if Next(fat, false, c) == CLUSTER_END then n == 1
       else Reaches(fat, count, Next(fat, false, c), n - 1)
  }

  lemma {:induction false} ReachesOnce(fat: seq<u32>, count: nat, c: nat, m: nat, n: nat)
    requires Reaches(fat, count, c, m) && Reaches(fat, count, c, n)
    ensures m == n
    decreases n
  {
    if Next(fat, false, c) != CLUSTER_END {
      ReachesOnce(fat, count, Next(fat, false, c), m - 1, n - 1);
    }
  }

  lemma {:induction false} ReachesFrom(fat: seq<u32>, count: nat, c: nat, n: nat, i: nat)
    requires Reaches(fat, count, c, n) && i < n
    ensures ValidCluster(count, Walk(fat, false, c, n)[i]) && Reaches(fat, count, Walk(fat, false, c, n)[i], n - i)
    decreases n
  {
    if i > 0 { ReachesFrom(fat, count, Next(fat, false, c), n - 1, i - 1); }
  }

  /** A chain that ends cannot pass through a cluster twice: the two visits would be equally far from the end. */
  lemma EndingIsAcyclic(fat: seq<u32>, count: nat, c: nat, n: nat)
    requires Reaches(fat, count, c, n)
    ensures NoDup(Walk(fat, false, c, n)) && AllValid(count, Walk(fat, false, c, n))
  {
    var w := Walk(fat, false, c, n);
    forall i | 0 <= i < n ensures ValidCluster(count, w[i]) {
      ReachesFrom(fat, count, c, n, i);
    }
    forall i, j | 0 <= i < j < n ensures w[i] != w[j] {
      ReachesFrom(fat, count, c, n, i);
      ReachesFrom(fat, count, c, n, j);
      if w[i] == w[j] { ReachesOnce(fat, count, w[i], n - i, n - j); }
    }
  }

  /** Distinct clusters of a volume are at most as many as the volume has. */
  lemma {:induction false} Pigeonhole(ch: seq<nat>, count: nat)
    requires AllValid(count, ch) && NoDup(ch)
    ensures |ch| <= count
  {
    var all := Clusters(count);
    Distinct(ch);
    assert Elements(ch) <= all;
    Subset(Elements(ch), all);
  }

  function Clusters(count: nat): (s: set<nat>)
    ensures |s| == count
    ensures forall c :: c in s <==> ValidCluster(count, c)
  {
    if count == 0 then {} else Clusters(count - 1) + {count + 1}
  }

  function Elements(ch: seq<nat>): set<nat> {
    set c | c in ch
  }

  lemma {:induction false} Distinct(ch: seq<nat>)
    requires NoDup(ch)
    ensures |Elements(ch)| == |ch|
  {
    if ch != [] {
      var init, last := ch[..|ch| - 1], ch[|ch| - 1];
      Distinct(init);
      assert ch == init + [last];
      assert last !in init;
      assert Elements(ch) == Elements(init) + {last};
    }
  }

  lemma {:induction false} Subset(a: set<nat>, b: set<nat>)
    requires a <= b
    ensures |a| <= |b|
  {
    if a != {} {
      var x :| x in a;
      Subset(a - {x}, b - {x});
    }
  }

  /** The cut-off at cluster_count clusters never rejects a chain that ends. */
  lemma EndsInTime(fat: seq<u32>, count: nat, c: nat, n: nat)
    requires Reaches(fat, count, c, n)
    ensures n <= count
  {
    EndingIsAcyclic(fat, count, c, n);
    Pigeonhole(Walk(fat, false, c, n), count);
  }

  /** The size is non-zero exactly when the chain ends, and then it is the chain's length in clusters.
      Nothing is assumed of the FAT's contents. */
  method RootdirSize(fat: array<u32>, clusterCount: nat, clusterSize: nat, start: nat) returns (size: nat)
    requires FIRST_DATA_CLUSTER + clusterCount <= fat.Length && clusterSize > 0
    ensures size > 0 <==> exists n: nat :: Reaches(fat[..], clusterCount, start, n)
    ensures forall n: nat :: Reaches(fat[..], clusterCount, start, n) ==> size == n * clusterSize
  {
    var clusters: nat, cluster: nat, going := 0, start, true;
    while going
      invariant clusters <= clusterCount
      invariant going ==> forall n: nat :: Reaches(fat[..], clusterCount, start, n) ==>
                                             Remains(fat[..], clusterCount, cluster, clusters, n)
      invariant going ==> forall m: nat :: Reaches(fat[..], clusterCount, cluster, m) ==>
                                             Reaches(fat[..], clusterCount, start, clusters + m)
      invariant !going ==> clusters > 0 && Reaches(fat[..], clusterCount, start, clusters)
      decreases going, clusterCount - clusters
    {
      if clusters == clusterCount {
        forall n: nat ensures !Reaches(fat[..], clusterCount, start, n) {
          if Reaches(fat[..], clusterCount, start, n) { EndsInTime(fat[..], clusterCount, start, n); }
        }
        return 0;
      }
      if !ValidCluster(clusterCount, cluster) {
        assert forall n: nat :: !Reaches(fat[..], clusterCount, start, n);
        return 0;
      }
      OneStep(fat[..], clusterCount, start, cluster, clusters);
      cluster := fat[cluster];
      clusters := clusters + 1;
      going := cluster != CLUSTER_END;
    }
    MulGap(0, clusters, clusterSize);
    size := clusters * clusterSize;
    assert size >= clusterSize;
    assert Reaches(fat[..], clusterCount, start, clusters);
    assert exists n: nat :: Reaches(fat[..], clusterCount, start, n);
    forall n: nat | Reaches(fat[..], clusterCount, start, n) ensures size == n * clusterSize {
      ReachesOnce(fat[..], clusterCount, start, n, clusters);
    }
  }

  /** After k steps to cluster c, a chain of n clusters has n - k left. */
  predicate Remains(fat: seq<u32>, count: nat, c: nat, k: nat, n: nat) {
    n > k && Reaches(fat, count, c, n - k)
  }

  lemma OneStep(fat: seq<u32>, count: nat, start: nat, c: nat, k: nat)
    requires FIRST_DATA_CLUSTER + count <= |fat| && ValidCluster(count, c)
    requires forall n: nat :: Reaches(fat, count, start, n) ==> Remains(fat, count, c, k, n)
    requires forall m: nat :: Reaches(fat, count, c, m) ==> Reaches(fat, count, start, k + m)
    ensures fat[c] == CLUSTER_END ==> Reaches(fat, count, start, k + 1)
    ensures fat[c] != CLUSTER_END ==>
              && (forall n: nat :: Reaches(fat, count, start, n) ==> Remains(fat, count, fat[c], k + 1, n))
              && (forall m: nat :: Reaches(fat, count, fat[c], m) ==> Reaches(fat, count, start, k + 1 + m))
  {
    if fat[c] == CLUSTER_END {
      assert Reaches(fat, count, c, 1);
    } else {
      forall m: nat | Reaches(fat, count, fat[c], m) ensures Reaches(fat, count, start, k + 1 + m) {
        assert Reaches(fat, count, c, m + 1);
      }
    }
  }
}
