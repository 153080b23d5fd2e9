/** A file seen as one flat byte sequence laid out over the clusters of its chain. */
module FlatFile {
  import Octets
  import opened Arithmetic
  import opened Chains

  type byte = Octets.byte

  // ---- Splicing ----

  /** s with data written over it at position a. */
  function Splice(s: seq<byte>, a: nat, data: seq<byte>): (r: seq<byte>)
    requires a + |data| <= |s|
    ensures |r| == |s|
    ensures forall i :: 0 <= i < |s| ==> r[i] == if a <= i < a + |data| then data[i - a] else s[i]
  {
    s[..a] + data + s[a + |data|..]
  }

  lemma SpliceNothing(s: seq<byte>, a: nat)
    requires a <= |s|
    ensures Splice(s, a, []) == s
  {}

  lemma SpliceTwice(s: seq<byte>, a: nat, d1: seq<byte>, d2: seq<byte>)
    requires a + |d1| + |d2| <= |s|
    ensures Splice(Splice(s, a, d1), a + |d1|, d2) == Splice(s, a, d1 + d2)
  {}

  function Zeros(n: nat): (z: seq<byte>)
    ensures |z| == n
    ensures forall i :: 0 <= i < n ==> z[i] == 0
  {
    seq(n, i => 0)
  }

  // ---- Positions ----

  /** Where cluster c starts in the cluster heap (exfat_c2o, relative to the heap's start). */
  function Offset(cs: nat, c: nat): nat
    requires c >= FIRST_DATA_CLUSTER
  {
    (c - FIRST_DATA_CLUSTER) * cs
  }

  lemma OffsetFits(cs: nat, count: nat, c: nat)
    requires ValidCluster(count, c)
    ensures Offset(cs, c) + cs <= count * cs
  {
    MulGap(c - FIRST_DATA_CLUSTER, count, cs);
  }

  /** The heap position of byte i of the file with chain ch. */
  function Pos(cs: nat, ch: seq<nat>, i: nat): nat
    requires cs > 0 && i / cs < |ch| && ch[i / cs] >= FIRST_DATA_CLUSTER
  {
    Offset(cs, ch[i / cs]) + i % cs
  }

  ghost predicate Layout(heap: seq<byte>, cs: nat, count: nat, ch: seq<nat>) {
    cs > 0 && |heap| == count * cs && AllValid(count, ch)
  }

  lemma PosFits(heap: seq<byte>, cs: nat, count: nat, ch: seq<nat>, i: nat)
    requires Layout(heap, cs, count, ch) && i < |ch| * cs
    ensures i / cs < |ch| && Pos(cs, ch, i) < |heap|
  {
    DivBelow(i, |ch|, cs);
    DivMod(i, cs);
    OffsetFits(cs, count, ch[i / cs]);
  }

  /** All bytes of the chain's clusters, in file order. */
  ghost function View(heap: seq<byte>, cs: nat, count: nat, ch: seq<nat>): (v: seq<byte>)
    requires Layout(heap, cs, count, ch)
    ensures |v| == |ch| * cs
  {
    seq(|ch| * cs, i requires 0 <= i < |ch| * cs => PosFits(heap, cs, count, ch, i); heap[Pos(cs, ch, i)])
  }

  lemma ViewAt(heap: seq<byte>, cs: nat, count: nat, ch: seq<nat>, i: nat)
    requires Layout(heap, cs, count, ch) && i < |ch| * cs
    ensures i / cs < |ch| && Pos(cs, ch, i) < |heap|
    ensures View(heap, cs, count, ch)[i] == heap[Pos(cs, ch, i)]
  {
    PosFits(heap, cs, count, ch, i);
  }

  /** Writing inside cluster k of a chain writes exactly there in the file. */
  lemma ViewWrite(heap: seq<byte>, cs: nat, count: nat, ch: seq<nat>, k: nat, lo: nat, data: seq<byte>)
    requires Layout(heap, cs, count, ch) && NoDup(ch) && k < |ch| && lo + |data| <= cs
    ensures Offset(cs, ch[k]) + cs <= |heap|
    ensures k * cs + lo + |data| <= |ch| * cs
    ensures var heap' := Splice(heap, Offset(cs, ch[k]) + lo, data);
            View(heap', cs, count, ch) == Splice(View(heap, cs, count, ch), k * cs + lo, data)
  {
    OffsetFits(cs, count, ch[k]);
    MulGap(k, |ch|, cs);
    var heap' := Splice(heap, Offset(cs, ch[k]) + lo, data);
    var v, v' := View(heap, cs, count, ch), View(heap', cs, count, ch);
    forall i | 0 <= i < |v| ensures v'[i] == Splice(v, k * cs + lo, data)[i] {
      ViewAt(heap, cs, count, ch, i);
      ViewAt(heap', cs, count, ch, i);
      DivMod(i, cs);
      ClustersApart(cs, ch[i / cs], ch[k]);
      if i / cs != k {
        MulGap(i / cs, k, cs);
        MulGap(k, i / cs, cs);
      }
    }
  }

  lemma ClustersApart(cs: nat, c: nat, d: nat)
    requires c >= FIRST_DATA_CLUSTER && d >= FIRST_DATA_CLUSTER
    ensures c != d ==> Offset(cs, c) + cs <= Offset(cs, d) || Offset(cs, d) + cs <= Offset(cs, c)
  {
    MulGap(c - FIRST_DATA_CLUSTER, d - FIRST_DATA_CLUSTER, cs);
    MulGap(d - FIRST_DATA_CLUSTER, c - FIRST_DATA_CLUSTER, cs);
  }

  /** Writing inside a cluster leaves every file alone whose chain does not contain it. */
  lemma ViewElsewhere(heap: seq<byte>, cs: nat, count: nat, c: nat, lo: nat, data: seq<byte>, other: seq<nat>)
    requires Layout(heap, cs, count, other) && ValidCluster(count, c) && lo + |data| <= cs && c !in other
    ensures Offset(cs, c) + cs <= |heap|
    ensures View(Splice(heap, Offset(cs, c) + lo, data), cs, count, other) == View(heap, cs, count, other)
  {
    OffsetFits(cs, count, c);
    var heap' := Splice(heap, Offset(cs, c) + lo, data);
    var v, v' := View(heap, cs, count, other), View(heap', cs, count, other);
    forall i | 0 <= i < |v| ensures v'[i] == v[i] {
      ViewAt(heap, cs, count, other, i);
      ViewAt(heap', cs, count, other, i);
      DivMod(i, cs);
      assert other[i / cs] in other;
      ClustersApart(cs, other[i / cs], c);
    }
  }

  /** Appending clusters leaves the bytes before them where they were. */
  lemma ViewPrefix(heap: seq<byte>, cs: nat, count: nat, ch: seq<nat>, keep: nat)
    requires Layout(heap, cs, count, ch) && keep <= |ch|
    ensures keep * cs <= |ch| * cs
    ensures Layout(heap, cs, count, ch[..keep])
    ensures View(heap, cs, count, ch)[..keep * cs] == View(heap, cs, count, ch[..keep])
  {
    MulGap(keep, |ch|, cs);
    var v, p := View(heap, cs, count, ch), View(heap, cs, count, ch[..keep]);
    forall i | 0 <= i < keep * cs ensures v[i] == p[i] {
      ViewAt(heap, cs, count, ch, i);
      ViewAt(heap, cs, count, ch[..keep], i);
    }
  }
}
