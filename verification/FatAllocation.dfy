/** fat_table.c and fat_write.c: finding, freeing and appending clusters through the sector buffers. */
module FatAllocation {
  import opened Arithmetic
  import opened FatChains
  import opened FatEntries
  import opened FatTable

  // ---- fatfs_find_blank_cluster ----

  /** The first free entry from start on; none past the table. */
  method FindBlankCluster(fs: FatFs, start: nat) returns (ok: bool, free: nat)
    requires fs.Valid()
    modifies fs`disk, fs`head, fs`list, fs.buffers, fs.Arrays()
    ensures fs.Valid() && fs.View() == old(fs.View()) && fs.Table() == old(fs.Table())
    ensures ok ==> free == Blank(fs.kind, fs.Table(), start) < |fs.Table()|
    ensures !ok && !fs.faulty ==> Blank(fs.kind, fs.Table(), start) == |fs.Table()|
  {
    hide FatFs.Valid, FatFs.View, FatFs.Buffered, FatFs.SlotsOf, FatFs.Slots, FatFs.Listed, FatFs.Table;
    ghost var t := fs.Table();
    ok, free := false, start;
    var busy := true;
    while busy
      invariant fs.Valid() && fs.View() == old(fs.View()) && fs.Table() == t
      invariant Blank(fs.kind, t, start) == Blank(fs.kind, t, free)
      invariant !busy ==> free < |t| && Masked(fs.kind, t[free]) == 0
      decreases |t| - free, busy
    {
      InTable(fs.kind, fs.fatSectors, free);
      if free / PerSector(fs.kind) >= fs.fatSectors {
        return;
      }
      var b, k := fs.FatSector(free);
      if b == null {
        return;
      }
      var entry := fs.GetEntry(b, free);
      busy := Masked(fs.kind, entry) != 0;
      if busy {
        free := free + 1;
      }
    }
    ok := true;
  }

  // ---- fatfs_free_cluster_chain ----

  /** Zeroes every entry met by following links from start, cyclic chains included, unless one leads past the table. */
  method FreeClusterChain(fs: FatFs, start: nat, ghost r: set<nat>) returns (ok: bool)
    requires fs.Valid() && fs.canWrite && Closed(fs.kind, fs.Table(), r)
    requires start == LAST || start == 0 || start in r
    modifies fs`disk, fs`head, fs`list, fs.buffers, fs.Arrays()
    ensures fs.Valid() && fs.SameOutsideFat(old(fs.View()), fs.View()) && ok
    ensures !fs.faulty ==> fs.Table() == Zeroed(old(fs.Table()), Trail(fs.kind, old(fs.Table()), start, r))
    ensures exists n :: 0 <= n <= |Trail(fs.kind, old(fs.Table()), start, r)|
                        && fs.Table() == Zeroed(old(fs.Table()), Trail(fs.kind, old(fs.Table()), start, r)[..n])
  {
    hide FatFs.Valid, FatFs.View, FatFs.Buffered, FatFs.SlotsOf, FatFs.Slots, FatFs.Listed, FatFs.Table;
    hide Next, Zeroed, Trail;
    var next := start;
    ghost var t := fs.Table();
    ghost var trail := Trail(fs.kind, t, start, r);
    ghost var left, i, failed := r, 0, false;
    ZeroedNone(t);
    assert trail[..0] == [] && trail[0..] == trail;
    while next != LAST && next != 0
      invariant fs.Valid() && fs.SameOutsideFat(old(fs.View()), fs.View())
      invariant 0 <= i <= |trail| && fs.Table() == Zeroed(t, trail[..i])
      invariant failed ==> fs.faulty && next == LAST
      invariant !failed ==> (next == LAST || next == 0 || next in r) && left <= r
                            && Trail(fs.kind, t, next, left) == trail[i..]
                            && forall c :: c in r ==> (c in left <==> c !in trail[..i])
      decreases |left|, if next == LAST || next == 0 then 0 else 1
    {
      var last := next;
      if last in left {
        FreeStep(fs.kind, t, trail, i, last, left);
      } else {
        MetAgain(fs.kind, t, trail[..i], last);
        TrailEnds(fs.kind, t, last, left);
        TrailEnds(fs.kind, t, 0, left);
      }
      next := fs.FindNextCluster(next);
      failed := next != Next(fs.kind, fs.Table(), last);
      var written := fs.SetCluster(last, 0);
      failed := failed || !written;
      if written && last in left {
        left, i := left - {last}, i + 1;
      }
    }
    ok := true;
    fs.TableFits();
    if !failed {
      assert fs.Table() == Zeroed(t, trail[..i]);
      TrailEnds(fs.kind, t, next, left);
      assert trail[..i] == trail;
    }
  }

  /** On a table without links past its end: whatever the start, the entries met are zeroed and the loop ends. */
  method FreeAnyChain(fs: FatFs, start: nat) returns (ok: bool)
    requires fs.Valid() && fs.canWrite && LinksInside(fs.kind, fs.Table()) && (start == LAST || start < |fs.Table()|)
    modifies fs`disk, fs`head, fs`list, fs.buffers, fs.Arrays()
    ensures fs.Valid() && fs.SameOutsideFat(old(fs.View()), fs.View()) && ok
    ensures !fs.faulty ==>
              fs.Table() == Zeroed(old(fs.Table()), Trail(fs.kind, old(fs.Table()), start, Entries(|fs.Table()|)))
  {
    hide FatFs.Valid, FatFs.View, FatFs.Table, Closed, Zeroed, Trail;
    AllEntriesClosed(fs.kind, fs.Table());
    ok := FreeClusterChain(fs, start, Entries(|fs.Table()|));
  }

  /** Point tail to e and e to the end, as every append does, without looking at either result. */
  method LinkBehind(fs: FatFs, tail: nat, e: nat)
    requires fs.Valid() && fs.canWrite && tail < TableSize(fs.kind, fs.fatSectors)
             && e < TableSize(fs.kind, fs.fatSectors)
    modifies fs`disk, fs`head, fs`list, fs.buffers, fs.Arrays()
    ensures fs.Valid() && fs.SameOutsideFat(old(fs.View()), fs.View())
    ensures !fs.faulty ==> fs.Table() == Linked(fs.kind, old(fs.Table()), tail, e)
    ensures forall c :: 0 <= c < |old(fs.Table())| && c != tail && c != e ==> fs.Table()[c] == old(fs.Table())[c]
  {
    hide FatFs.Valid, FatFs.View, FatFs.Buffered, FatFs.SlotsOf, FatFs.Slots, FatFs.Listed, FatFs.Table;
    hide Stored;
    fs.TableFits();
    var linked := fs.SetCluster(tail, e);
    var ended := fs.SetCluster(e, LAST);
  }

  // ---- fatfs_fat_add_cluster_to_chain ----

  /** Walks to the end of a chain and links a new entry behind it; a chain that ends in a free entry is refused. */
  method AddClusterToChain(fs: FatFs, start: nat, newEntry: nat, ghost s: seq<nat>, ghost end: nat) returns (ok: bool)
    requires fs.Valid() && fs.canWrite && newEntry < TableSize(fs.kind, fs.fatSectors)
    requires start == LAST || (Path(fs.kind, fs.Table(), s, end) && s[0] == start && end in {0, LAST})
    modifies fs`disk, fs`head, fs`list, fs.buffers, fs.Arrays()
    ensures fs.Valid() && fs.SameOutsideFat(old(fs.View()), fs.View())
    ensures start == LAST ==> !ok && fs.Table() == old(fs.Table())
    ensures start != LAST && !fs.faulty ==> ok == (end == LAST)
    ensures start != LAST && !fs.faulty ==>
              fs.Table() == if ok then Linked(fs.kind, old(fs.Table()), Last(s), newEntry) else old(fs.Table())
    ensures forall c :: 0 <= c < |old(fs.Table())| && c !in s && c != newEntry ==> fs.Table()[c] == old(fs.Table())[c]
  {
    hide FatFs.Valid, FatFs.View, FatFs.Buffered, FatFs.SlotsOf, FatFs.Slots, FatFs.Listed, FatFs.Table;
    hide Next, Linked;
    var last, next := LAST, start;
    ghost var t := fs.Table();
    if start == LAST {
      return false;
    }
    fs.TableFits();
    assert |t| <= LAST;
    ghost var i := 0;
    while next != LAST
      invariant fs.Valid() && fs.View() == old(fs.View()) && fs.Table() == t
      invariant 0 <= i <= |s|
      invariant next != LAST ==> i < |s| && next == s[i]
      invariant next == LAST ==> i > 0 && last == s[i - 1] && (fs.faulty || (i == |s| && end == LAST))
      decreases |s| - i, if next == LAST then 0 else 1
    {
      last := next;
      assert i < |s| - 1 ==> 2 <= s[i + 1] < |t|;
      next := fs.FindNextCluster(next);
      if next == 0 {
        return false;
      }
      i := i + 1;
    }
    LinkBehind(fs, last, newEntry);
    ok := true;
  }

  // ---- fatfs_add_free_space ----

  /** Appends blank clusters behind the tail start, and reports the first one. */
  method AddFreeSpace(fs: FatFs, start: nat, clusters: nat) returns (ok: bool, first: nat)
    requires fs.Valid() && fs.canWrite && start < TableSize(fs.kind, fs.fatSectors)
    modifies fs`disk, fs`head, fs`list, fs`nextFreeCluster, fs.buffers, fs.Arrays()
    ensures fs.Valid()
    ensures !fs.faulty ==>
              var r := Grown(fs.kind, old(fs.Table()), fs.rootdirFirstCluster, start, clusters);
              fs.Table() == r.0 && ok == (|r.1| == clusters) && first == if r.1 == [] then start else r.1[0]
  {
    hide FatFs.Valid, FatFs.View, FatFs.Buffered, FatFs.SlotsOf, FatFs.Slots, FatFs.Listed, FatFs.Table;
    hide Blank, Linked;
    ok, first := true, start;
    ghost var t := fs.Table();
    fs.TableFits();
    if fs.nextFreeCluster != LAST {
      fs.SetFsInfo(LAST);
    }
    var tail: nat := start;
    ghost var taken: seq<nat> := [];
    assert forall u: seq<nat> :: [] + u == u;
    for i := 0 to clusters
      invariant fs.Valid() && tail < TableSize(fs.kind, fs.fatSectors)
      invariant |taken| == i && first == if i == 0 then start else taken[0]
      invariant !fs.faulty ==>
                  var r := Grown(fs.kind, fs.Table(), fs.rootdirFirstCluster, tail, clusters - i);
                  Grown(fs.kind, t, fs.rootdirFirstCluster, start, clusters) == (r.0, taken + r.1)
    {
      var found, next := FindBlankCluster(fs, fs.rootdirFirstCluster);
      if !found {
        assert taken + [] == taken;
        return false, first;
      }
      GrownUnfold(fs.kind, fs.Table(), fs.rootdirFirstCluster, tail, clusters - i, taken);
      LinkBehind(fs, tail, next);
      tail := next;
      if i == 0 {
        first := next;
      }
      taken := taken + [next];
    }
  }

  // ---- fatfs_allocate_free_space ----

  method ClustersFor(size: nat, clusterSize: nat) returns (count: nat)
    requires clusterSize > 0
    ensures size <= count * clusterSize < size + clusterSize && (size > 0 ==> count > 0)
  {
    count := size / clusterSize;
    DivMod(size, clusterSize);
    OneMore(count, clusterSize);
    if size != clusterSize * count {
      count := count + 1;
    }
  }

  /** Enough clusters for size bytes: behind the tail start, or as a new chain. A new chain's first cluster is reported
      only when the chain has no other. */
  method AllocateFreeSpace(fs: FatFs, newFile: bool, start: nat, size: nat, clusterSize: nat)
      returns (ok: bool, first: nat, ghost count: nat)
    requires fs.Valid() && fs.canWrite && clusterSize > 0 && (newFile || start < TableSize(fs.kind, fs.fatSectors))
    modifies fs`disk, fs`head, fs`list, fs`nextFreeCluster, fs.buffers, fs.Arrays()
    ensures fs.Valid() && size <= count * clusterSize < size + clusterSize
    ensures !fs.faulty ==>
              var t, root := old(fs.Table()), fs.rootdirFirstCluster;
              var tail := if newFile then Blank(fs.kind, t, root) else start;
              if size == 0 || tail == |t| then !ok && fs.Table() == t && first == start
              else
                var r := Grown(fs.kind, t, root, tail, count);
                && fs.Table() == r.0 && ok == (|r.1| == count)
                && first == if newFile && count == 1 then tail else start
  {
    hide FatFs.Valid, FatFs.View, FatFs.Buffered, FatFs.SlotsOf, FatFs.Slots, FatFs.Listed, FatFs.Table;
    hide Blank, Masked, Stored;
    ok, first, count := false, start, 0;
    if size == 0 {
      return;
    }
    var clusterCount := ClustersFor(size, clusterSize);
    count := clusterCount;
    if fs.nextFreeCluster != LAST {
      fs.SetFsInfo(LAST);
    }
    fs.TableFits();
    ghost var t := fs.Table();
    var next := start;
    if newFile {
      var found;
      found, next := FindBlankCluster(fs, fs.rootdirFirstCluster);
      if !found {
        return;
      }
      if clusterCount == 1 {
        OneNew(fs.kind, t, fs.rootdirFirstCluster);
        var ended := fs.SetCluster(next, LAST);
        return true, next, count;
      }
    }
    ok, next := AddFreeSpace(fs, next, clusterCount);
  }

  lemma OneNew(k: Kind, t: seq<nat>, root: nat)
    requires Blank(k, t, root) < |t|
    ensures var b := Blank(k, t, root); Grown(k, t, root, b, 1) == (t[b := Stored(k, LAST)], [b])
  {
    hide Blank, Stored, Grown;
    var b := Blank(k, t, root);
    GrownOnce(k, t, root, b);
    assert Linked(k, t, b, b) == t[b := Stored(k, LAST)];
  }

  // ---- fatfs_count_free_clusters ----

  /** How many of the first n entries are zero in all their bits. */
  function RawZeros(t: seq<nat>, n: nat): (z: nat)
    requires n <= |t|
    ensures z <= n
  {
    if n == 0 then 0 else RawZeros(t, n - 1) + if t[n - 1] == 0 then 1 else 0
  }

  /** How many of the first n entries are free. */
  function FreeEntries(k: Kind, t: seq<nat>, n: nat): nat
    requires n <= |t|
  {
    if n == 0 then 0 else FreeEntries(k, t, n - 1) + if Masked(k, t[n - 1]) == 0 then 1 else 0
  }

  /** Counts the entries that are zero as they are stored. */
  method CountFreeClusters(fs: FatFs) returns (count: nat)
    requires fs.Valid()
    modifies fs`disk, fs`head, fs`list, fs.buffers, fs.Arrays()
    ensures fs.Valid() && fs.View() == old(fs.View()) && fs.Table() == old(fs.Table())
    ensures exists n :: 0 <= n <= |fs.Table()| && (!fs.faulty ==> n == |fs.Table()|) && count == RawZeros(fs.Table(), n)
  {
    hide FatFs.Valid, FatFs.View, FatFs.Buffered, FatFs.SlotsOf, FatFs.Slots, FatFs.Listed, FatFs.Table;
    ghost var t := fs.Table();
    count := 0;
    var i := 0;
    while i < fs.fatSectors
      invariant 0 <= i <= fs.fatSectors && fs.Valid() && fs.View() == old(fs.View()) && fs.Table() == t
      invariant count == RawZeros(t, TableSize(fs.kind, i))
    {
      EntryAt(fs.kind, fs.fatSectors, i, 0);
      var b, k := fs.FatSector(TableSize(fs.kind, i));
      if b == null {
        return;
      }
      var j := 0;
      while j < PerSector(fs.kind)
        invariant 0 <= j <= PerSector(fs.kind) && count == RawZeros(t, TableSize(fs.kind, i) + j)
        modifies {}
      {
        EntryAt(fs.kind, fs.fatSectors, i, j);
        var entry := fs.GetEntry(b, TableSize(fs.kind, i) + j);
        if entry == 0 {
          count := count + 1;
        }
        j := j + 1;
      }
      i := i + 1;
    }
  }

  lemma EntryAt(k: Kind, n: nat, i: nat, j: nat)
    requires i < n && j < PerSector(k)
    ensures TableSize(k, i) + j < TableSize(k, n) && (TableSize(k, i) + j) / PerSector(k) == i
    ensures TableSize(k, i + 1) == TableSize(k, i) + PerSector(k) <= TableSize(k, n)
  {}

  /** The count agrees with what allocation calls free exactly when no entry is zero in its cluster bits alone. */
  lemma {:induction false} CountIsExact(k: Kind, t: seq<nat>, n: nat)
    requires n <= |t|
    ensures RawZeros(t, n) <= FreeEntries(k, t, n)
    ensures RawZeros(t, n) == FreeEntries(k, t, n) <==> forall c :: 0 <= c < n && Masked(k, t[c]) == 0 ==> t[c] == 0
  {
    if n > 0 { CountIsExact(k, t, n - 1); }
  }
}
