/** Any run of creations, appends and frees on a FAT volume: chains stay well formed and disjoint, and no cluster
    leaks. */
module FatReplay {
  import opened Arithmetic
  import opened FatChains
  import opened FatEntries
  import opened FatTable
  import opened FatAllocation

  /** Start a chain of one cluster, append n clusters behind the last of chain i, append one walking there from its
      first, or free chain i; numbers outside the list of chains are ignored. */
  datatype Op = New | Grow(i: nat, n: nat) | Append(i: nat) | Free(i: nat)

  datatype State = State(table: seq<nat>, chains: seq<seq<nat>>)

  /** Every chain is well formed, and no two share a cluster. */
  ghost predicate Separate(k: Kind, t: seq<nat>, chains: seq<seq<nat>>) {
    && (forall i :: 0 <= i < |chains| ==> IsChain(k, t, chains[i]))
    && (forall i, j :: 0 <= i < |chains| && 0 <= j < |chains| && i != j ==> Disjoint(chains[i], chains[j]))
  }

  /** What one operation does to the table and to the list of chains. */
  function Step(k: Kind, root: nat, s: State, op: Op): State
    requires Separate(k, s.table, s.chains)
  {
    match op
    case New => StepNew(k, root, s)
    case Free(i) => if i >= |s.chains| then s else State(Zeroed(s.table, s.chains[i]), Without(s.chains, i))
    case Grow(i, n) => if i >= |s.chains| then s else StepGrow(k, root, s, i, n)
    case Append(i) => if i >= |s.chains| then s else StepGrow(k, root, s, i, 1)
  }

  function StepGrow(k: Kind, root: nat, s: State, i: nat, n: nat): State
    requires Separate(k, s.table, s.chains) && i < |s.chains|
  {
    NonEmpty(k, s.table, s.chains[i]);
    var r := Grown(k, s.table, root, Last(s.chains[i]), n);
    State(r.0, s.chains[i := s.chains[i] + r.1])
  }

  function StepNew(k: Kind, root: nat, s: State): State {
    var b := Blank(k, s.table, root);
    if b == |s.table| then s else State(s.table[b := Stored(k, LAST)], s.chains + [[b]])
  }

  predicate InSome(chains: seq<seq<nat>>, c: nat) {
    exists i :: 0 <= i < |chains| && c in chains[i]
  }

  /** Chains name data clusters only, none of them reserved. */
  ghost predicate Data(k: Kind, chains: seq<seq<nat>>, reserved: set<nat>) {
    forall i :: 0 <= i < |chains| ==> DataChain(k, chains[i], reserved)
  }

  ghost predicate DataChain(k: Kind, s: seq<nat>, reserved: set<nat>) {
    forall c :: c in s ==> c < EndMark(k) && c !in reserved
  }

  /** No leak: a busy entry from root on is reserved or in a chain. */
  ghost predicate Covered(k: Kind, root: nat, t: seq<nat>, chains: seq<seq<nat>>, reserved: set<nat>) {
    forall c :: root <= c < |t| && Masked(k, t[c]) != 0 ==> c in reserved || InSome(chains, c)
  }

  ghost predicate Accounted(k: Kind, root: nat, s: State, reserved: set<nat>) {
    && |s.table| <= LAST && BlanksUsable(k, s.table, root)
    && Separate(k, s.table, s.chains) && Data(k, s.chains, reserved) && Covered(k, root, s.table, s.chains, reserved)
    && (forall c :: c in reserved && c < |s.table| ==> Masked(k, s.table[c]) != 0)
  }

  lemma GrowSeparate(k: Kind, root: nat, t: seq<nat>, chains: seq<seq<nat>>, i: nat, n: nat)
    requires |t| <= LAST && BlanksUsable(k, t, root) && Separate(k, t, chains) && i < |chains|
    ensures var s' := StepGrow(k, root, State(t, chains), i, n); Separate(k, s'.table, s'.chains)
  {
    hide IsChain, BlanksUsable, Disjoint, Grown;
    var chain := chains[i];
    assert IsChain(k, t, chain);
    NonEmpty(k, t, chain);
    GrowAppends(k, t, root, chain, n);
    var r, s' := Grown(k, t, root, Last(chain), n), StepGrow(k, root, State(t, chains), i, n);
    forall j | 0 <= j < |chains| && j != i
      ensures IsChain(k, r.0, s'.chains[j]) && Disjoint(s'.chains[i], s'.chains[j])
              && Disjoint(s'.chains[j], s'.chains[i])
    {
      GrowKeepsOthers(k, t, root, chain, n, chains[j]);
      DisjointSymmetric(s'.chains[i], chains[j]);
    }
  }

  lemma DisjointSymmetric(a: seq<nat>, b: seq<nat>)
    requires Disjoint(a, b)
    ensures Disjoint(b, a)
  {}

  lemma GrowKeeps(k: Kind, root: nat, s: State, reserved: set<nat>, i: nat, n: nat)
    requires Accounted(k, root, s, reserved) && i < |s.chains|
    ensures Accounted(k, root, StepGrow(k, root, s, i, n), reserved)
    ensures forall c :: c in reserved && c < |s.table| ==> StepGrow(k, root, s, i, n).table[c] == s.table[c]
  {
    hide IsChain, Blank, Masked, Linked, Separate, Grown;
    var t, chain := s.table, s.chains[i];
    var s' := StepGrow(k, root, s, i, n);
    GrowSeparate(k, root, t, s.chains, i, n);
    Member(k, t, s.chains, i);
    NonEmpty(k, t, chain);
    GrowAppends(k, t, root, chain, n);
    var r := Grown(k, t, root, Last(chain), n);
    BusyInChain(k, t, chain, Last(chain));
    BusyInChain(k, r.0, chain + r.1, Last(chain));
    forall c | root <= c < |t| && Masked(k, r.0[c]) != 0 ensures c in reserved || InSome(s'.chains, c) {
      if c in r.1 || c == Last(chain) {
        assert c in s'.chains[i];
      } else if c !in reserved {
        var j :| 0 <= j < |s.chains| && c in s.chains[j];
        assert c in s'.chains[j];
      }
    }
    assert BlanksUsable(k, s'.table, root);
    assert Separate(k, s'.table, s'.chains);
    assert DataChain(k, chain, reserved) && DataChain(k, chain + r.1, reserved);
    assert Covered(k, root, s'.table, s'.chains, reserved);
  }

  lemma Member(k: Kind, t: seq<nat>, chains: seq<seq<nat>>, i: nat)
    requires Separate(k, t, chains) && i < |chains|
    ensures IsChain(k, t, chains[i])
  {}

  /** The list of chains without chain i. */
  function Without(chains: seq<seq<nat>>, i: nat): (r: seq<seq<nat>>)
    requires i < |chains|
    ensures |r| == |chains| - 1
    ensures forall j :: 0 <= j < |r| ==> r[j] == chains[if j < i then j else j + 1]
  {
    chains[..i] + chains[i + 1..]
  }

  lemma FreeSeparate(k: Kind, root: nat, t: seq<nat>, chains: seq<seq<nat>>, i: nat)
    requires Separate(k, t, chains) && i < |chains|
    ensures Separate(k, Zeroed(t, chains[i]), Without(chains, i))
  {
    hide IsChain, Disjoint, Zeroed;
    forall j | 0 <= j < |chains| && j != i ensures IsChain(k, Zeroed(t, chains[i]), chains[j]) {
      FreeKeepsOthers(k, t, chains[i], chains[j]);
    }
  }

  lemma FreeKeeps(k: Kind, root: nat, s: State, reserved: set<nat>, i: nat)
    requires Accounted(k, root, s, reserved) && i < |s.chains|
    ensures Accounted(k, root, Step(k, root, s, Free(i)), reserved)
    ensures forall c :: c in reserved && c < |s.table| ==> Step(k, root, s, Free(i)).table[c] == s.table[c]
  {
    hide IsChain, Separate;
    var t, chain, s' := s.table, s.chains[i], Step(k, root, s, Free(i));
    FreeSeparate(k, root, t, s.chains, i);
    Member(k, t, s.chains, i);
    forall c | root <= c < |t| && Masked(k, s'.table[c]) != 0 ensures c in reserved || InSome(s'.chains, c) {
      if c !in reserved {
        var j :| 0 <= j < |s.chains| && c in s.chains[j];
        assert s'.chains[if j < i then j else j - 1] == s.chains[j];
      }
    }
    forall c | c in chain ensures 2 <= c < |t| {
      BusyInChain(k, t, chain, c);
    }
    assert BlanksUsable(k, s'.table, root);
    assert Separate(k, s'.table, s'.chains);
    forall j | 0 <= j < |s'.chains| ensures DataChain(k, s'.chains[j], reserved) {
      assert s'.chains[j] == s.chains[if j < i then j else j + 1];
    }
    assert Covered(k, root, s'.table, s'.chains, reserved);
  }

  /** Every operation keeps the books, and reserved entries read the same. */
  lemma StepKeeps(k: Kind, root: nat, s: State, reserved: set<nat>, op: Op)
    requires Accounted(k, root, s, reserved)
    ensures var s' := Step(k, root, s, op);
            Accounted(k, root, s', reserved) && forall c :: c in reserved && c < |s.table| ==> s'.table[c] == s.table[c]
  {
    hide Accounted, StepGrow, StepNew;
    AccountedSeparate(k, root, s, reserved);
    match op
    case New => NewKeeps(k, root, s, reserved);
    case Free(i) => if i < |s.chains| { FreeKeeps(k, root, s, reserved, i); }
    case Grow(i, n) => if i < |s.chains| { GrowKeeps(k, root, s, reserved, i, n); }
    case Append(i) => if i < |s.chains| { GrowKeeps(k, root, s, reserved, i, 1); }
  }

  lemma AccountedSeparate(k: Kind, root: nat, s: State, reserved: set<nat>)
    requires Accounted(k, root, s, reserved)
    ensures Separate(k, s.table, s.chains)
  {}

  lemma NewSeparate(k: Kind, root: nat, t: seq<nat>, chains: seq<seq<nat>>)
    requires |t| <= LAST && BlanksUsable(k, t, root) && Separate(k, t, chains)
    ensures var s' := StepNew(k, root, State(t, chains)); Separate(k, s'.table, s'.chains)
  {
    hide IsChain, BlanksUsable, Disjoint, Blank, Masked, Stored;
    var b, s' := Blank(k, t, root), StepNew(k, root, State(t, chains));
    if b < |t| {
      OneNew(k, t, root);
      NewChain(k, t, root, 1);
      forall j | 0 <= j < |chains|
        ensures IsChain(k, s'.table, chains[j]) && Disjoint(chains[j], [b]) && Disjoint([b], chains[j])
      {
        ApartFromNew(k, t, s'.table, b, chains[j]);
      }
    }
  }

  lemma ApartFromNew(k: Kind, t: seq<nat>, u: seq<nat>, b: nat, other: seq<nat>)
    requires IsChain(k, t, other) && b < |t| && Masked(k, t[b]) == 0 && |u| == |t|
    requires forall c :: 0 <= c < |t| && c != b ==> u[c] == t[c]
    ensures IsChain(k, u, other) && Disjoint(other, [b]) && Disjoint([b], other)
  {
    if b in other {
      BusyInChain(k, t, other, b);
      assert false;
    }
    ChainElsewhere(k, t, u, other);
  }

  lemma NewKeeps(k: Kind, root: nat, s: State, reserved: set<nat>)
    requires Accounted(k, root, s, reserved)
    ensures Accounted(k, root, StepNew(k, root, s), reserved)
    ensures forall c :: c in reserved && c < |s.table| ==> StepNew(k, root, s).table[c] == s.table[c]
  {
    hide IsChain, Blank, Masked, Linked, Stored, Separate;
    var t, s', b := s.table, StepNew(k, root, s), Blank(k, s.table, root);
    NewSeparate(k, root, t, s.chains);
    if b < |t| {
      LastIsLast(k);
      assert s'.chains[|s.chains|] == [b];
      forall c | root <= c < |t| && Masked(k, s'.table[c]) != 0 ensures c in reserved || InSome(s'.chains, c) {
        if c == b {
          assert c in s'.chains[|s.chains|];
        } else if c !in reserved {
          var j :| 0 <= j < |s.chains| && c in s.chains[j];
          assert c in s'.chains[j];
        }
      }
      assert BlanksUsable(k, s'.table, root);
      assert DataChain(k, [b], reserved);
      assert Covered(k, root, s'.table, s'.chains, reserved);
    }
  }

  /** What a run does. */
  function Outcome(k: Kind, root: nat, s: State, ghost reserved: set<nat>, ops: seq<Op>): (r: State)
    requires Accounted(k, root, s, reserved)
    ensures Accounted(k, root, r, reserved) && |r.table| == |s.table|
    ensures forall c :: c in reserved && c < |s.table| ==> r.table[c] == s.table[c]
    decreases ops
  {
    if ops == [] then s
    else
      StepKeeps(k, root, s, reserved, ops[0]);
      Outcome(k, root, Step(k, root, s, ops[0]), reserved, ops[1..])
  }

  /** Running the operations through the sector buffers, then purging them, leaves the outcome on the disk. */
  method Run(fs: FatFs, ops: seq<Op>, files: seq<seq<nat>>, clusterSize: nat, ghost reserved: set<nat>)
      returns (left: seq<seq<nat>>)
    requires fs.Valid() && fs.canWrite && !fs.faulty && clusterSize > 0
    requires Accounted(fs.kind, fs.rootdirFirstCluster, State(fs.Table(), files), reserved)
    modifies fs`disk, fs`head, fs`list, fs`nextFreeCluster, fs.buffers, fs.Arrays()
    ensures fs.Valid()
    ensures fs.fatBegin + fs.fatSectors <= |fs.disk|
    ensures State(TableOf(fs.kind, fs.disk, fs.fatBegin, fs.fatSectors), left)
            == Outcome(fs.kind, fs.rootdirFirstCluster, State(old(fs.Table()), files), reserved, ops)
  {
    hide FatFs.Valid, FatFs.View, FatFs.SlotsOf, FatFs.Slots, FatFs.Listed, Accounted;
    left := files;
    ghost var k, root := fs.kind, fs.rootdirFirstCluster;
    for n := 0 to |ops|
      invariant fs.Valid() && Accounted(k, root, State(fs.Table(), left), reserved)
      invariant Outcome(k, root, State(old(fs.Table()), files), reserved, ops)
                == Outcome(k, root, State(fs.Table(), left), reserved, ops[n..])
    {
      StepKeeps(k, root, State(fs.Table(), left), reserved, ops[n]);
      assert ops[n..][0] == ops[n] && ops[n..][1..] == ops[n + 1..];
      left := Perform(fs, left, ops[n], clusterSize, reserved);
    }
    var ok := fs.Purge();
    fs.TableFits();
  }

  /** Following the links of a chain from its first cluster. */
  method ReadChain(fs: FatFs, start: nat, ghost s: seq<nat>) returns (read: seq<nat>)
    requires fs.Valid() && !fs.faulty && IsChain(fs.kind, fs.Table(), s) && s[0] == start
    modifies fs`disk, fs`head, fs`list, fs.buffers, fs.Arrays()
    ensures fs.Valid() && fs.View() == old(fs.View()) && fs.Table() == old(fs.Table())
    ensures read == s
  {
    hide FatFs.Valid, FatFs.View, FatFs.Buffered, FatFs.SlotsOf, FatFs.Slots, FatFs.Listed, FatFs.Table;
    hide Next;
    fs.TableFits();
    var next: nat := start;
    read := [];
    while next != LAST
      invariant fs.Valid() && fs.View() == old(fs.View()) && fs.Table() == old(fs.Table())
      invariant |read| <= |s| && read == s[..|read|]
      invariant next == if |read| < |s| then s[|read|] else LAST
      decreases |s| - |read|
    {
      assert |read| < |s| && 2 <= s[|read|] < |fs.Table()|;
      read := read + [next];
      next := fs.FindNextCluster(next);
      assert |read| < |s| ==> 2 <= s[|read|] < |fs.Table()|;
    }
  }

  /** One operation, as the file layer calls it: by first cluster to free, by last cluster to append. */
  method Perform(fs: FatFs, files: seq<seq<nat>>, op: Op, clusterSize: nat, ghost reserved: set<nat>)
      returns (left: seq<seq<nat>>)
    requires fs.Valid() && fs.canWrite && !fs.faulty && clusterSize > 0
    requires Accounted(fs.kind, fs.rootdirFirstCluster, State(fs.Table(), files), reserved)
    modifies fs`disk, fs`head, fs`list, fs`nextFreeCluster, fs.buffers, fs.Arrays()
    ensures fs.Valid()
    ensures State(fs.Table(), left) == Step(fs.kind, fs.rootdirFirstCluster, State(old(fs.Table()), files), op)
  {
    hide FatFs.Valid, FatFs.View, FatFs.SlotsOf, FatFs.Slots, FatFs.Listed, FatFs.Table, FatFs.Buffered;
    hide Separate, IsChain, Closed, Trail, Zeroed, Grown, Data, Covered, BlanksUsable;
    left := files;
    ghost var k, root, t := fs.kind, fs.rootdirFirstCluster, fs.Table();
    match op {
      case New =>
        left := PerformNew(fs, files, clusterSize);
      case Free(i) =>
        if i < |files| {
          Member(k, t, files, i);
          NonEmpty(k, t, files[i]);
          FreedIsChain(k, t, files[i]);
          var ok := FreeClusterChain(fs, files[i][0], Clusters(files[i]));
          left := files[..i] + files[i + 1..];
        }
      case Grow(i, n) =>
        if i < |files| {
          Member(k, t, files, i);
          NonEmpty(k, t, files[i]);
          StepKeeps(k, root, State(t, files), reserved, op);
          var ok, first := AddFreeSpace(fs, files[i][|files[i]| - 1], n);
          ghost var s' := Step(k, root, State(t, files), op);
          Member(k, s'.table, s'.chains, i);
          var longer := ReadChain(fs, files[i][0], s'.chains[i]);
          left := files[i := longer];
        }
      case Append(i) =>
        if i < |files| {
          Member(k, t, files, i);
          left := PerformAppend(fs, files, i);
        }
    }
  }

  lemma OneIsEnough(count: nat, clusterSize: nat)
    requires 1 <= count * clusterSize < 1 + clusterSize
    ensures count == 1
  {
    MulGap(1, count, clusterSize);
  }

  /** fl_fopen and fl_createdirectory ask for one byte. */
  method PerformNew(fs: FatFs, files: seq<seq<nat>>, clusterSize: nat) returns (left: seq<seq<nat>>)
    requires fs.Valid() && fs.canWrite && !fs.faulty && clusterSize > 0
    modifies fs`disk, fs`head, fs`list, fs`nextFreeCluster, fs.buffers, fs.Arrays()
    ensures fs.Valid()
    ensures State(fs.Table(), left) == StepNew(fs.kind, fs.rootdirFirstCluster, State(old(fs.Table()), files))
  {
    hide FatFs.Valid, FatFs.View, FatFs.SlotsOf, FatFs.Slots, FatFs.Listed, FatFs.Table, FatFs.Buffered;
    hide Blank, Grown, Stored;
    left := files;
    ghost var t := fs.Table();
    var ok, first, count := AllocateFreeSpace(fs, true, 0, 1, clusterSize);
    OneIsEnough(count, clusterSize);
    if Blank(fs.kind, t, fs.rootdirFirstCluster) < |t| {
      OneNew(fs.kind, t, fs.rootdirFirstCluster);
    }
    if ok {
      left := files + [[first]];
    }
  }

  /** A directory's next cluster. */
  method PerformAppend(fs: FatFs, files: seq<seq<nat>>, i: nat) returns (left: seq<seq<nat>>)
    requires fs.Valid() && fs.canWrite && !fs.faulty
    requires Separate(fs.kind, fs.Table(), files) && i < |files|
    modifies fs`disk, fs`head, fs`list, fs`nextFreeCluster, fs.buffers, fs.Arrays()
    ensures fs.Valid()
    ensures State(fs.Table(), left) == StepGrow(fs.kind, fs.rootdirFirstCluster, State(old(fs.Table()), files), i, 1)
  {
    hide FatFs.Valid, FatFs.View, FatFs.SlotsOf, FatFs.Slots, FatFs.Listed, FatFs.Table, FatFs.Buffered;
    hide Separate, Blank, Next, Linked, Grown;
    Member(fs.kind, fs.Table(), files, i);
    GrownOnce(fs.kind, fs.Table(), fs.rootdirFirstCluster, Last(files[i]));
    fs.TableFits();
    var found, next := FindBlankCluster(fs, fs.rootdirFirstCluster);
    left := files;
    if found {
      var ok := AddClusterToChain(fs, files[i][0], next, files[i], LAST);
      left := files[i := files[i] + [next]];
    }
    assert !found ==> files[i] + [] == files[i] && files[i := files[i]] == files;
  }

  ghost function Clusters(s: seq<nat>): set<nat> {
    set c | c in s
  }

  lemma FreedIsChain(k: Kind, t: seq<nat>, s: seq<nat>)
    requires IsChain(k, t, s) && |t| <= LAST
    ensures Closed(k, t, Clusters(s)) && s[0] in Clusters(s) && Trail(k, t, s[0], Clusters(s)) == s
  {
    ChainIsClosed(k, t, s);
    ChainTrail(k, t, s, Clusters(s));
  }
}
