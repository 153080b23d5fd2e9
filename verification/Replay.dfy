/** Whole runs: any interleaving of truncates, writes and reads on any files of a volume. */
module Replay {
  import opened Arithmetic
  import opened Bitmap
  import opened Chains
  import opened FlatFile
  import opened Cluster
  import opened Volume
  import opened FileIo

  datatype Op =
    | SetSize(node: Node, size: nat)
    | Write(node: Node, offset: nat, data: seq<byte>)
    | Read(node: Node, offset: nat, size: nat)

  datatype Answer = Answer(rc: int, data: seq<byte>)

  /** All files as flat byte sequences, and how many clusters are free. */
  datatype FlatVolume = FlatVolume(files: map<Node, seq<byte>>, free: nat)

  function FlatRead(content: seq<byte>, offset: nat, size: nat): seq<byte> {
    if offset >= |content| then [] else content[offset..offset + Min(size, |content| - offset)]
  }

  function FlatStep(v: FlatVolume, cs: nat, op: Op): (FlatVolume, Answer)
    requires cs > 0 && op.node in v.files
  {
    var s := Flat(v.files[op.node], v.free);
    match op
    case SetSize(node, size) =>
      var (s', rc) := FlatTruncate(s, cs, size);
      (FlatVolume(v.files[node := s'.content], s'.free), Answer(rc, []))
    case Write(node, offset, data) =>
      var (s', rc) := FlatWrite(s, cs, offset, data);
      (FlatVolume(v.files[node := s'.content], s'.free), Answer(rc, []))
    case Read(node, offset, size) =>
      var data := FlatRead(s.content, offset, size);
      (v, Answer(|data|, data))
  }

  function FlatRun(v: FlatVolume, cs: nat, ops: seq<Op>): (r: (FlatVolume, seq<Answer>))
    requires cs > 0 && forall i :: 0 <= i < |ops| ==> ops[i].node in v.files
    ensures r.0.files.Keys == v.files.Keys
  {
    if ops == [] then (v, [])
    else
      var last := |ops| - 1;
      var (v1, answers) := FlatRun(v, cs, ops[..last]);
      var (v2, answer) := FlatStep(v1, cs, ops[last]);
      (v2, answers + [answer])
  }

  ghost function FlatVolumeOf(ef: ExFat): (v: FlatVolume)
    requires ef.Valid()
    reads ef, ef.chunk, ef.fat, ef.heap, ef.files
    ensures v.files.Keys == ef.files
  {
    FlatVolume(map f | f in ef.files :: Content(ef, f), FreeClusters(ef))
  }

  /** What the code demands of its callers. */
  ghost predicate Callable(ef: ExFat, op: Op)
    reads ef`files, ef.files`references, ef.files`parent
  {
    op.node in ef.files && (op.node.references != 0 || op.node.parent == null)
  }

  /** The operation asks for more clusters than 32 bits count. */
  predicate Overlong(cs: nat, op: Op) {
    match op
    case SetSize(_, size) => size > MAX_CLUSTERS * cs
    case Write(_, offset, data) => offset + |data| > MAX_CLUSTERS * cs
    case Read(_, _, _) => false
  }

  /** The operation would grow a file in the lone backward case. */
  ghost predicate Misgrows(ef: ExFat, op: Op)
    requires ef.Valid()
    reads ef, ef.chunk, ef.fat, ef.files, op.node
  {
    match op
    case SetSize(node, size) => Backward(ef, node, size)
    case Write(node, offset, data) => Backward(ef, node, offset + |data|)
    case Read(_, _, _) => false
  }

  /** Where the volume may part from flat files. */
  ghost predicate Excepted(ef: ExFat, op: Op)
    requires ef.Valid()
    reads ef, ef.chunk, ef.fat, ef.files, op.node
  {
    Overlong(ef.clusterSize, op) || Misgrows(ef, op)
  }

  /** One operation, as the flat volume does it. */
  method Perform(ef: ExFat, op: Op) returns (answer: Answer)
    requires ef.Valid() && Callable(ef, op) && !Excepted(ef, op)
    modifies ef`dirty, ef.chunk, ef.fat, ef.heap,
             op.node`fptrIndex, op.node`fptrCluster, op.node`startCluster, op.node`isContiguous, op.node`isDirty,
             op.node`size
    ensures ef.Valid()
    ensures (FlatVolumeOf(ef), answer) == FlatStep(old(FlatVolumeOf(ef)), ef.clusterSize, op)
  {
    hide Content, ExFat.Valid, ExFat.FileChain, Backward, FreeClusters, FlatTruncate, FlatWrite;
    ghost var v := FlatVolumeOf(ef);
    HasClusterSize(ef);
    match op
    case SetSize(node, size) =>
      var rc := FlatTruncated(ef, node, size);
      answer := Answer(rc, []);
      OneChanged(ef, v, node);
    case Write(node, offset, data) =>
      var buffer := new byte[|data|](i requires 0 <= i < |data| => data[i]);
      var rc := GenericPwrite(ef, node, buffer, |data|, offset);
      assert buffer[..|data|] == data;
      answer := Answer(rc, []);
      OneChanged(ef, v, node);
    case Read(node, offset, size) =>
      var buffer := new byte[size](i => 0);
      var n := GenericPread(ef, node, buffer, size, offset);
      answer := Answer(n, buffer[..n]);
      NoneChanged(ef, v);
      assert answer.data == FlatRead(v.files[node], offset, size);
  }

  lemma OneChanged(ef: ExFat, v: FlatVolume, node: Node)
    requires ef.Valid() && v.files.Keys == ef.files && node in ef.files
    requires forall g :: g in ef.files && g != node ==> Content(ef, g) == v.files[g]
    ensures FlatVolumeOf(ef).files == v.files[node := Content(ef, node)]
  {}

  lemma NoneChanged(ef: ExFat, v: FlatVolume)
    requires ef.Valid() && v.files.Keys == ef.files
    requires forall g :: g in ef.files ==> Content(ef, g) == v.files[g]
    ensures FlatVolumeOf(ef).files == v.files
  {}

  // ---- Runs ----

  /** On flat files alone: the operation makes a one-cluster file grow while exactly one cluster is free.
      Only then can the lone backward case arise. */
  predicate Tight(v: FlatVolume, cs: nat, op: Op)
    requires cs > 0 && op.node in v.files
  {
    && v.free == 1
    && CeilDiv(|v.files[op.node]|, cs) == 1
    && match op
       case SetSize(_, size) => CeilDiv(size, cs) > 1
       case Write(_, offset, data) => CeilDiv(offset + |data|, cs) > 1
       case Read(_, _, _) => false
  }

  lemma LoneMeansOneFree(bits: seq<bool>, ch: seq<nat>)
    requires LoneBackward(bits, ch)
    ensures CountClear(bits) == 1
  {
    var i := ch[0] - 3;
    CountClearUpdate(bits, i, true);
    CountClearZero(bits[i := true]);
  }

  /** The lone backward case needs a one-cluster file, a request for more, and exactly one free cluster. */
  lemma BackwardNeeds(ef: ExFat, node: Node, size: nat)
    requires ef.Valid() && node in ef.files && size <= MAX_CLUSTERS * ef.clusterSize && Backward(ef, node, size)
    ensures FreeClusters(ef) == 1 && CeilDiv(node.size, ef.clusterSize) == 1 < CeilDiv(size, ef.clusterSize)
  {
    hide Exclusive, Denotes, Bits, Walk, CeilDiv, LoneBackward, Node.Cursor, AllSet, NoDup;
    var ch := ef.FileChain(node);
    OwnChain(ef, node);
    LoneMeansOneFree(ef.Map(), ch);
    OneCluster(ef.Map(), ch);
    ClusterCount(ef, size);
  }

  lemma VolumeOf(ef: ExFat, node: Node)
    requires ef.Valid() && node in ef.files
    ensures FlatVolumeOf(ef).free == FreeClusters(ef) && |FlatVolumeOf(ef).files[node]| == node.size
  {
    hide Content, FreeClusters;
  }

  lemma MisgrowsOnlyWhenTight(ef: ExFat, op: Op)
    requires ef.Valid() && Callable(ef, op) && Misgrows(ef, op) && !Overlong(ef.clusterSize, op)
    ensures Tight(FlatVolumeOf(ef), ef.clusterSize, op)
  {
    hide FlatVolumeOf, FreeClusters, CeilDiv, Backward, ExFat.Valid;
    HasClusterSize(ef);
    VolumeOf(ef, op.node);
    match op
    case SetSize(node, size) => BackwardNeeds(ef, node, size);
    case Write(node, offset, data) => BackwardNeeds(ef, node, offset + |data|);
    case Read(_, _, _) =>
  }

  lemma HasClusterSize(ef: ExFat)
    requires ef.Valid()
    ensures ef.clusterSize > 0
  {}

  /** Whether every cluster but perhaps the k-th is in use. */
  method AllButOne(ef: ExFat, k: nat) returns (b: bool)
    requires ef.Shape()
    ensures b <==> forall i :: 0 <= i < ef.count && i != k ==> ef.Map()[i]
  {
    hide Bit;
    for i := 0 to ef.count
      invariant forall j :: 0 <= j < i && j != k ==> ef.Map()[j]
    {
      if i != k && !Get(ef.chunk[..], i) {
        assert !ef.Map()[i];
        return false;
      }
    }
    b := true;
  }

  /** What a caller can look at to see the lone backward case coming. */
  method WouldMisgrow(ef: ExFat, node: Node, size: nat) returns (b: bool)
    requires ef.Valid() && node in ef.files
    ensures b == Backward(ef, node, size)
  {
    hide ExFat.Valid, ExFat.FileChain, ExFat.Clusters, Bits;
    HasShape(ef);
    OneClusterChain(ef, node);
    if !node.isContiguous || ef.Clusters(node.size) != 1 || ef.Clusters(size) <= 1 || node.startCluster < 3 {
      return false;
    }
    if Get(ef.chunk[..], node.startCluster - 3) {
      return false;
    }
    b := AllButOne(ef, node.startCluster - 3);
  }

  lemma OneClusterChain(ef: ExFat, node: Node)
    requires ef.Valid() && node in ef.files
    ensures |ef.FileChain(node)| == ef.Clusters(node.size)
    ensures ef.Clusters(node.size) == 1 ==>
              ef.FileChain(node) == [node.startCluster] && ValidCluster(ef.count, node.startCluster)
  {
    hide Exclusive, Bits, ExFat.FileChain, ExFat.Clusters, Node.Cursor;
    OwnChain(ef, node);
  }

  /** Whether an operation is one to stop at. */
  method Excepting(ef: ExFat, op: Op) returns (b: bool)
    requires ef.Valid() && op.node in ef.files
    ensures b == Excepted(ef, op)
  {
    hide ExFat.Valid, Backward;
    if Overlong(ef.clusterSize, op) {
      return true;
    }
    b := false;
    match op
    case SetSize(node, size) => b := WouldMisgrow(ef, node, size);
    case Write(node, offset, data) => b := WouldMisgrow(ef, node, offset + |data|);
    case Read(_, _, _) =>
  }

  /** The volume has answered the first operations of a run as flat files would, and can be asked the others. */
  ghost predicate Answered(ef: ExFat, ops: seq<Op>, v0: FlatVolume, answers: seq<Answer>)
    requires forall i :: 0 <= i < |ops| ==> ops[i].node in v0.files
    reads ef, ef.chunk, ef.fat, ef.heap, ef.files
  {
    && ef.Valid() && ef.clusterSize > 0 && |answers| <= |ops|
    && (forall i :: 0 <= i < |ops| ==> Callable(ef, ops[i]))
    && (FlatVolumeOf(ef), answers) == FlatRun(v0, ef.clusterSize, ops[..|answers|])
  }

  method AnswerNext(ef: ExFat, ops: seq<Op>, ghost v0: FlatVolume, answers: seq<Answer>) returns (more: seq<Answer>)
    requires forall i :: 0 <= i < |ops| ==> ops[i].node in v0.files
    requires Answered(ef, ops, v0, answers) && |answers| < |ops| && !Excepted(ef, ops[|answers|])
    modifies ef`dirty, ef.chunk, ef.fat, ef.heap, ef.files
    ensures Answered(ef, ops, v0, more) && |more| == |answers| + 1
  {
    hide Content, ExFat.Valid, ExFat.FileChain, Backward, FreeClusters, FlatStep, FlatVolumeOf, Excepted, FlatRun,
         Callable;
    RunOneMore(v0, ef.clusterSize, ops, |answers|);
    var answer := Perform(ef, ops[|answers|]);
    more := answers + [answer];
  }

  /** Over any run of operations on any files, up to one in the lone backward case or past 2^32 clusters, the volume
      stays consistent and answers exactly as flat files would. */
  method Run(ef: ExFat, ops: seq<Op>, ghost v0: FlatVolume) returns (answers: seq<Answer>)
    requires ef.Valid() && v0 == FlatVolumeOf(ef) && forall i :: 0 <= i < |ops| ==> ops[i].node in v0.files
    requires forall i :: 0 <= i < |ops| ==> Callable(ef, ops[i])
    modifies ef`dirty, ef.chunk, ef.fat, ef.heap, ef.files
    ensures ef.Valid() && |answers| <= |ops| && forall i :: 0 <= i < |ops| ==> Callable(ef, ops[i])
    ensures (FlatVolumeOf(ef), answers) == FlatRun(v0, ef.clusterSize, ops[..|answers|])
    ensures |answers| < |ops| ==> Excepted(ef, ops[|answers|])
  {
    hide Content, ExFat.Valid, ExFat.FileChain, Backward, FreeClusters, FlatVolumeOf, Excepted, FlatRun, Callable,
         Answered;
    answers := [];
    NothingAnswered(ef, ops, v0);
    while |answers| < |ops|
      invariant Answered(ef, ops, v0, answers) && ef.files == old(ef.files) && |answers| <= |ops|
    {
      AnsweredParts(ef, ops, v0, answers);
      var stop := Excepting(ef, ops[|answers|]);
      if stop {
        return;
      }
      answers := AnswerNext(ef, ops, v0, answers);
    }
    AnsweredParts(ef, ops, v0, answers);
  }

  lemma NothingAnswered(ef: ExFat, ops: seq<Op>, v0: FlatVolume)
    requires forall i :: 0 <= i < |ops| ==> ops[i].node in v0.files
    requires ef.Valid() && v0 == FlatVolumeOf(ef) && forall i :: 0 <= i < |ops| ==> Callable(ef, ops[i])
    ensures Answered(ef, ops, v0, [])
  {
    hide FlatVolumeOf, FlatRun, ExFat.Valid, Callable;
    HasClusterSize(ef);
    RunNothing(v0, ef.clusterSize, ops);
  }

  lemma AnsweredParts(ef: ExFat, ops: seq<Op>, v0: FlatVolume, answers: seq<Answer>)
    requires forall i :: 0 <= i < |ops| ==> ops[i].node in v0.files
    requires Answered(ef, ops, v0, answers)
    ensures ef.Valid() && ef.clusterSize > 0 && |answers| <= |ops| && forall i :: 0 <= i < |ops| ==>
            Callable(ef, ops[i])
    ensures (FlatVolumeOf(ef), answers) == FlatRun(v0, ef.clusterSize, ops[..|answers|])
    ensures forall i :: 0 <= i < |ops| ==> ops[i].node in ef.files
  {
    hide FlatVolumeOf, FlatRun, ExFat.Valid;
  }

  /** So a run of sizes that clusters can hold, in which no one-cluster file grows while exactly one cluster is free,
      answers to the end. */
  method RunRoomy(ef: ExFat, ops: seq<Op>, ghost v0: FlatVolume) returns (answers: seq<Answer>)
    requires ef.Valid() && v0 == FlatVolumeOf(ef) && forall i :: 0 <= i < |ops| ==> ops[i].node in v0.files
    requires forall i :: 0 <= i < |ops| ==> Callable(ef, ops[i]) && !Overlong(ef.clusterSize, ops[i])
    requires forall i :: 0 <= i < |ops| ==> !Tight(FlatRun(v0, ef.clusterSize, ops[..i]).0, ef.clusterSize, ops[i])
    modifies ef`dirty, ef.chunk, ef.fat, ef.heap, ef.files
    ensures ef.Valid() && (FlatVolumeOf(ef), answers) == FlatRun(v0, ef.clusterSize, ops)
  {
    hide Content, ExFat.Valid, ExFat.FileChain, Backward, FreeClusters, FlatStep, FlatVolumeOf, Misgrows, Tight,
         FlatRun;
    HasClusterSize(ef);
    answers := Run(ef, ops, v0);
    if |answers| < |ops| {
      MisgrowsOnlyWhenTight(ef, ops[|answers|]);
      assert false;
    }
    assert ops[..|ops|] == ops;
  }

  lemma RunNothing(v: FlatVolume, cs: nat, ops: seq<Op>)
    requires cs > 0
    ensures FlatRun(v, cs, ops[..0]) == (v, [])
  {}

  lemma RunOneMore(v: FlatVolume, cs: nat, ops: seq<Op>, i: nat)
    requires cs > 0 && i < |ops| && forall j :: 0 <= j < |ops| ==> ops[j].node in v.files
    ensures var (v1, answers) := FlatRun(v, cs, ops[..i]);
            ops[i].node in v1.files
            && var (v2, answer) := FlatStep(v1, cs, ops[i]);
               FlatRun(v, cs, ops[..i + 1]) == (v2, answers + [answer])
  {
    hide FlatStep;
    assert ops[..i + 1][..i] == ops[..i] && ops[..i + 1][i] == ops[i];
  }
}
