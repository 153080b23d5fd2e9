/** node.c: finding room for an entry set in an exFAT directory. */
module DirectorySlots {
  import opened Arithmetic

  /** An entry set already in the directory: its offset in bytes, and how many entries follow its first one. */
  datatype Child = Child(offset: nat, continuations: nat)

  /** The entry positions a child occupies. */
  predicate Covers(c: Child, i: nat) {
    c.offset / 32 <= i <= c.offset / 32 + c.continuations
  }

  predicate Taken(children: seq<Child>, i: nat) {
    exists k :: 0 <= k < |children| && Covers(children[k], i)
  }

  /** n entries from s on belong to no child and, in the root directory, are not in use otherwise. */
  predicate Usable(dmap: seq<bool>, valid: seq<bool>, root: bool, s: nat, n: nat) {
    s + n <= |dmap| && forall i :: s <= i < s + n ==> !dmap[i] && (root && i < |valid| ==> !valid[i])
  }

  /** How many entries at the end of the directory belong to no child. */
  function TrailingFree(dmap: seq<bool>): (t: nat)
    ensures t <= |dmap| && (forall i :: |dmap| - t <= i < |dmap| ==> !dmap[i]) && (t < |dmap| ==> dmap[|dmap| - t - 1])
  {
    if dmap == [] || dmap[|dmap| - 1] then 0 else 1 + TrailingFree(dmap[..|dmap| - 1])
  }

  function RoundUp(x: nat, d: nat): nat
    requires d > 0
  {
    (x + d - 1) / d * d
  }

  /** The bitmap of entries in use by cached children. */
  method BuildMap(children: seq<Child>, count: nat) returns (used: array<bool>)
    requires forall k :: 0 <= k < |children| ==> children[k].offset / 32 + children[k].continuations < count
    ensures fresh(used) && used.Length == count
    ensures forall i :: 0 <= i < count ==> (used[i] <==> Taken(children, i))
  {
    used := new bool[count](i => false);
    for k := 0 to |children|
      invariant forall i :: 0 <= i < count ==> (used[i] <==> Taken(children[..k], i))
    {
      var p := children[k];
      for i := 0 to 1 + p.continuations
        invariant forall j :: 0 <= j < count ==>
                    (used[j] <==> Taken(children[..k], j) || p.offset / 32 <= j < p.offset / 32 + i)
      {
        used[p.offset / 32 + i] := true;
      }
      forall j | 0 <= j < count ensures used[j] <==> Taken(children[..k + 1], j) {
        TakenByOneMore(children, k, j);
      }
    }
    assert children[..|children|] == children;
  }

  lemma TakenByOneMore(children: seq<Child>, k: nat, i: nat)
    requires k < |children|
    ensures Taken(children[..k + 1], i) <==> Taken(children[..k], i) || Covers(children[k], i)
  {
    var more, less := children[..k + 1], children[..k];
    assert more[k] == children[k] && forall j :: 0 <= j < k ==> more[j] == less[j];
  }

  /** check_slot: only the root directory holds entries that no child accounts for. */
  method CheckSlot(valid: seq<bool>, root: bool, s: nat, n: nat) returns (free: bool)
    requires s + n <= |valid|
    ensures free <==> !root || forall i :: s <= i < s + n ==> !valid[i]
  {
    if !root {
      return true;
    }
    for i := 0 to n
      invariant forall j :: s <= j < s + i ==> !valid[j]
    {
      if valid[s + i] {
        return false;
      }
    }
    free := true;
  }

  /**
   * find_slot. valid says which entries are in use on the disk. The index moves back when a run turns out to be
   * occupied, yet the first candidate always moves on.
   */
  method FindSlot(children: seq<Child>, valid: seq<bool>, root: bool, n: nat, size: nat, clusterSize: nat)
      returns (found: bool, offset: nat, newSize: nat, ghost used: seq<bool>)
    requires n > 0 && clusterSize > 0 && size == |valid| * 32
    requires forall k :: 0 <= k < |children| ==> children[k].offset / 32 + children[k].continuations < |valid|
    ensures |used| == |valid| && forall i :: 0 <= i < |used| ==> (used[i] <==> Taken(children, i))
    ensures found <==> exists s :: Usable(used, valid, root, s, n)
    ensures found ==> newSize == size && offset % 32 == 0 && Usable(used, valid, root, offset / 32, n)
                      && forall s :: 0 <= s < offset / 32 ==> !Usable(used, valid, root, s, n)
    ensures !found ==> var tail := Min(TrailingFree(used), n - 1);
                       offset == size - tail * 32 && newSize == RoundUp(size + (n - tail) * 32, clusterSize)
    ensures !found ==> (TailOverwritten(valid, offset / 32) <==> TailInUse(children, valid, n))
  {
    hide Usable, TrailingFree, RoundUp, Min, Taken, TailOverwritten, TailInUse;
    var dmap := BuildMap(children, |valid|);
    used := dmap[..];
    var contiguous: nat, i: nat := 0, 0;
    offset, newSize, found := 0, size, false;
    while i < |valid|
      invariant i <= |valid| && contiguous <= i && contiguous < n && dmap[..] == used
      invariant contiguous > 0 ==> offset == (i - contiguous) * 32
      invariant forall j :: i - contiguous <= j < i ==> !used[j]
      invariant forall s :: 0 <= s < i - contiguous ==> !Usable(used, valid, root, s, n)
      invariant i == contiguous || used[i - contiguous - 1] || i - contiguous + n <= |valid| + 1
      decreases |valid| - (i - contiguous), n - contiguous
    {
      if !dmap[i] {
        if contiguous == 0 {
          offset := i * 32;
        }
        contiguous := contiguous + 1;
        if contiguous == n {
          var free := CheckSlot(valid, root, offset / 32, n);
          Candidate(used, valid, root, i + 1 - n, n);
          if free {
            found := true;
            return;
          }
          i := i - (contiguous - 1);
          contiguous := 0;
        }
      } else {
        Blocked(used, valid, root, i - contiguous, n, i);
        contiguous := 0;
      }
      i := i + 1;
    }
    TooLate(used, valid, root, i - contiguous, n);
    if contiguous == 0 {
      offset := size;
    }
    newSize := RoundUp(size + (n - contiguous) * 32, clusterSize);
    TailLength(used, contiguous, n);
    TailIsOverwritten(children, used, valid, n);
  }

  /** A run that belongs to no child is usable exactly when check_slot finds it free. */
  lemma Candidate(used: seq<bool>, valid: seq<bool>, root: bool, s: nat, n: nat)
    requires |used| == |valid| && s + n <= |used| && forall i :: s <= i < s + n ==> !used[i]
    ensures Usable(used, valid, root, s, n) <==> !root || forall i :: s <= i < s + n ==> !valid[i]
  {}

  /** No run of n entries from first or later can pass an entry in use less than n behind it. */
  lemma Blocked(used: seq<bool>, valid: seq<bool>, root: bool, first: nat, n: nat, i: nat)
    requires first <= i < first + n && i < |used| && used[i]
    ensures forall s :: first <= s <= i ==> !Usable(used, valid, root, s, n)
  {}

  lemma TooLate(used: seq<bool>, valid: seq<bool>, root: bool, first: nat, n: nat)
    requires first + n > |used|
    ensures forall s :: first <= s ==> !Usable(used, valid, root, s, n)
  {}

  lemma TailLength(dmap: seq<bool>, t: nat, n: nat)
    requires t < n && t <= |dmap| && forall i :: |dmap| - t <= i < |dmap| ==> !dmap[i]
    requires t == |dmap| || dmap[|dmap| - t - 1] || |dmap| - t + n <= |dmap| + 1
    ensures t == Min(TrailingFree(dmap), n - 1)
  {
    assert !(TrailingFree(dmap) < t);
  }

  lemma RoundUpCovers(x: nat, d: nat)
    requires d > 0
    ensures RoundUp(x, d) >= x && RoundUp(x, d) % d == 0
  {
    DivMod(x + d - 1, d);
    DivModUnique((x + d - 1) / d, 0, d);
  }

  /** The slot of an extended directory ends within its new, cluster-aligned size, and takes no entry from any child. */
  lemma ExtensionFits(children: seq<Child>, used: seq<bool>, n: nat, size: nat, clusterSize: nat)
    requires n > 0 && clusterSize > 0 && size == |used| * 32
    requires forall i :: 0 <= i < |used| ==> (used[i] <==> Taken(children, i))
    ensures var tail := Min(TrailingFree(used), n - 1);
            var first, newSize := |used| - tail, RoundUp(size + (n - tail) * 32, clusterSize);
            && (first + n) * 32 <= newSize && newSize % clusterSize == 0
            && forall i :: first <= i < |used| ==> !Taken(children, i)
  {
    RoundUpCovers(size + (n - Min(TrailingFree(used), n - 1)) * 32, clusterSize);
  }

  /** An entry in use that no child accounts for, less than n from the end and with no child's entry behind it. */
  predicate TailInUse(children: seq<Child>, valid: seq<bool>, n: nat) {
    exists i :: 0 <= i < |valid| && |valid| - n < i && valid[i] && forall j :: i <= j < |valid| ==> !Taken(children, j)
  }

  /** The free tail of the directory, as far as a new set reaches into it. */
  predicate TailOverwritten(valid: seq<bool>, first: nat) {
    exists i :: first <= i < |valid| && valid[i]
  }

  /** The tail is not checked again when the directory is extended, so entries there are overwritten. */
  lemma TailIsOverwritten(children: seq<Child>, used: seq<bool>, valid: seq<bool>, n: nat)
    requires |used| == |valid| && n > 0 && forall i :: 0 <= i < |used| ==> (used[i] <==> Taken(children, i))
    ensures TailOverwritten(valid, |valid| - Min(TrailingFree(used), n - 1)) <==> TailInUse(children, valid, n)
  {
    var first := |valid| - Min(TrailingFree(used), n - 1);
    if TailOverwritten(valid, first) {
      var i :| first <= i < |valid| && valid[i];
      assert forall j :: i <= j < |valid| ==> !used[j];
    }
    if TailInUse(children, valid, n) {
      var i :| 0 <= i < |valid| && |valid| - n < i && valid[i] && forall j :: i <= j < |valid| ==> !Taken(children, j);
      assert forall j :: i <= j < |valid| ==> !used[j];
      assert TrailingFree(used) >= |used| - i;
    }
  }

  /** It happens: a full root directory whose last entry is not a file's. */
  lemma RootTailIsNotChecked(children: seq<Child>, used: seq<bool>, valid: seq<bool>, n: nat)
    requires |used| == |valid| > 0 && n > 1 && forall i :: 0 <= i < |used| ==> (used[i] <==> Taken(children, i))
    requires (forall i :: 0 <= i < |used| - 1 ==> used[i]) && !used[|used| - 1] && valid[|used| - 1]
    ensures TailInUse(children, valid, n) && forall s :: 0 <= s ==> !Usable(used, valid, true, s, n)
  {
    assert valid[|valid| - 1] && !Taken(children, |valid| - 1);
    forall s: nat ensures !Usable(used, valid, true, s, n) {
      if s + n <= |used| {
        assert used[s] || s == |used| - 1;
      }
    }
  }
}
