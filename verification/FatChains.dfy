/** FAT16 and FAT32 tables as sequences of raw entries, and what following, freeing and extending chains means on
    them. */
module FatChains {

  datatype Kind = Fat16 | Fat32

  /** FAT32_LAST_CLUSTER, the end of every chain; also what a failed lookup returns. */
  const LAST: nat := 0xffffffff

  /** The part of a raw entry that names a cluster: FAT32 ignores the top four bits. */
  function Masked(k: Kind, raw: nat): nat {
    if k.Fat32? then raw % 0x10000000 else raw
  }

  /** What a table keeps of a value written to it. */
  function Stored(k: Kind, v: nat): nat {
    if k.Fat16? then v % 0x10000 else v
  }

  /** First value that ends a chain. */
  function EndMark(k: Kind): nat {
    if k.Fat32? then 0x0ffffff8 else 0xfff8
  }

  /** fatfs_find_next_cluster on a readable table. */
  function Next(k: Kind, t: seq<nat>, c: nat): nat
    requires (if c == 0 then 2 else c) < |t|
  {
    var m := Masked(k, t[if c == 0 then 2 else c]);
    if m >= EndMark(k) then LAST else m
  }

  function Last(s: seq<nat>): nat
    requires s != []
  {
    s[|s| - 1]
  }

  predicate NoDup(s: seq<nat>) {
    forall i, j :: 0 <= i < j < |s| ==> s[i] != s[j]
  }

  /** Each entry of s links to the next one, and the last one leads to end. */
  predicate Path(k: Kind, t: seq<nat>, s: seq<nat>, end: nat) {
    && s != [] && NoDup(s)
    && (forall i :: 0 <= i < |s| ==> 2 <= s[i] < |t|)
    && (forall i :: 0 <= i < |s| - 1 ==> Next(k, t, s[i]) == s[i + 1])
    && Next(k, t, s[|s| - 1]) == end
  }

  /** A well-formed chain. */
  predicate IsChain(k: Kind, t: seq<nat>, s: seq<nat>) {
    Path(k, t, s, LAST)
  }

  predicate Disjoint(a: seq<nat>, b: seq<nat>) {
    forall c :: c in a ==> c !in b
  }

  /** Two tables agree on the entries of s. */
  predicate AgreeOn(t: seq<nat>, u: seq<nat>, s: seq<nat>) {
    |t| == |u| && forall c :: c in s && c < |t| ==> u[c] == t[c]
  }

  /** A chain is a property of its own entries only. */
  lemma ChainElsewhere(k: Kind, t: seq<nat>, u: seq<nat>, s: seq<nat>)
    requires IsChain(k, t, s) && AgreeOn(t, u, s)
    ensures IsChain(k, u, s)
  {}

  /** No entry of a chain is free. */
  lemma BusyInChain(k: Kind, t: seq<nat>, s: seq<nat>, c: nat)
    requires IsChain(k, t, s) && c in s
    ensures 2 <= c < |t| && Masked(k, t[c]) != 0
  {
    var i :| 0 <= i < |s| && s[i] == c;
    if i < |s| - 1 {
      assert Next(k, t, s[i]) == s[i + 1];
    }
  }

  lemma NonEmpty(k: Kind, t: seq<nat>, s: seq<nat>)
    requires IsChain(k, t, s)
    ensures s != [] && Last(s) in s && 2 <= Last(s) < |t|
  {}

  // ---- Freeing ----

  /** A set of clusters that links never leave. */
  predicate Closed(k: Kind, t: seq<nat>, r: set<nat>) {
    forall c :: c in r ==> 0 < c < |t| && (Next(k, t, c) in {0, LAST} || Next(k, t, c) in r)
  }

  /** No entry links past the end of the table. */
  predicate LinksInside(k: Kind, t: seq<nat>) {
    forall c :: 0 < c < |t| ==> Next(k, t, c) in {0, LAST} || Next(k, t, c) < |t|
  }

  /** All entries but the first. */
  function Entries(n: nat): (r: set<nat>)
    ensures forall c :: c in r <==> 0 < c < n
  {
    if n <= 1 then {} else Entries(n - 1) + {n - 1}
  }

  /** Links that stay inside never leave the set of all entries: on such a table every chain can be freed, cyclic ones
      included. */
  lemma AllEntriesClosed(k: Kind, t: seq<nat>)
    ensures LinksInside(k, t) <==> Closed(k, t, Entries(|t|))
  {
    assert forall c :: 0 < c < |t| ==> c in Entries(|t|);
  }

  /** A table whose entries 2 and 3 lead to each other is one. */
  lemma CycleIsInside(k: Kind)
    ensures LinksInside(k, [0, 0, 3, 2]) && Trail(k, [0, 0, 3, 2], 2, Entries(4)) == [2, 3]
  {
    var t, r := [0, 0, 3, 2], Entries(4);
    assert Next(k, t, 2) == 3 && Next(k, t, 3) == 2;
    assert Trail(k, t, 3, r - {2}) == [3] + Trail(k, t, 2, r - {2} - {3});
    assert Trail(k, t, 2, r - {2} - {3}) == [];
  }

  /** The clusters met by following links from c until they end, or would be met twice. */
  function Trail(k: Kind, t: seq<nat>, c: nat, r: set<nat>): (s: seq<nat>)
    requires forall x :: x in r ==> 0 < x < |t|
    ensures forall x :: x in s ==> x in r
    decreases r
  {
    if c in r then [c] + Trail(k, t, Next(k, t, c), r - {c}) else []
  }

  /** Freeing every entry in s. */
  function Zeroed(t: seq<nat>, s: seq<nat>): (u: seq<nat>)
    ensures |u| == |t|
    ensures forall c :: 0 <= c < |t| ==> u[c] == if c in s then 0 else t[c]
  {
    seq(|t|, c requires 0 <= c < |t| => if c in s then 0 else t[c])
  }

  /** One step of freeing: the entry just cleared is the next one of the trail, and its link was still the original
      one. */
  lemma FreeStep(k: Kind, t: seq<nat>, trail: seq<nat>, i: nat, c: nat, left: set<nat>)
    requires i <= |trail| && (forall x :: x in left ==> 0 < x < |t| && x !in trail[..i])
    requires c in left && Trail(k, t, c, left) == trail[i..]
    ensures i < |trail| && trail[i] == c && Trail(k, t, Next(k, t, c), left - {c}) == trail[i + 1..]
    ensures Zeroed(t, trail[..i])[c := 0] == Zeroed(t, trail[..i + 1])
    ensures Next(k, Zeroed(t, trail[..i]), c) == Next(k, t, c)
    ensures forall x :: x in trail[..i + 1] <==> x in trail[..i] || x == c
  {
    var rest := Trail(k, t, Next(k, t, c), left - {c});
    assert trail[i..] == [c] + rest;
    assert trail[i] == trail[i..][0] && trail[i + 1..] == trail[i..][1..] && ([c] + rest)[1..] == rest;
    assert trail[..i + 1] == trail[..i] + [c];
  }

  /** A cluster met again is free by then, so the walk ends there. */
  lemma MetAgain(k: Kind, t: seq<nat>, done: seq<nat>, c: nat)
    requires c in done && 0 < c < |t|
    ensures Zeroed(t, done)[c := 0] == Zeroed(t, done) && Next(k, Zeroed(t, done), c) == 0
  {}

  lemma TrailEnds(k: Kind, t: seq<nat>, c: nat, r: set<nat>)
    requires c !in r && forall x :: x in r ==> 0 < x < |t|
    ensures Trail(k, t, c, r) == []
  {}

  lemma ZeroedNone(t: seq<nat>)
    ensures Zeroed(t, []) == t
  {}

  /** The trail visits no cluster twice and follows the links; it stops at an end, at a free entry or where it closes
      on itself. */
  lemma {:induction false} TrailFollowsLinks(k: Kind, t: seq<nat>, c: nat, r: set<nat>, all: set<nat>)
    requires Closed(k, t, all) && r <= all && (c in all || c in {0, LAST})
    ensures var s := Trail(k, t, c, r);
            && NoDup(s) && (s != [] ==> s[0] == c) && (forall i :: 0 <= i < |s| ==> s[i] in all)
            && (forall i :: 0 <= i < |s| - 1 ==> Next(k, t, s[i]) == s[i + 1])
            && (c in r ==> var e := Next(k, t, s[|s| - 1]); e in {0, LAST} || e in s || e in all - r)
    decreases r
  {
    if c in r {
      var rest := Trail(k, t, Next(k, t, c), r - {c});
      TrailFollowsLinks(k, t, Next(k, t, c), r - {c}, all);
      var s := [c] + rest;
      assert s == Trail(k, t, c, r);
      if rest != [] {
        assert s[|s| - 1] == rest[|rest| - 1];
      }
    }
  }

  /** What n links lead to from c, for links that stay inside the table until they end. */
  function Reached(k: Kind, t: seq<nat>, c: nat, n: nat): nat {
    if n == 0 then c
    else
      var p := Reached(k, t, c, n - 1);
      if 0 < p < |t| then Next(k, t, p) else p
  }

  /** Following links ends exactly when they do not close on themselves: there is no other way to go on for ever. */
  lemma WalkEndsExactly(k: Kind, t: seq<nat>, c: nat, r: set<nat>)
    requires |t| <= LAST && Closed(k, t, r) && c in r
    ensures var s := Trail(k, t, c, r);
            && s != [] && s[|s| - 1] in r
            && ((exists n :: Reached(k, t, c, n) in {0, LAST}) <==> Next(k, t, s[|s| - 1]) in {0, LAST})
  {
    hide Next;
    var s := Trail(k, t, c, r);
    TrailFollowsLinks(k, t, c, r, r);
    var e := Next(k, t, s[|s| - 1]);
    if e in {0, LAST} {
      AlongTrail(k, t, c, s, |s| - 1);
      assert Reached(k, t, c, |s|) == e && Reached(k, t, c, |s|) in {0, LAST};
    } else {
      forall n: nat ensures Reached(k, t, c, n) !in {0, LAST} {
        RoundAndRound(k, t, c, s, n);
      }
    }
  }

  lemma {:induction false} AlongTrail(k: Kind, t: seq<nat>, c: nat, s: seq<nat>, n: nat)
    requires n < |s| && s[0] == c && forall i :: 0 <= i < |s| ==> 0 < s[i] < |t|
    requires forall i :: 0 <= i < |s| - 1 ==> Next(k, t, s[i]) == s[i + 1]
    ensures Reached(k, t, c, n) == s[n]
  {
    if n > 0 {
      AlongTrail(k, t, c, s, n - 1);
      assert Next(k, t, s[n - 1]) == s[n - 1 + 1];
    }
  }

  lemma {:induction false} RoundAndRound(k: Kind, t: seq<nat>, c: nat, s: seq<nat>, n: nat)
    requires s != [] && s[0] == c && |t| <= LAST && forall i :: 0 <= i < |s| ==> 0 < s[i] < |t|
    requires forall i :: 0 <= i < |s| - 1 ==> Next(k, t, s[i]) == s[i + 1]
    requires Next(k, t, s[|s| - 1]) in s
    ensures Reached(k, t, c, n) in s
  {
    hide Next;
    if n > 0 {
      RoundAndRound(k, t, c, s, n - 1);
      var i :| 0 <= i < |s| && s[i] == Reached(k, t, c, n - 1);
      if i < |s| - 1 {
        assert s[i + 1] in s;
      }
    }
  }

  /** Along a well-formed chain the trail is the chain itself. */
  lemma {:induction false} ChainTrail(k: Kind, t: seq<nat>, s: seq<nat>, r: set<nat>)
    requires IsChain(k, t, s)
    requires forall x :: x in r ==> 0 < x < |t|
    requires LAST !in r && forall c :: c in s ==> c in r
    ensures Trail(k, t, s[0], r) == s
  {
    if |s| == 1 {
      assert s == [s[0]];
    } else {
      var rest := s[1..];
      assert IsChain(k, t, rest);
      ChainTrail(k, t, rest, r - {s[0]});
      assert s == [s[0]] + rest;
    }
  }

  /** The clusters of a well-formed chain are closed under links. */
  lemma ChainIsClosed(k: Kind, t: seq<nat>, s: seq<nat>)
    requires IsChain(k, t, s)
    ensures Closed(k, t, set c | c in s)
  {
    var r := set c | c in s;
    forall c | c in r ensures 0 < c < |t| && (Next(k, t, c) in {0, LAST} || Next(k, t, c) in r) {
      var i :| 0 <= i < |s| && s[i] == c;
      if i < |s| - 1 {
        assert s[i + 1] in s;
      }
    }
  }

  /** Freeing a set of entries leaves every chain disjoint from it as it was. */
  lemma FreeKeepsOthers(k: Kind, t: seq<nat>, s: seq<nat>, other: seq<nat>)
    requires IsChain(k, t, other) && Disjoint(s, other)
    ensures IsChain(k, Zeroed(t, s), other)
  {
    ChainElsewhere(k, t, Zeroed(t, s), other);
  }

  // ---- Extending ----

  /** First free entry at or after start; the table's size when there is none. */
  function Blank(k: Kind, t: seq<nat>, start: nat): (b: nat)
    ensures b <= |t|
    ensures b < |t| ==> start <= b && Masked(k, t[b]) == 0
    ensures forall c :: start <= c < b ==> Masked(k, t[c]) != 0
    decreases |t| - start
  {
    if start >= |t| then |t| else if Masked(k, t[start]) == 0 then start else Blank(k, t, start + 1)
  }

  /** Link tail to e and end the chain there. */
  function Linked(k: Kind, t: seq<nat>, tail: nat, e: nat): (u: seq<nat>)
    requires tail < |t| && e < |t|
    ensures |u| == |t|
  {
    t[tail := Stored(k, e)][e := Stored(k, LAST)]
  }

  lemma LastIsLast(k: Kind)
    ensures Masked(k, Stored(k, LAST)) >= EndMark(k)
  {}

  lemma StoredReadsBack(k: Kind, e: nat)
    requires e < EndMark(k)
    ensures Masked(k, Stored(k, e)) == e
  {}

  /** Appending a free entry gives a longer well-formed chain exactly when its number is below the end marks. */
  lemma Append(k: Kind, t: seq<nat>, s: seq<nat>, e: nat)
    requires IsChain(k, t, s) && 2 <= e < |t| <= LAST && Masked(k, t[e]) == 0
    ensures e !in s
    ensures IsChain(k, Linked(k, t, s[|s| - 1], e), s + [e]) <==> e < EndMark(k)
  {
    var tail := s[|s| - 1];
    var u, s' := Linked(k, t, tail, e), s + [e];
    if e in s {
      BusyInChain(k, t, s, e);
      assert false;
    }
    LastIsLast(k);
    assert Next(k, u, e) == LAST;
    assert s'[|s| - 1] == tail && s'[|s|] == e && forall i :: 0 <= i < |s| ==> s'[i] == s[i];
    forall i | 0 <= i < |s| - 1 ensures Next(k, u, s'[i]) == s'[i + 1] {
      assert s[i] != tail && u[s[i]] == t[s[i]];
    }
    if e < EndMark(k) {
      StoredReadsBack(k, e);
      assert Next(k, u, tail) == e;
    } else {
      assert Next(k, u, s'[|s| - 1]) != e;
    }
  }

  /** fatfs_add_free_space on a table: up to n blank entries from root on, each linked behind the one before. */
  function Grown(k: Kind, t: seq<nat>, root: nat, tail: nat, n: nat): (r: (seq<nat>, seq<nat>))
    requires tail < |t|
    ensures |r.0| == |t| && |r.1| <= n
    decreases n
  {
    var b := Blank(k, t, root);
    if n == 0 || b == |t| then (t, [])
    else
      var r := Grown(k, Linked(k, t, tail, b), root, b, n - 1);
      (r.0, [b] + r.1)
  }

  lemma GrownUnfold(k: Kind, t: seq<nat>, root: nat, tail: nat, n: nat, taken: seq<nat>)
    requires tail < |t| && n > 0 && Blank(k, t, root) < |t|
    ensures var b := Blank(k, t, root);
            var r := Grown(k, Linked(k, t, tail, b), root, b, n - 1);
            var whole := Grown(k, t, root, tail, n);
            whole.0 == r.0 && taken + whole.1 == taken + [b] + r.1
  {
    var b := Blank(k, t, root);
    var r := Grown(k, Linked(k, t, tail, b), root, b, n - 1);
    assert taken + ([b] + r.1) == taken + [b] + r.1;
  }

  lemma GrownOnce(k: Kind, t: seq<nat>, root: nat, tail: nat)
    requires tail < |t|
    ensures var b := Blank(k, t, root);
            Grown(k, t, root, tail, 1) == if b == |t| then (t, []) else (Linked(k, t, tail, b), [b])
  {
    var b := Blank(k, t, root);
    if b < |t| {
      assert Grown(k, Linked(k, t, tail, b), root, b, 0) == (Linked(k, t, tail, b), []);
      assert [b] + [] == [b];
    }
  }

  /** Every blank entry from root on is a data cluster. */
  predicate BlanksUsable(k: Kind, t: seq<nat>, root: nat) {
    forall c :: root <= c < |t| && Masked(k, t[c]) == 0 ==> 2 <= c < EndMark(k)
  }

  lemma LinkKeepsUsable(k: Kind, t: seq<nat>, root: nat, tail: nat, b: nat)
    requires BlanksUsable(k, t, root) && tail < |t| && root <= b < |t| && Masked(k, t[b]) == 0
    ensures 2 <= b < EndMark(k) && BlanksUsable(k, Linked(k, t, tail, b), root)
    ensures forall c :: 0 <= c < |t| && Masked(k, Linked(k, t, tail, b)[c]) == 0 ==>
            Masked(k, t[c]) == 0 && c != b && c != tail
    ensures forall c :: 0 <= c < |t| && c != tail && c != b ==> Linked(k, t, tail, b)[c] == t[c]
  {
    StoredReadsBack(k, b);
    LastIsLast(k);
  }

  /** Growing a chain appends distinct entries that were free, as many as asked unless the table runs out, and
      touches nothing else. */
  lemma {:induction false} GrowAppends(k: Kind, t: seq<nat>, root: nat, s: seq<nat>, n: nat)
    requires IsChain(k, t, s) && |t| <= LAST && BlanksUsable(k, t, root)
    ensures var r := Grown(k, t, root, Last(s), n);
            && IsChain(k, r.0, s + r.1)
            && (forall c :: c in r.1 ==> root <= c < |t| && Masked(k, t[c]) == 0)
            && (forall c :: 0 <= c < |t| && c != Last(s) && c !in r.1 ==> r.0[c] == t[c])
            && (|r.1| == n || forall c :: root <= c < |t| ==> Masked(k, r.0[c]) != 0)
    decreases n
  {
    hide IsChain, Path, Next, Linked, Masked, Stored, BlanksUsable;
    NonEmpty(k, t, s);
    BusyInChain(k, t, s, Last(s));
    var b := Blank(k, t, root);
    if n == 0 || b == |t| {
      assert s + [] == s;
    } else {
      LinkKeepsUsable(k, t, root, Last(s), b);
      Append(k, t, s, b);
      var t', s' := Linked(k, t, Last(s), b), s + [b];
      GrowAppends(k, t', root, s', n - 1);
      var r := Grown(k, t', root, b, n - 1);
      assert Last(s') == b && s' + r.1 == s + ([b] + r.1);
      assert Grown(k, t, root, Last(s), n) == (r.0, [b] + r.1);
    }
  }

  /** fatfs_allocate_free_space for a new file: the first blank entry, linked behind itself, starts its own chain. */
  lemma NewChain(k: Kind, t: seq<nat>, root: nat, n: nat)
    requires |t| <= LAST && BlanksUsable(k, t, root) && n > 0 && Blank(k, t, root) < |t|
    ensures var b := Blank(k, t, root);
            var r := Grown(k, t, root, b, n);
            && r.1 != [] && r.1[0] == b && IsChain(k, r.0, r.1)
            && (forall c :: c in r.1 ==> root <= c < |t| && Masked(k, t[c]) == 0)
            && (forall c :: 0 <= c < |t| && c !in r.1 ==> r.0[c] == t[c])
            && (|r.1| == n || forall c :: root <= c < |t| ==> Masked(k, r.0[c]) != 0)
  {
    var b := Blank(k, t, root);
    var u := Linked(k, t, b, b);
    hide Masked, Linked, Stored, BlanksUsable, IsChain, Next, Blank, Grown;
    LinkKeepsUsable(k, t, root, b, b);
    OneIsChain(k, t, b);
    GrowAppends(k, u, root, [b], n - 1);
    GrownUnfold(k, t, root, b, n, []);
    NewOnly(k, t, u, root, b, n, Grown(k, u, root, b, n - 1), Grown(k, t, root, b, n));
  }

  lemma NewOnly(k: Kind, t: seq<nat>, u: seq<nat>, root: nat, b: nat, n: nat, r: (seq<nat>, seq<nat>),
      whole: (seq<nat>, seq<nat>))
    requires |t| == |u| == |r.0| && root <= b < |t| && Masked(k, t[b]) == 0 && n > 0
    requires forall c :: 0 <= c < |t| && Masked(k, u[c]) == 0 ==> Masked(k, t[c]) == 0
    requires forall c :: 0 <= c < |t| && c != b ==> u[c] == t[c]
    requires forall c :: c in r.1 ==> root <= c < |t| && Masked(k, u[c]) == 0
    requires forall c :: 0 <= c < |t| && c != b && c !in r.1 ==> r.0[c] == u[c]
    requires |r.1| == n - 1 || forall c :: root <= c < |t| ==> Masked(k, r.0[c]) != 0
    requires whole.0 == r.0 && [] + whole.1 == [] + [b] + r.1
    ensures whole.1 == [b] + r.1
    ensures forall c :: c in whole.1 ==> root <= c < |t| && Masked(k, t[c]) == 0
    ensures forall c :: 0 <= c < |t| && c !in whole.1 ==> whole.0[c] == t[c]
    ensures |whole.1| == n || forall c :: root <= c < |t| ==> Masked(k, whole.0[c]) != 0
  {
    hide Masked;
    assert [] + whole.1 == whole.1;
  }

  lemma OneIsChain(k: Kind, t: seq<nat>, b: nat)
    requires 2 <= b < |t|
    ensures IsChain(k, Linked(k, t, b, b), [b])
  {
    LastIsLast(k);
  }

  /** Chains that share nothing with the grown one read the same afterwards and are still disjoint from it. */
  lemma GrowKeepsOthers(k: Kind, t: seq<nat>, root: nat, s: seq<nat>, n: nat, other: seq<nat>)
    requires IsChain(k, t, s) && |t| <= LAST && BlanksUsable(k, t, root)
    requires IsChain(k, t, other) && Disjoint(s, other)
    ensures var r := Grown(k, t, root, Last(s), n);
            IsChain(k, r.0, other) && Disjoint(s + r.1, other)
  {
    GrowAppends(k, t, root, s, n);
    var r := Grown(k, t, root, Last(s), n);
    forall c | c in other ensures c !in r.1 && c != Last(s) {
      BusyInChain(k, t, other, c);
      assert Last(s) in s;
    }
    ChainElsewhere(k, t, r.0, other);
  }

  /** Freeing what was grown and cutting the chain back gives every entry of the table its free or busy state back. */
  lemma GrowThenFreeTail(k: Kind, t: seq<nat>, root: nat, s: seq<nat>, n: nat)
    requires IsChain(k, t, s) && |t| <= LAST && BlanksUsable(k, t, root)
    ensures var r := Grown(k, t, root, Last(s), n);
            var u := Zeroed(r.0, r.1);
            forall c :: 0 <= c < |t| ==> (Masked(k, u[c]) == 0 <==> Masked(k, t[c]) == 0)
  {
    GrowAppends(k, t, root, s, n);
    var r := Grown(k, t, root, Last(s), n);
    BusyInChain(k, t, s, Last(s));
    assert (s + r.1)[|s| - 1] == Last(s);
    BusyInChain(k, r.0, s + r.1, Last(s));
  }
}
