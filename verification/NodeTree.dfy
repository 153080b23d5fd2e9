/** node.c: the tree of cached nodes, and what a rename does to it. */
module NodeTree {

  const EINVAL: int := 22
  const ENOTDIR: int := 20
  const EISDIR: int := 21
  const ENOTEMPTY: int := 39

  class Node {
    const isDir: bool
    var parent: Node?
    var child: Node?
    var next: Node?
    var prev: Node?

    constructor (isDir: bool)
      ensures this.isDir == isDir && parent == null && child == null && next == null && prev == null
    {
      this.isDir, parent, child, next, prev := isDir, null, null, null, null;
    }

    ghost function Now(): Links
      reads this
    {
      Links(parent, child, next, prev)
    }
  }

  /** The four links of a node, as a value. */
  datatype Links = Links(parent: Node?, child: Node?, next: Node?, prev: Node?)

  type Graph = map<Node, Links>

  // ---- What a well-formed forest is ----

  /** Distinct nodes that all have d as their parent. */
  ghost predicate Siblings(m: Graph, d: Node, l: seq<Node>) {
    && (forall i :: 0 <= i < |l| ==> l[i] in m && m[l[i]].parent == d)
    && (forall i, j :: 0 <= i < j < |l| ==> l[i] != l[j])
  }

  /** child, next and prev run through l. */
  ghost predicate Threaded(m: Graph, d: Node, l: seq<Node>) {
    && d in m && m[d].child == (if l == [] then null else l[0])
    && (forall i :: 0 <= i < |l| ==> l[i] in m && m[l[i]].next == NextOf(l, i) && m[l[i]].prev == PrevOf(l, i))
  }

  function NextOf(l: seq<Node>, i: nat): Node?
    requires i < |l|
  {
    if i + 1 < |l| then l[i + 1] else null
  }

  function PrevOf(l: seq<Node>, i: nat): Node?
    requires i < |l|
  {
    if i > 0 then l[i - 1] else null
  }

  /** Every directory's child list holds exactly its children; files have none. */
  ghost predicate Listed(m: Graph, kids: map<Node, seq<Node>>) {
    && kids.Keys == m.Keys
    && (forall d :: d in m ==> Siblings(m, d, kids[d]))
    && (forall d :: d in m ==> Threaded(m, d, kids[d]))
    && (forall d :: d in m && !d.isDir ==> kids[d] == [])
  }

  /** Nodes without a parent are the roots; every other node is in its parent's list. */
  ghost predicate Rooted(m: Graph, roots: set<Node>, kids: map<Node, seq<Node>>)
    requires kids.Keys == m.Keys
  {
    && roots <= m.Keys
    && (forall n :: n in m && n in roots ==> m[n].parent == null && m[n].next == null && m[n].prev == null)
    && (forall n :: n in m && n !in roots ==> m[n].parent != null && m[n].parent in m && n in kids[m[n].parent])
  }

  /** A number that grows from every parent to its children: parent links cannot run in a circle. */
  ghost predicate Ranked(m: Graph, rank: map<Node, nat>) {
    && rank.Keys == m.Keys
    && forall n :: n in m && m[n].parent != null && m[n].parent in m ==> rank[m[n].parent] < rank[n]
  }

  // ---- tree_detach and tree_attach on values ----

  function Detached(m: Graph, node: Node): Graph
    requires node in m && m[node].parent != null && m[node].parent in m
    requires m[node].prev != null ==> m[node].prev in m
    requires m[node].next != null ==> m[node].next in m
  {
    var x := m[node];
    var m1 := if x.prev != null then var p: Node := x.prev; m[p := m[p].(next := x.next)]
              else var d: Node := x.parent; m[d := m[d].(child := x.next)];
    var m2 := if x.next != null then var n: Node := x.next; m1[n := m1[n].(prev := x.prev)] else m1;
    m2[node := m2[node].(parent := null, prev := null, next := null)]
  }

  function Attached(m: Graph, dir: Node, node: Node): Graph
    requires dir in m && node in m && node != dir && (m[dir].child != null ==> m[dir].child in m)
  {
    var m1 := m[node := m[node].(parent := dir)];
    var m2 := if m1[dir].child != null then
                var c: Node := m1[dir].child;
                var w := m1[c := m1[c].(prev := node)];
                w[node := w[node].(next := c)]
              else m1;
    m2[dir := m2[dir].(child := node)]
  }

  function Without(l: seq<Node>, k: nat): (r: seq<Node>)
    requires k < |l|
    ensures |r| == |l| - 1
    ensures forall i :: 0 <= i < |r| ==> r[i] == l[if i < k then i else i + 1]
  {
    l[..k] + l[k + 1..]
  }

  lemma ListAt(m: Graph, kids: map<Node, seq<Node>>, d: Node)
    requires Listed(m, kids) && d in m
    ensures kids.Keys == m.Keys && Siblings(m, d, kids[d]) && Threaded(m, d, kids[d])
    ensures !d.isDir ==> kids[d] == []
  {}

  /** Link by link, what detaching a node changes. */
  lemma DetachEffect(m: Graph, node: Node, x: Links)
    requires node in m && m[node] == x && x.parent != null && x.parent in m && x.parent != node
    requires x.prev != null ==> x.prev in m && x.prev != node
    requires x.next != null ==> x.next in m && x.next != node
    ensures var w := Detached(m, node);
            && w.Keys == m.Keys && w[node] == Links(null, x.child, null, null)
            && forall n :: n in m && n != node ==>
                 w[n] == Links(m[n].parent, if n == x.parent && x.prev == null then x.next else m[n].child,
                               if n == x.prev then x.next else m[n].next, if n == x.next then x.prev else m[n].prev)
  {}

  /** What a list member's links are. */
  lemma MemberLinks(m: Graph, kids: map<Node, seq<Node>>, d: Node, k: nat)
    requires Listed(m, kids) && d in m && k < |kids[d]|
    ensures var l := kids[d];
            && l[k] in m && m[l[k]].parent == d && m[l[k]].prev == PrevOf(l, k) && m[l[k]].next == NextOf(l, k)
            && (k > 0 ==> l[k - 1] in m && l[k - 1] != l[k]) && (k + 1 < |l| ==> l[k + 1] in m && l[k + 1] != l[k])
  {
    ListAt(m, kids, d);
  }

  /** A list none of whose nodes had a link changed is still threaded. */
  lemma ThreadedElsewhere(m: Graph, w: Graph, d: Node, l: seq<Node>)
    requires Siblings(m, d, l) && d in m && Threaded(m, d, l) && w.Keys == m.Keys && w[d].child == m[d].child
    requires forall i :: 0 <= i < |l| ==>
               w[l[i]].parent == m[l[i]].parent && w[l[i]].next == m[l[i]].next && w[l[i]].prev == m[l[i]].prev
    ensures Siblings(w, d, l) && Threaded(w, d, l)
  {}

  /** The links after detaching node x, as DetachEffect states them. */
  ghost predicate DetachedFrom(m: Graph, w: Graph, node: Node, x: Links)
  {
    && w.Keys == m.Keys && node in m && w[node] == Links(null, x.child, null, null)
    && forall n :: n in m && n != node ==>
         w[n] == Links(m[n].parent, if n == x.parent && x.prev == null then x.next else m[n].child,
                       if n == x.prev then x.next else m[n].next, if n == x.next then x.prev else m[n].prev)
  }

  /** The list the node leaves closes up. */
  lemma ListClosesUp(m: Graph, w: Graph, d: Node, l: seq<Node>, k: nat)
    requires d in m && Siblings(m, d, l) && Threaded(m, d, l) && k < |l| && l[k] != d
    requires DetachedFrom(m, w, l[k], m[l[k]])
    ensures Siblings(w, d, Without(l, k)) && Threaded(w, d, Without(l, k))
  {
    var r := Without(l, k);
    forall i | 0 <= i < |r|
      ensures r[i] in w && w[r[i]].parent == d && w[r[i]].next == NextOf(r, i) && w[r[i]].prev == PrevOf(r, i) {
      LinkClosesUp(m, w, d, l, k, if i < k then i else i + 1);
    }
    hide Without;
    ChildClosesUp(m, w, d, l, k);
  }

  /** Its member number o, if another one, points to its new neighbours. */
  lemma LinkClosesUp(m: Graph, w: Graph, d: Node, l: seq<Node>, k: nat, o: nat)
    requires Siblings(m, d, l) && Threaded(m, d, l) && k < |l| && o < |l| && o != k && DetachedFrom(m, w, l[k], m[l[k]])
    ensures l[o] in w && w[l[o]].parent == d
    ensures var r, i := Without(l, k), if o < k then o else o - 1;
            w[l[o]].next == NextOf(r, i) && w[l[o]].prev == PrevOf(r, i)
  {
    assert l[o] != l[k];
    assert o + 1 < |l| && o + 1 != k ==> l[o + 1] != l[k];
  }

  lemma ChildClosesUp(m: Graph, w: Graph, d: Node, l: seq<Node>, k: nat)
    requires d in m && Siblings(m, d, l) && Threaded(m, d, l) && k < |l| && l[k] != d
             && DetachedFrom(m, w, l[k], m[l[k]])
    ensures var r := Without(l, k); w[d].child == if r == [] then null else r[0]
  {}

  /** No other list has a node whose links changed. */
  lemma OtherListsStay(m: Graph, w: Graph, d: Node, l: seq<Node>, k: nat, e: Node, le: seq<Node>)
    requires d in m && Siblings(m, d, l) && Threaded(m, d, l) && k < |l| && DetachedFrom(m, w, l[k], m[l[k]])
    requires e in m && e != d && Siblings(m, e, le) && Threaded(m, e, le)
    ensures Siblings(w, e, le) && Threaded(w, e, le)
  {
    forall i | 0 <= i < |le|
      ensures w[le[i]].parent == m[le[i]].parent && w[le[i]].next == m[le[i]].next && w[le[i]].prev == m[le[i]].prev
    {
      assert m[le[i]].parent == e;
      assert le[i] != l[k] && le[i] != PrevOf(l, k) && le[i] != NextOf(l, k);
    }
    ThreadedElsewhere(m, w, e, le);
  }

  /** Lists that are right one by one make a right map of lists. */
  lemma ListsMakeListed(w: Graph, kids: map<Node, seq<Node>>)
    requires kids.Keys == w.Keys
    requires forall e :: e in w ==> Siblings(w, e, kids[e]) && Threaded(w, e, kids[e]) && (!e.isDir ==> kids[e] == [])
    ensures Listed(w, kids)
  {}

  /** Detaching keeps every list: the one the node leaves closes up, the others do not change. */
  lemma DetachKeepsLists(m: Graph, kids: map<Node, seq<Node>>, d: Node, k: nat)
    requires Listed(m, kids) && d in m && k < |kids[d]| && kids[d][k] != d
    ensures var node := kids[d][k];
            && m[node].parent == d && (m[node].prev != null ==> m[node].prev in m)
            && (m[node].next != null ==> m[node].next in m)
            && Listed(Detached(m, node), kids[d := Without(kids[d], k)])
            && DetachedFrom(m, Detached(m, node), node, m[node])
  {
    hide Listed, Siblings, Threaded, Detached, Without;
    ListAt(m, kids, d);
    var l, node := kids[d], kids[d][k];
    MemberLinks(m, kids, d, k);
    DetachEffect(m, node, m[node]);
    var w, kids' := Detached(m, node), kids[d := Without(kids[d], k)];
    assert DetachedFrom(m, w, node, m[node]);
    hide DetachedFrom;
    ListClosesUp(m, w, d, l, k);
    forall e | e in w ensures Siblings(w, e, kids'[e]) && Threaded(w, e, kids'[e]) && (!e.isDir ==> kids'[e] == []) {
      ListAt(m, kids, e);
      if e != d {
        OtherListsStay(m, w, d, l, k, e, kids[e]);
      }
    }
    ListsMakeListed(w, kids');
  }

  /** The whole of a forest's consistency. */
  ghost predicate Wellformed(m: Graph, roots: set<Node>, kids: map<Node, seq<Node>>, rank: map<Node, nat>) {
    Listed(m, kids) && Rooted(m, roots, kids) && Ranked(m, rank)
  }

  /** A node and its parent differ, and the parent lists the node. */
  lemma Place(m: Graph, roots: set<Node>, kids: map<Node, seq<Node>>, rank: map<Node, nat>, node: Node)
      returns (d: Node, k: nat)
    requires Wellformed(m, roots, kids, rank) && node in m && node !in roots
    ensures d in m && d in kids && m[node].parent == d && k < |kids[d]| && kids[d][k] == node && node != d
  {
    d := m[node].parent;
    k :| 0 <= k < |kids[d]| && kids[d][k] == node;
  }

  /** Detaching a node makes it a root of its own and changes no other node's parent. */
  lemma DetachKeeps(m: Graph, roots: set<Node>, kids: map<Node, seq<Node>>, rank: map<Node, nat>, d: Node, k: nat)
    requires Wellformed(m, roots, kids, rank) && d in m && k < |kids[d]| && kids[d][k] !in roots && kids[d][k] != d
    ensures var node := kids[d][k];
            && m[node].parent == d && (m[node].prev != null ==> m[node].prev in m)
            && (m[node].next != null ==> m[node].next in m)
            && node !in {m[node].prev, m[node].next}
            && var w := Detached(m, node);
               && Wellformed(w, roots + {node}, kids[d := Without(kids[d], k)], rank)
               && w[node].parent == null && w[node].child == m[node].child
               && forall n :: n in m && n != node ==> w[n].parent == m[n].parent
  {
    DetachKeepsLists(m, kids, d, k);
    MemberLinks(m, kids, d, k);
    var w := Detached(m, kids[d][k]);
    hide Detached, Listed;
    DetachKeepsRoots(m, w, roots, kids, d, k);
    DetachKeepsRank(m, w, rank, kids[d][k]);
  }

  lemma DetachKeepsRank(m: Graph, w: Graph, rank: map<Node, nat>, node: Node)
    requires node in m && DetachedFrom(m, w, node, m[node]) && Ranked(m, rank)
    ensures Ranked(w, rank)
  {}

  lemma DetachKeepsRoots(m: Graph, w: Graph, roots: set<Node>, kids: map<Node, seq<Node>>, d: Node, k: nat)
    requires Listed(m, kids) && Rooted(m, roots, kids) && d in m && k < |kids[d]| && kids[d][k] in m
    requires DetachedFrom(m, w, kids[d][k], m[kids[d][k]])
    ensures Rooted(w, roots + {kids[d][k]}, kids[d := Without(kids[d], k)])
  {
    hide Siblings, Threaded, Without;
    SameNodes(m, w, kids, kids[d][k]);
    ParentsStay(m, w, kids[d][k]);
    RootsUntouched(m, roots, kids, d, k, w);
    RestListed(m, w, roots, kids, d, k);
  }

  lemma RootsUntouched(m: Graph, roots: set<Node>, kids: map<Node, seq<Node>>, d: Node, k: nat, w: Graph)
    requires Listed(m, kids) && Rooted(m, roots, kids) && d in m && k < |kids[d]|
    requires DetachedFrom(m, w, kids[d][k], m[kids[d][k]])
    ensures forall n :: n in roots ==> n in w && w[n].parent == null && w[n].next == null && w[n].prev == null
  {
    forall n | n in roots ensures n in w && w[n].parent == null && w[n].next == null && w[n].prev == null {
      RootUntouched(m, roots, kids, d, k, n, w);
    }
  }

  lemma RestListed(m: Graph, w: Graph, roots: set<Node>, kids: map<Node, seq<Node>>, d: Node, k: nat)
    requires kids.Keys == m.Keys == w.Keys && Rooted(m, roots, kids) && d in m && k < |kids[d]|
    requires forall n :: n in m && n != kids[d][k] ==> w[n].parent == m[n].parent
    ensures forall n :: n in w && n !in roots && n != kids[d][k] ==>
              && w[n].parent != null && w[n].parent in w && n in kids[d := Without(kids[d], k)][w[n].parent]
  {
    hide Without;
    var kids' := kids[d := Without(kids[d], k)];
    forall n | n in w && n !in roots && n != kids[d][k]
      ensures w[n].parent != null && w[n].parent in w && n in kids'[w[n].parent]
    {
      if m[n].parent == d {
        StillListed(kids[d], k, n);
      }
    }
  }

  lemma SameNodes(m: Graph, w: Graph, kids: map<Node, seq<Node>>, node: Node)
    requires Listed(m, kids) && node in m && DetachedFrom(m, w, node, m[node])
    ensures kids.Keys == m.Keys == w.Keys
  {}

  lemma ParentsStay(m: Graph, w: Graph, node: Node)
    requires node in m && DetachedFrom(m, w, node, m[node])
    ensures w.Keys == m.Keys && w[node].parent == null && w[node].next == null && w[node].prev == null
    ensures forall n :: n in m && n != node ==> w[n].parent == m[n].parent
  {}

  lemma StillListed(l: seq<Node>, k: nat, n: Node)
    requires k < |l| && n in l && n != l[k]
    ensures n in Without(l, k)
  {
    var i :| 0 <= i < |l| && l[i] == n;
    assert Without(l, k)[if i < k then i else i - 1] == n;
  }

  lemma RootUntouched(m: Graph, roots: set<Node>, kids: map<Node, seq<Node>>, d: Node, k: nat, n: Node, w: Graph)
    requires Listed(m, kids) && Rooted(m, roots, kids) && d in m && k < |kids[d]| && n in roots
    requires DetachedFrom(m, w, kids[d][k], m[kids[d][k]])
    ensures w[n].parent == null && w[n].next == null && w[n].prev == null
  {
    hide Listed;
    MemberLinks(m, kids, d, k);
    ListAt(m, kids, d);
  }

  // ---- Attaching ----

  /** The links after attaching a root `node` under dir, whose first child was f. */
  ghost predicate AttachedTo(m: Graph, w: Graph, dir: Node, node: Node, f: Node?) {
    && w.Keys == m.Keys
    && forall n :: n in m ==>
         w[n] == Links(if n == node then dir else m[n].parent, if n == dir then node else m[n].child,
                       if n == node then f else m[n].next, if f == n then node else m[n].prev)
  }

  lemma AttachEffect(m: Graph, dir: Node, node: Node)
    requires dir in m && node in m && node != dir && m[node].next == null
    requires m[dir].child != null ==> m[dir].child in m && m[dir].child != node && m[dir].child != dir
    ensures AttachedTo(m, Attached(m, dir, node), dir, node, m[dir].child)
  {}

  lemma ListGrows(m: Graph, w: Graph, dir: Node, node: Node, l: seq<Node>)
    requires Siblings(m, dir, l) && Threaded(m, dir, l) && node in m && node !in l && node != dir
             && m[node].prev == null
    requires AttachedTo(m, w, dir, node, m[dir].child)
    ensures Siblings(w, dir, [node] + l) && Threaded(w, dir, [node] + l)
  {
    var r := [node] + l;
    forall i | 0 <= i < |r|
      ensures r[i] in w && w[r[i]].parent == dir && w[r[i]].next == NextOf(r, i) && w[r[i]].prev == PrevOf(r, i) {
      if i > 0 {
        assert r[i] == l[i - 1] && l[i - 1] != node;
        assert i > 1 ==> l[i - 1] != l[0];
      }
    }
  }

  lemma OtherListsStayToo(m: Graph, w: Graph, dir: Node, l: seq<Node>, node: Node, e: Node, le: seq<Node>)
    requires Siblings(m, dir, l) && Threaded(m, dir, l) && node in m && m[node].parent == null
    requires AttachedTo(m, w, dir, node, m[dir].child)
    requires e in m && e != dir && Siblings(m, e, le) && Threaded(m, e, le)
    ensures Siblings(w, e, le) && Threaded(w, e, le)
  {
    forall i | 0 <= i < |le|
      ensures w[le[i]].parent == m[le[i]].parent && w[le[i]].next == m[le[i]].next && w[le[i]].prev == m[le[i]].prev
    {
      assert m[le[i]].parent == e;
      assert m[dir].child != null ==> l[0] == m[dir].child && m[l[0]].parent == dir;
    }
    ThreadedElsewhere(m, w, e, le);
  }

  lemma AttachKeepsLists(m: Graph, w: Graph, kids: map<Node, seq<Node>>, dir: Node, node: Node)
    requires Listed(m, kids) && dir in m && dir.isDir && node in m && node != dir
    requires m[node].parent == null && m[node].prev == null && AttachedTo(m, w, dir, node, m[dir].child)
    ensures Listed(w, kids[dir := [node] + kids[dir]])
  {
    hide Listed, Siblings, Threaded, AttachedTo;
    ListAt(m, kids, dir);
    var l, kids' := kids[dir], kids[dir := [node] + kids[dir]];
    RootUnlisted(m, dir, l, node);
    ListGrows(m, w, dir, node, l);
    SameKeys(m, w, dir, node, m[dir].child);
    forall e | e in w ensures Siblings(w, e, kids'[e]) && Threaded(w, e, kids'[e]) && (!e.isDir ==> kids'[e] == []) {
      ListAt(m, kids, e);
      if e != dir {
        OtherListsStayToo(m, w, dir, l, node, e, kids[e]);
      }
    }
    ListsMakeListed(w, kids');
  }

  lemma RootUnlisted(m: Graph, d: Node, l: seq<Node>, node: Node)
    requires Siblings(m, d, l) && node in m && m[node].parent == null
    ensures node !in l
  {
    assert forall i :: 0 <= i < |l| ==> m[l[i]].parent == d;
  }

  lemma SameKeys(m: Graph, w: Graph, dir: Node, node: Node, f: Node?)
    requires AttachedTo(m, w, dir, node, f)
    ensures w.Keys == m.Keys
  {}

  lemma AttachKeepsRoots(m: Graph, w: Graph, roots: set<Node>, kids: map<Node, seq<Node>>, dir: Node, node: Node)
    requires Listed(m, kids) && Rooted(m, roots, kids) && dir in m && node in roots && node != dir
    requires AttachedTo(m, w, dir, node, m[dir].child)
    ensures Rooted(w, roots - {node}, kids[dir := [node] + kids[dir]])
  {
    ListAt(m, kids, dir);
    assert m[dir].child != null ==> m[m[dir].child].parent == dir;
    hide Listed, Siblings, Threaded;
  }

  /** A node and everything above it. */
  ghost function Above(m: Graph, rank: map<Node, nat>, n: Node): (a: set<Node>)
    requires Ranked(m, rank) && n in m
    ensures n in a
    decreases rank[n]
  {
    if m[n].parent == null || m[n].parent !in m then {n} else {n} + Above(m, rank, m[n].parent)
  }

  /** Ranks once `node` and everything below it has moved under dir. */
  ghost function Reranked(m: Graph, rank: map<Node, nat>, dir: Node, node: Node): map<Node, nat>
    requires Ranked(m, rank) && dir in m
  {
    map n | n in m :: if node in Above(m, rank, n) then rank[n] + rank[dir] + 1 else rank[n]
  }

  /** Parent links stay free of circles when the new parent is not the node itself or below it. */
  lemma AttachKeepsRank(m: Graph, w: Graph, rank: map<Node, nat>, dir: Node, node: Node, f: Node?)
    requires Ranked(m, rank) && dir in m && node in m && m[node].parent == null && node !in Above(m, rank, dir)
    requires AttachedTo(m, w, dir, node, f)
    ensures Ranked(w, Reranked(m, rank, dir, node))
  {
    var r := Reranked(m, rank, dir, node);
    forall n | n in w && w[n].parent != null && w[n].parent in w ensures r[w[n].parent] < r[n] {
      if n != node {
        assert w[n].parent == m[n].parent;
        assert node in Above(m, rank, n) <==> node in Above(m, rank, m[n].parent);
      }
    }
  }

  /** Attaching a root under a directory that is not below it. */
  lemma AttachKeeps(m: Graph, roots: set<Node>, kids: map<Node, seq<Node>>, rank: map<Node, nat>, dir: Node, node: Node)
    requires Wellformed(m, roots, kids, rank) && dir in m && dir.isDir && node in m && node in roots
    requires node !in Above(m, rank, dir)
    ensures node != dir && (m[dir].child != null ==> m[dir].child in m)
    ensures var w := Attached(m, dir, node);
            && Wellformed(w, roots - {node}, kids[dir := [node] + kids[dir]], Reranked(m, rank, dir, node))
            && w[node].parent == dir && forall n :: n in m && n != node ==> w[n].parent == m[n].parent
  {
    ListAt(m, kids, dir);
    ChildIsNot(m, kids, rank, dir, node);
    AttachEffect(m, dir, node);
    var w := Attached(m, dir, node);
    assert w[node].parent == dir && forall n :: n in m && n != node ==> w[n].parent == m[n].parent;
    hide Attached, Listed, Siblings, Threaded, AttachedTo, Reranked;
    AttachKeepsLists(m, w, kids, dir, node);
    AttachKeepsRoots(m, w, roots, kids, dir, node);
    AttachKeepsRank(m, w, rank, dir, node, m[dir].child);
  }

  lemma ChildIsNot(m: Graph, kids: map<Node, seq<Node>>, rank: map<Node, nat>, dir: Node, node: Node)
    requires Listed(m, kids) && Ranked(m, rank) && dir in m && node in m && m[node].parent == null
    ensures m[dir].child != null ==> m[dir].child in m && m[dir].child != node && m[dir].child != dir
  {
    ListAt(m, kids, dir);
    if m[dir].child != null {
      assert kids[dir][0] == m[dir].child && m[kids[dir][0]].parent == dir;
    }
  }

  // ---- Walking up ----

  /** Parents that agree everywhere but at x agree above n, unless x is there. */
  lemma {:induction false} AboveSame(m: Graph, w: Graph, rank: map<Node, nat>, rank': map<Node, nat>, n: Node, x: Node)
    requires Ranked(m, rank) && Ranked(w, rank') && w.Keys == m.Keys && n in m && x !in Above(m, rank, n)
    requires forall y :: y in m && y != x ==> w[y].parent == m[y].parent
    ensures Above(w, rank', n) == Above(m, rank, n)
    decreases rank[n]
  {
    if m[n].parent != null && m[n].parent in m {
      AboveSame(m, w, rank, rank', m[n].parent, x);
    }
  }

  /** Everything strictly above a node has a smaller rank, and has children. */
  lemma {:induction false} AboveAreParents(m: Graph, roots: set<Node>, kids: map<Node, seq<Node>>,
      rank: map<Node, nat>, n: Node, a: Node)
    requires Wellformed(m, roots, kids, rank) && n in m && a in Above(m, rank, n) && a != n
    ensures a in m && rank[a] < rank[n] && kids[a] != [] && a.isDir
    decreases rank[n]
  {
    var p: Node := m[n].parent;
    ListAt(m, kids, p);
    if a != p {
      AboveAreParents(m, roots, kids, rank, p, a);
    }
  }

  class Forest {
    ghost var nodes: set<Node>
    /** The root directory, and nodes taken off the tree. */
    ghost var roots: set<Node>
    ghost var kids: map<Node, seq<Node>>
    ghost var rank: map<Node, nat>

    ghost function Links(): (m: Graph)
      reads this`nodes, nodes
      ensures m.Keys == nodes && forall n :: n in nodes ==> m[n] == n.Now()
    {
      map n | n in nodes :: n.Now()
    }

    ghost predicate Valid()
      reads this, nodes
    {
      Wellformed(Links(), roots, kids, rank)
    }

    /** The root directory of a volume just mounted. */
    constructor (root: Node)
      requires root.isDir && root.parent == null && root.child == null && root.next == null && root.prev == null
      ensures Valid() && nodes == roots == {root}
    {
      nodes, roots, kids, rank := {root}, {root}, map[root := []], map[root := 0];
    }

    /** Where a node's ancestors are. */
    ghost function Ancestors(n: Node): set<Node>
      requires Valid() && n in nodes
      reads this, nodes
    {
      Above(Links(), rank, n)
    }

    // One link at a time, with its effect on the forest as a value.

    method SetParent(n: Node, to: Node?)
      requires n in nodes
      modifies n`parent
      ensures Links() == old(Links())[n := old(Links())[n].(parent := to)]
    {
      n.parent := to;
    }

    method SetChild(n: Node, to: Node?)
      requires n in nodes
      modifies n`child
      ensures Links() == old(Links())[n := old(Links())[n].(child := to)]
    {
      n.child := to;
    }

    method SetNext(n: Node, to: Node?)
      requires n in nodes
      modifies n`next
      ensures Links() == old(Links())[n := old(Links())[n].(next := to)]
    {
      n.next := to;
    }

    method SetPrev(n: Node, to: Node?)
      requires n in nodes
      modifies n`prev
      ensures Links() == old(Links())[n := old(Links())[n].(prev := to)]
    {
      n.prev := to;
    }

    method ClearLinks(n: Node)
      requires n in nodes
      modifies n`parent, n`prev, n`next
      ensures Links() == old(Links())[n := old(Links())[n].(parent := null, prev := null, next := null)]
    {
      n.parent := null;
      n.prev := null;
      n.next := null;
    }

    /** tree_detach. */
    method Unlink(node: Node)
      requires node in nodes && node.parent != null && node.parent in nodes
      requires (node.prev != null ==> node.prev in nodes) && (node.next != null ==> node.next in nodes)
      requires node !in {node.parent, node.prev, node.next}
      modifies nodes`parent, nodes`child, nodes`next, nodes`prev
      ensures Links() == Detached(old(Links()), node)
    {
      if node.prev != null {
        SetNext(node.prev, node.next);
      } else {
        SetChild(node.parent, node.next);
      }
      if node.next != null {
        SetPrev(node.next, node.prev);
      }
      ClearLinks(node);
    }

    lemma ParentsNow(w: Graph)
      requires w == Links()
      ensures forall n :: n in nodes ==> n.parent == w[n].parent && n.child == w[n].child
    {}

    /** Taking a node off its parent's list keeps the forest consistent; only this node's parent changes. */
    method Detach(node: Node)
      requires Valid() && node in nodes && node !in roots
      modifies this`roots, this`kids, nodes
      ensures Valid() && roots == old(roots) + {node} && node.parent == null && node.child == old(node.child)
      ensures forall n :: n in nodes && n != node ==> n.parent == old(n.parent)
    {
      hide Wellformed, Detached, Without;
      ghost var m := Links();
      ghost var d, k := Place(m, roots, kids, rank, node);
      DetachKeeps(m, roots, kids, rank, d, k);
      Unlink(node);
      ghost var w := Links();
      ParentsNow(w);
      roots := roots + {node};
      kids := kids[d := Without(kids[d], k)];
      assert Links() == w;
    }

    /** tree_attach. */
    method Link(dir: Node, node: Node)
      requires dir in nodes && node in nodes && node != dir && (dir.child != null ==> dir.child in nodes)
      modifies nodes`parent, nodes`child, nodes`next, nodes`prev
      ensures Links() == Attached(old(Links()), dir, node)
    {
      SetParent(node, dir);
      if dir.child != null {
        SetPrev(dir.child, node);
        SetNext(node, dir.child);
      }
      SetChild(dir, node);
    }

    /** Putting a loose node under a directory that is not below it keeps the forest consistent. */
    method Attach(dir: Node, node: Node)
      requires Valid() && dir in nodes && dir.isDir && node in nodes && node in roots && node !in Ancestors(dir)
      modifies this`roots, this`kids, this`rank, nodes
      ensures Valid() && roots == old(roots) - {node} && node.parent == dir
      ensures forall n :: n in nodes && n != node ==> n.parent == old(n.parent)
    {
      hide Wellformed, Attached, Reranked;
      ghost var m := Links();
      RankedPart(m, roots, kids, rank);
      AttachKeeps(m, roots, kids, rank, dir, node);
      Link(dir, node);
      ghost var w := Links();
      ParentsNow(w);
      rank := Reranked(m, rank, dir, node);
      roots := roots - {node};
      kids := kids[dir := [node] + kids[dir]];
      assert Links() == w;
    }

    /** A zeroed node joins as a tree of its own. */
    ghost method Join(node: Node)
      requires Valid() && node !in nodes
      requires node.parent == null && node.child == null && node.next == null && node.prev == null
      modifies this
      ensures Valid() && nodes == old(nodes) + {node} && roots == old(roots) + {node} && node !in old(roots)
      ensures forall n :: n in old(nodes) ==> node !in Ancestors(n)
    {
      hide Wellformed, Ancestors;
      var m := Links();
      RankedPart(m, roots, kids, rank);
      NewRoot(m, roots, kids, rank, node);
      nodes, roots := nodes + {node}, roots + {node};
      kids, rank := kids[node := []], rank[node := 0];
      LinksJoined(m, node);
      AboveNothing(node);
    }

    lemma LinksJoined(m: Graph, node: Node)
      requires nodes == m.Keys + {node} && forall n :: n in m ==> m[n] == n.Now()
      ensures Links() == m[node := node.Now()]
    {}

    lemma AboveNothing(node: Node)
      requires Valid() && node in nodes && node in kids && kids[node] == []
      ensures forall n :: n in nodes && n != node ==> node !in Ancestors(n)
    {
      hide Wellformed;
      RankedPart(Links(), roots, kids, rank);
      forall n | n in nodes && n != node ensures node !in Ancestors(n) {
        ChildlessNotAbove(Links(), roots, kids, rank, n, node);
      }
    }

    /** The end of commit_entry: a new node under a directory. */
    method Create(dir: Node, isDir: bool) returns (node: Node)
      requires Valid() && dir in nodes && dir.isDir
      modifies this, nodes
      ensures Valid() && fresh(node) && nodes == old(nodes) + {node} && roots == old(roots)
      ensures node.isDir == isDir && node.parent == dir
      ensures forall n :: n in old(nodes) ==> n.parent == old(n.parent)
    {
      hide Wellformed, Ancestors;
      node := new Node(isDir);
      Join(node);
      Attach(dir, node);
    }

    /** delete: the entries are erased, the node comes off the tree, the directory shrinks. Either I/O step may fail. */
    method Delete(node: Node, eraseRc: int, shrinkRc: int) returns (rc: int)
      requires Valid() && node in nodes && node !in roots
      modifies this`roots, this`kids, nodes
      ensures Valid() && roots == (if eraseRc != 0 then old(roots) else old(roots) + {node})
      ensures node.parent == if eraseRc != 0 then old(node.parent) else null
      ensures forall n :: n in nodes && n != node ==> n.parent == old(n.parent)
      ensures rc == if eraseRc != 0 then eraseRc else shrinkRc
    {
      if eraseRc != 0 {
        return eraseRc;
      }
      Detach(node);
      rc := shrinkRc;
    }

    /** Whether dir is node or lies below it: the walk of exfat_rename. */
    method IsBelow(dir: Node, node: Node) returns (below: bool)
      requires Valid() && dir in nodes
      ensures below <==> node in Ancestors(dir)
    {
      hide Wellformed;
      RankedPart(Links(), roots, kids, rank);
      var p: Node? := dir;
      while p != null
        invariant p != null ==> p in nodes
        invariant node in Ancestors(dir) <==> p != null && node in Ancestors(p)
        decreases if p == null then 0 else 1 + rank[p]
      {
        if node == p {
          return true;
        }
        Upwards(Links(), roots, kids, rank, p);
        p := p.parent;
      }
      below := false;
    }

    /** The removal of the rename's target: an empty directory by a directory, a file by a file. */
    method Replace(node: Node, existing: Node, dir: Node, eraseRc: int, shrinkRc: int) returns (rc: int)
      requires Valid() && node in nodes && dir in nodes && existing in nodes && existing.parent == dir
               && existing != node
      requires node !in Ancestors(dir) && node !in roots
      modifies this`roots, this`kids, nodes
      ensures Valid() && node !in Ancestors(dir) && node !in roots
      ensures forall n :: n in nodes && n != existing ==> n.parent == old(n.parent)
      ensures existing.parent == null || existing.parent == dir
      ensures existing.parent == null <==> existing in roots
      ensures roots == old(roots) || roots == old(roots) + {existing}
      ensures rc == 0 ==> roots == old(roots) + {existing}
      ensures existing.isDir && old(existing.child) != null ==> rc != 0
    {
      hide Wellformed;
      ghost var m := Links();
      Apart(m, roots, kids, rank, dir, existing);
      if existing.isDir != node.isDir {
        rc := if existing.isDir then -ENOTDIR else -EISDIR;
        return;
      }
      if existing.isDir && existing.child != null {
        return -ENOTEMPTY;
      }
      rc := Delete(existing, eraseRc, shrinkRc);
      RankedPart(m, old(roots), old(kids), rank);
      RankedPart(Links(), roots, kids, rank);
      AboveSame(m, Links(), rank, rank, dir, existing);
    }

    /** The end of rename_entry. */
    method Move(node: Node, dir: Node)
      requires Valid() && node in nodes && dir in nodes && dir.isDir && node !in Ancestors(dir) && node !in roots
      modifies this`roots, this`kids, this`rank, nodes
      ensures Valid() && node.parent == dir && roots == old(roots)
      ensures forall n :: n in nodes && n != node ==> n.parent == old(n.parent)
    {
      hide Wellformed;
      ghost var m := Links();
      RankedPart(m, roots, kids, rank);
      Detach(node);
      RankedPart(Links(), roots, kids, rank);
      AboveSame(m, Links(), rank, rank, dir, node);
      Attach(dir, node);
    }

    /**
     * exfat_rename on the tree: node moves to dir, replacing existing if the new name was taken. The results of I/O are
     * parameters: erasing the target's entries, shrinking its directory, everything from there to the entries' being
     * written under the new name (slotRc), and flushing the directory once node has moved (flushRc).
     */
    method Rename(node: Node, existing: Node?, dir: Node, eraseRc: int, shrinkRc: int, slotRc: int, flushRc: int)
        returns (rc: int, ghost moved: bool)
      requires Valid() && node in nodes && dir in nodes && dir.isDir
      requires existing != null ==> existing in nodes && existing.parent == dir
      requires node in roots ==> node.isDir && node in Ancestors(dir)
      modifies this`roots, this`kids, this`rank, nodes
      ensures Valid()
      ensures moved ==> rc == flushRc && node.parent == dir && node !in roots
      ensures !moved ==> rc != 0 && node.parent == old(node.parent)
      ensures forall n :: n in nodes && n != node && n != existing ==> n.parent == old(n.parent)
      ensures existing != null && existing != node ==> existing.parent == null || existing.parent == dir
      ensures moved ==> roots == old(roots) + if existing != null && existing != node then {existing} else {}
      ensures !moved ==>
                || roots == old(roots)
                || (existing != null && existing != node && roots == old(roots) + {existing})
      ensures old(node.isDir && node in Ancestors(dir)) ==> rc == -EINVAL && !moved && roots == old(roots)
      ensures existing != null && existing != node && existing.isDir && old(existing.child) != null ==> !moved
    {
      hide Wellformed;
      if node.isDir {
        var below := IsBelow(dir, node);
        if below {
          return -EINVAL, false;
        }
      }
      NotBelow(Links(), roots, kids, rank, dir, node);
      if existing != null && existing != node {
        rc := Replace(node, existing, dir, eraseRc, shrinkRc);
        if rc != 0 {
          return rc, false;
        }
      }
      if slotRc != 0 {
        return slotRc, false;
      }
      Move(node, dir);
      rc, moved := flushRc, true;
    }
  }

  lemma RankedPart(m: Graph, roots: set<Node>, kids: map<Node, seq<Node>>, rank: map<Node, nat>)
    requires Wellformed(m, roots, kids, rank)
    ensures Ranked(m, rank) && kids.Keys == m.Keys && roots <= m.Keys
  {}

  lemma Upwards(m: Graph, roots: set<Node>, kids: map<Node, seq<Node>>, rank: map<Node, nat>, n: Node)
    requires Wellformed(m, roots, kids, rank) && n in m
    ensures m[n].parent == null ==> Above(m, rank, n) == {n}
    ensures m[n].parent != null ==> m[n].parent in m && rank[m[n].parent] < rank[n]
                                    && Above(m, rank, n) == {n} + Above(m, rank, m[n].parent)
  {}

  lemma SameList(m: Graph, d: Node, l: seq<Node>, node: Node)
    requires d in m && Siblings(m, d, l) && Threaded(m, d, l) && node !in m
    ensures var w := m[node := Links(null, null, null, null)]; Siblings(w, d, l) && Threaded(w, d, l)
  {
    assert forall i :: 0 <= i < |l| ==> l[i] in m && l[i] != node;
  }

  lemma NewRootListed(m: Graph, kids: map<Node, seq<Node>>, node: Node)
    requires Listed(m, kids) && node !in m
    ensures Listed(m[node := Links(null, null, null, null)], kids[node := []])
  {
    hide Siblings, Threaded;
    var w, kids' := m[node := Links(null, null, null, null)], kids[node := []];
    forall d | d in w ensures Siblings(w, d, kids'[d]) && Threaded(w, d, kids'[d]) {
      if d == node {
        NoChildren(w, node);
      } else {
        SameList(m, d, kids[d], node);
      }
    }
  }

  lemma NoChildren(w: Graph, node: Node)
    requires node in w && w[node].child == null
    ensures Siblings(w, node, []) && Threaded(w, node, [])
  {}

  lemma NewRootRanked(m: Graph, roots: set<Node>, kids: map<Node, seq<Node>>, rank: map<Node, nat>, node: Node)
    requires kids.Keys == m.Keys && Rooted(m, roots, kids) && Ranked(m, rank) && node !in m
    ensures var w := m[node := Links(null, null, null, null)];
            Rooted(w, roots + {node}, kids[node := []]) && Ranked(w, rank[node := 0])
  {}

  /** A node without any links joins the forest as a root. */
  lemma NewRoot(m: Graph, roots: set<Node>, kids: map<Node, seq<Node>>, rank: map<Node, nat>, node: Node)
    requires Wellformed(m, roots, kids, rank) && node !in m
    ensures Wellformed(m[node := Links(null, null, null, null)], roots + {node}, kids[node := []], rank[node := 0])
  {
    RankedPart(m, roots, kids, rank);
    hide Listed, Rooted, Ranked;
    NewRootListed(m, kids, node);
    NewRootRanked(m, roots, kids, rank, node);
  }

  lemma ChildlessNotAbove(m: Graph, roots: set<Node>, kids: map<Node, seq<Node>>, rank: map<Node, nat>, dir: Node,
      node: Node)
    requires Wellformed(m, roots, kids, rank) && dir in m && node in m && node != dir && kids[node] == []
    ensures node !in Above(m, rank, dir)
  {
    if node in Above(m, rank, dir) {
      AboveAreParents(m, roots, kids, rank, dir, node);
    }
  }

  /** A file is above nothing, so only directories need the walk. */
  lemma NotBelow(m: Graph, roots: set<Node>, kids: map<Node, seq<Node>>, rank: map<Node, nat>, dir: Node, node: Node)
    requires Wellformed(m, roots, kids, rank) && dir in m && dir.isDir && (node.isDir ==> node !in Above(m, rank, dir))
    ensures node !in Above(m, rank, dir)
  {
    if node in Above(m, rank, dir) && node != dir {
      AboveAreParents(m, roots, kids, rank, dir, node);
    }
  }

  /** A member of a directory is neither above that directory nor a root. */
  lemma Apart(m: Graph, roots: set<Node>, kids: map<Node, seq<Node>>, rank: map<Node, nat>, dir: Node, x: Node)
    requires Wellformed(m, roots, kids, rank) && dir in m && x in m && m[x].parent == dir
    ensures x !in Above(m, rank, dir) && x !in roots
  {
    if x in Above(m, rank, dir) && x != dir {
      AboveAreParents(m, roots, kids, rank, dir, x);
    }
  }
}
