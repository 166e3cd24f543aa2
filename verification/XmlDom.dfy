/** The document tree as tinyxml2 keeps it: every node points at its parent, its first and last child and its
    neighbours, and the document lists the nodes that are in no tree. The abstract value is a map from each live
    node to the sequence of its children. */
module XmlDom {
  import DynArray

  type Forest = map<XMLNode, seq<XMLNode>>

  // ----- Sequences of siblings -------------------------------------------------------------

  ghost function Nth(s: seq<XMLNode>, k: int): XMLNode? {
    if 0 <= k < |s| then s[k] else null
  }

  ghost function Elems(s: seq<XMLNode>): set<XMLNode> {
    set c | c in s
  }

  ghost predicate Distinct(s: seq<XMLNode>) {
    forall i, j :: 0 <= i < j < |s| ==> s[i] != s[j]
  }

  ghost function RemoveAt(s: seq<XMLNode>, k: nat): (r: seq<XMLNode>)
    requires k < |s|
    ensures |r| == |s| - 1
  {
    s[..k] + s[k + 1..]
  }

  ghost function InsertAt(s: seq<XMLNode>, k: nat, x: XMLNode): (r: seq<XMLNode>)
    requires k <= |s|
    ensures |r| == |s| + 1
  {
    s[..k] + [x] + s[k..]
  }

  ghost function IndexOf(s: seq<XMLNode>, x: XMLNode): (k: nat)
    requires x in s
    ensures k < |s| && s[k] == x
  {
    var k :| 0 <= k < |s| && s[k] == x;
    k
  }

  /** List removal. */
  ghost function Without(s: seq<XMLNode>, x: XMLNode): seq<XMLNode> {
    if x in s then RemoveAt(s, IndexOf(s, x)) else s
  }

  lemma WithoutIsRemoval(s: seq<XMLNode>, x: XMLNode)
    requires Distinct(s)
    ensures Distinct(Without(s, x)) && Elems(Without(s, x)) == Elems(s) - {x}
  {
    if x in s {
      var k := IndexOf(s, x);
      assert s == s[..k] + [x] + s[k + 1..];
    }
  }

  lemma InsertAtIsInsertion(s: seq<XMLNode>, k: nat, x: XMLNode)
    requires Distinct(s) && x !in s && k <= |s|
    ensures Distinct(InsertAt(s, k, x)) && Elems(InsertAt(s, k, x)) == Elems(s) + {x}
  {
    assert s == s[..k] + s[k..];
  }

  // ----- Forests -------------------------------------------------------------------------------

  /** Every list of children is of distinct nodes of the forest. */
  ghost predicate WellFormed(f: Forest) {
    forall n {:trigger f[n]} :: n in f ==> Distinct(f[n]) && Elems(f[n]) <= f.Keys
  }

  /** No node is below itself: a child ranks below its parent. */
  ghost predicate Ranked(f: Forest, rank: map<XMLNode, nat>) {
    f.Keys <= rank.Keys &&
    forall n, c :: n in f && c in f[n] ==> c in rank && rank[c] < rank[n]
  }

  /** `y` is `k` levels below `x`. */
  ghost predicate Below(f: Forest, x: XMLNode, y: XMLNode, k: nat) {
    if k == 0 then x == y else x in f && exists c :: c in f[x] && Below(f, c, y, k - 1)
  }

  /** `y` is `x` or a descendant of it. */
  ghost predicate Descends(f: Forest, x: XMLNode, y: XMLNode) {
    exists k: nat :: Below(f, x, y, k)
  }

  ghost function Detached(f: Forest, x: XMLNode): (g: Forest)
    ensures g.Keys == f.Keys
  {
    map n | n in f :: Without(f[n], x)
  }

  /** `x` comes out of wherever it is and goes to place `k` among the children of `p`. */
  ghost function Moved(f: Forest, x: XMLNode, p: XMLNode, k: nat): Forest
    requires p in f && k <= |Without(f[p], x)|
  {
    Detached(f, x)[p := InsertAt(Detached(f, x)[p], k, x)]
  }

  ghost function Above(f: Forest, p: XMLNode): set<XMLNode> {
    set y | y in f && Descends(f, y, p)
  }

  lemma AboveIsClosed(f: Forest, p: XMLNode, n: XMLNode, c: XMLNode)
    requires n in f && c in f[n] && c in Above(f, p)
    ensures n in Above(f, p)
  {
    var k: nat :| Below(f, c, p, k);
    assert Below(f, n, p, k + 1);
  }

  /** The ranks when `x` goes under `p`: the nodes above rise over it. */
  ghost function Raised(f: Forest, rank: map<XMLNode, nat>, x: XMLNode, p: XMLNode): map<XMLNode, nat>
    requires x in rank
  {
    map y | y in rank :: if y in Above(f, p) then rank[y] + rank[x] + 1 else rank[y]
  }

  lemma MoveKeepsRanks(f: Forest, rank: map<XMLNode, nat>, x: XMLNode, p: XMLNode, k: nat)
    requires WellFormed(f) && Ranked(f, rank) && x in f && p in f && !Descends(f, x, p)
    requires k <= |Without(f[p], x)|
    ensures Ranked(Moved(f, x, p, k), Raised(f, rank, x, p))
  {
    var g, raised := Moved(f, x, p, k), Raised(f, rank, x, p);
    hide Descends, Moved, Detached, Without;
    PIsAboveP(f, p);
    forall n, c | n in g && c in g[n] ensures c in raised && raised[c] < raised[n] {
      MovedMembers(f, x, p, k, n, c);
      if c in f[n] && c in Above(f, p) {
        AboveIsClosed(f, p, n, c);
      }
    }
  }

  lemma PIsAboveP(f: Forest, p: XMLNode)
    requires p in f
    ensures p in Above(f, p)
  {
    assert Below(f, p, p, 0);
  }

  lemma MovedMembers(f: Forest, x: XMLNode, p: XMLNode, k: nat, n: XMLNode, c: XMLNode)
    requires WellFormed(f) && p in f && k <= |Without(f[p], x)|
    requires n in Moved(f, x, p, k) && c in Moved(f, x, p, k)[n]
    ensures n in f && ((c == x && n == p) || c in f[n])
  {
    WithoutIsRemoval(f[n], x);
    hide Without, InsertAt;
    if n == p {
      InsertAtMembers(Without(f[p], x), k, x, c);
    }
  }

  lemma InsertAtMembers(s: seq<XMLNode>, k: nat, x: XMLNode, c: XMLNode)
    requires k <= |s| && c in InsertAt(s, k, x)
    ensures c == x || c in s
  {
  }

  /** `dead` is `root` with nodes under it: closed under children, and every other member has its parent in it. */
  ghost predicate IsSubtree(f: Forest, rank: map<XMLNode, nat>, root: XMLNode, dead: set<XMLNode>) {
    root in dead && dead <= f.Keys && f.Keys <= rank.Keys &&
    forall d {:trigger d in dead} :: d in dead ==>
      Elems(f[d]) <= dead && rank[d] <= rank[root] && (d == root || exists n :: n in dead && d in f[n])
  }

  /** That makes it exactly the node and its descendants. */
  lemma SubtreeIsDescendants(f: Forest, rank: map<XMLNode, nat>, root: XMLNode, dead: set<XMLNode>)
    requires Ranked(f, rank) && IsSubtree(f, rank, root, dead)
    ensures forall d :: d in f ==> (d in dead <==> Descends(f, root, d))
  {
    forall d | d in f && d in dead ensures Descends(f, root, d) {
      var k := DeadIsBelow(f, rank, root, dead, d);
    }
    forall d | d in f && Descends(f, root, d) ensures d in dead {
      var k: nat :| Below(f, root, d, k);
      BelowIsDead(f, rank, root, dead, root, d, k);
    }
  }

  lemma {:induction false} BelowIsDead(f: Forest, rank: map<XMLNode, nat>, root: XMLNode, dead: set<XMLNode>,
      x: XMLNode, d: XMLNode, k: nat)
    requires IsSubtree(f, rank, root, dead) && x in dead && Below(f, x, d, k)
    ensures d in dead
    decreases k
  {
    if k > 0 {
      var c :| c in f[x] && Below(f, c, d, k - 1);
      assert c in Elems(f[x]);
      BelowIsDead(f, rank, root, dead, c, d, k - 1);
    }
  }

  lemma {:induction false} DeadIsBelow(f: Forest, rank: map<XMLNode, nat>, root: XMLNode, dead: set<XMLNode>,
      d: XMLNode) returns (k: nat)
    requires Ranked(f, rank) && IsSubtree(f, rank, root, dead) && d in dead
    ensures Below(f, root, d, k)
    decreases rank[root] - rank[d]
  {
    if d == root {
      k := 0;
    } else {
      var n :| n in dead && d in f[n];
      k := DeadIsBelow(f, rank, root, dead, n);
      k := BelowStep(f, root, n, d, k);
    }
  }

  lemma {:induction false} BelowStep(f: Forest, x: XMLNode, n: XMLNode, d: XMLNode, k: nat) returns (j: nat)
    requires Below(f, x, n, k) && n in f && d in f[n]
    ensures j == k + 1 && Below(f, x, d, j)
  {
    j := k + 1;
    if k == 0 {
      assert Below(f, d, d, 0);
    } else {
      var c :| c in f[x] && Below(f, c, n, k - 1);
      var i := BelowStep(f, c, n, d, k - 1);
    }
  }

  // ----- Pointers --------------------------------------------------------------------------------

  /** `c` is a child of `n` between `before` and `after`. */
  ghost predicate Between(c: XMLNode, n: XMLNode, before: XMLNode?, after: XMLNode?)
    reads c`parent, c`prev, c`next
  {
    c.parent == n && c.prev == before && c.next == after
  }

  ghost predicate Sits(n: XMLNode, s: seq<XMLNode>, i: int)
    requires 0 <= i < |s|
    reads {s[i]}`parent, {s[i]}`prev, {s[i]}`next
  {
    Between(s[i], n, Nth(s, i - 1), Nth(s, i + 1))
  }

  ghost predicate Family(n: XMLNode, s: seq<XMLNode>)
    reads n`firstChild, n`lastChild, Elems(s)`parent, Elems(s)`prev, Elems(s)`next
  {
    n.firstChild == Nth(s, 0) && n.lastChild == Nth(s, |s| - 1) &&
    forall i {:trigger Sits(n, s, i)} :: 0 <= i < |s| ==> Sits(n, s, i)
  }

  /** The siblings `s` of `n` with the pointers past place `k`. */
  ghost predicate Skips(n: XMLNode, s: seq<XMLNode>, k: nat, i: int)
    requires 0 <= i < |s|
    reads {s[i]}`parent, {s[i]}`prev, {s[i]}`next
  {
    Between(s[i], n, Nth(s, if i == k + 1 then i - 2 else i - 1), Nth(s, if i == k - 1 then i + 2 else i + 1))
  }

  ghost predicate Skipping(n: XMLNode, s: seq<XMLNode>, k: nat)
    reads n`firstChild, n`lastChild, Elems(s)`parent, Elems(s)`prev, Elems(s)`next
  {
    n.firstChild == Nth(s, if k == 0 then 1 else 0) &&
    n.lastChild == Nth(s, if k == |s| - 1 then |s| - 2 else |s| - 1) &&
    forall i {:trigger Skips(n, s, k, i)} :: 0 <= i < |s| && i != k ==> Skips(n, s, k, i)
  }

  lemma NthRemoved(s: seq<XMLNode>, k: nat, i: int)
    requires k < |s|
    ensures Nth(RemoveAt(s, k), i) == Nth(s, if i < k then i else i + 1)
  {
  }

  lemma SkippingIsFamily(n: XMLNode, s: seq<XMLNode>, k: nat)
    requires k < |s| && Skipping(n, s, k)
    ensures Family(n, RemoveAt(s, k))
  {
    var r := RemoveAt(s, k);
    assert |r| == |s| - 1;
    NthRemoved(s, k, 0);
    NthRemoved(s, k, |r| - 1);
    forall i {:trigger Sits(n, r, i)} | 0 <= i < |r| ensures Sits(n, r, i) {
      var j := if i < k then i else i + 1;
      assert r[i] == s[j];
      assert Skips(n, s, k, j);
      NthRemoved(s, k, i - 1);
      NthRemoved(s, k, i + 1);
      hide Nth, RemoveAt, Between;
    }
  }

  lemma NthInserted(s: seq<XMLNode>, k: nat, x: XMLNode, i: int)
    requires k <= |s|
    ensures Nth(InsertAt(s, k, x), i) == if i < k then Nth(s, i) else if i == k then x else Nth(s, i - 1)
  {
  }

  /** `x` has its place `k` among `s`, and the others have shifted around it. */
  ghost predicate Parts(n: XMLNode, s: seq<XMLNode>, k: nat, x: XMLNode, i: int)
    requires 0 <= i < |s|
    reads {s[i]}`parent, {s[i]}`prev, {s[i]}`next
  {
    Between(s[i], n, if i == k then x else Nth(s, i - 1), if i == k - 1 then x else Nth(s, i + 1))
  }

  ghost predicate Parting(n: XMLNode, s: seq<XMLNode>, k: nat, x: XMLNode)
    reads n`firstChild, n`lastChild, Elems(s)`parent, Elems(s)`prev, Elems(s)`next, x`parent, x`prev, x`next
  {
    n.firstChild == (if k == 0 then x else Nth(s, 0)) &&
    n.lastChild == (if k == |s| then x else Nth(s, |s| - 1)) &&
    Between(x, n, Nth(s, k - 1), Nth(s, k)) &&
    forall i {:trigger Parts(n, s, k, x, i)} :: 0 <= i < |s| ==> Parts(n, s, k, x, i)
  }

  lemma PartingIsFamily(n: XMLNode, s: seq<XMLNode>, k: nat, x: XMLNode)
    requires k <= |s| && Parting(n, s, k, x)
    ensures Family(n, InsertAt(s, k, x))
  {
    var r := InsertAt(s, k, x);
    NthInserted(s, k, x, 0);
    NthInserted(s, k, x, |r| - 1);
    forall i {:trigger Sits(n, r, i)} | 0 <= i < |r| ensures Sits(n, r, i) {
      NthInserted(s, k, x, i - 1);
      NthInserted(s, k, x, i);
      NthInserted(s, k, x, i + 1);
      if i < k {
        assert Parts(n, s, k, x, i);
      } else if i > k {
        assert Parts(n, s, k, x, i - 1);
      }
    }
  }

  /** A node without a parent has no neighbours, and one with a parent is among its children. */
  ghost predicate Placed(c: XMLNode, f: Forest)
    reads c`parent, c`prev, c`next
  {
    if c.parent == null then c.prev == null && c.next == null else c.parent in f && c in f[c.parent]
  }

  /** The pointers of the nodes are those of the forest. */
  ghost predicate Links(f: Forest)
    reads f.Keys
  {
    WellFormed(f) && (forall n {:trigger Family(n, f[n])} :: n in f ==> Family(n, f[n])) &&
    forall c {:trigger Placed(c, f)} :: c in f ==> Placed(c, f)
  }

  lemma LinksOf(f: Forest)
    requires WellFormed(f)
    requires forall n {:trigger Family(n, f[n])} :: n in f ==> Family(n, f[n])
    requires forall c {:trigger Placed(c, f)} :: c in f ==> Placed(c, f)
    ensures Links(f)
  {
  }

  lemma LinksWellFormed(f: Forest)
    requires Links(f)
    ensures WellFormed(f)
  {
  }

  lemma FamilyOf(f: Forest, n: XMLNode)
    requires Links(f) && n in f
    ensures Family(n, f[n]) && Distinct(f[n]) && Elems(f[n]) <= f.Keys
  {
  }

  lemma ParentOf(f: Forest, n: XMLNode, c: XMLNode)
    requires Links(f) && n in f && c in f[n]
    ensures c.parent == n
  {
    FamilyOf(f, n);
    var i := IndexOf(f[n], c);
    assert Sits(n, f[n], i);
  }

  lemma PlacedIn(f: Forest, c: XMLNode)
    requires Links(f) && c in f
    ensures Placed(c, f)
  {
  }

  lemma DetachedFrom(f: Forest, p: XMLNode, child: XMLNode)
    requires Links(f) && p in f && child in f[p]
    ensures Detached(f, child) == f[p := Without(f[p], child)]
    ensures WellFormed(Detached(f, child))
  {
    forall n | n in f && child in f[n] ensures n == p {
      ParentOf(f, n, child);
      ParentOf(f, p, child);
    }
    DetachedWellFormed(f, child);
  }

  lemma DetachedWellFormed(f: Forest, x: XMLNode)
    requires WellFormed(f)
    ensures WellFormed(Detached(f, x))
  {
    forall n | n in f ensures Distinct(Detached(f, x)[n]) && Elems(Detached(f, x)[n]) <= f.Keys {
      WithoutIsRemoval(f[n], x);
    }
  }

  /** In the forest `f` the list of children of `p` becomes `r`, which differs from it in `x`. */
  datatype Change = Change(f: Forest, p: XMLNode, x: XMLNode, r: seq<XMLNode>)

  ghost predicate Sensible(e: Change) {
    e.p in e.f && e.x in e.f && Distinct(e.r) && Elems(e.r) <= e.f.Keys &&
    Elems(e.r) - {e.x} == Elems(e.f[e.p]) - {e.x}
  }

  /** Everything but the children of `p` and the place of `x` is as it was; `x` was nowhere or under `p`. */
  twostate predicate Kept(e: Change)
    requires e.p in e.f
    reads e.f.Keys, e.x
  {
    (forall n :: n in e.f && n != e.p ==> n.firstChild == old(n.firstChild) && n.lastChild == old(n.lastChild)) &&
    (forall c :: c in e.f && c != e.x ==> c.parent == old(c.parent)) &&
    (forall c :: c in e.f && c != e.x && c !in e.f[e.p] ==> c.prev == old(c.prev) && c.next == old(c.next)) &&
    (old(e.x.parent) == null || old(e.x.parent) == e.p)
  }

  lemma MoveFacts(f: Forest, rank: map<XMLNode, nat>, x: XMLNode, p: XMLNode, k: nat)
    requires Links(f) && Ranked(f, rank) && x in f && p in f && !Descends(f, x, p)
    requires k <= |Without(f[p], x)|
    ensures x in rank && Ranked(Moved(f, x, p, k), Raised(f, rank, x, p))
    ensures Detached(f, x)[p] == Without(f[p], x) && x !in Without(f[p], x)
    ensures var r := InsertAt(Without(f[p], x), k, x);
      Sensible(Change(Detached(f, x), p, x, r)) && Moved(f, x, p, k) == Detached(f, x)[p := r] && x in r
  {
    MoveKeepsRanks(f, rank, x, p, k);
    WithoutIsRemoval(f[p], x);
    InsertAtIsInsertion(Without(f[p], x), k, x);
    assert x !in Elems(Without(f[p], x));
    hide Without, InsertAt, Distinct, Ranked, Descends, Raised;
    assert x in Elems(InsertAt(Without(f[p], x), k, x));
  }

  ghost predicate Loose(x: XMLNode)
    reads x`parent, x`prev, x`next
  {
    x.parent == null && x.prev == null && x.next == null
  }

  twostate lemma OtherFamilies(e: Change)
    requires Sensible(e) && old(Links(e.f)) && Kept(e)
    ensures forall n {:trigger Family(n, e.f[n])} :: n in e.f && n != e.p ==> Family(n, e.f[n])
  {
    var f, p := e.f, e.p;
    forall n {:trigger Family(n, f[n])} | n in f && n != p ensures Family(n, f[n]) {
      var s := f[n];
      assert old(Family(n, s)) && old(Family(p, f[p]));
      forall i {:trigger Sits(n, s, i)} | 0 <= i < |s| ensures Sits(n, s, i) {
        assert old(Sits(n, s, i));
        assert s[i] in Elems(f[n]) && s[i] in f;
        forall j | 0 <= j < |f[p]| ensures f[p][j] != s[i] {
          assert old(Sits(p, f[p], j));
        }
      }
    }
  }

  twostate lemma AllPlaced(e: Change)
    requires Sensible(e) && old(Links(e.f)) && Kept(e) && Family(e.p, e.r) && (e.x in e.r || Loose(e.x))
    ensures forall c {:trigger Placed(c, e.f[e.p := e.r])} :: c in e.f ==> Placed(c, e.f[e.p := e.r])
  {
    var f, p, r := e.f, e.p, e.r;
    forall c {:trigger Placed(c, f[p := r])} | c in f ensures Placed(c, f[p := r]) {
      assert old(Placed(c, f));
      if c in r {
        assert Sits(p, r, IndexOf(r, c));
      } else if c != e.x {
        assert c !in Elems(r) - {e.x} && c !in Elems(f[p]) - {e.x};
      }
    }
  }

  /** If the pointers of `p` are those of its new list, the whole is linked. */
  twostate lemma Relinked(e: Change)
    requires Sensible(e) && old(Links(e.f)) && Kept(e) && Family(e.p, e.r) && (e.x in e.r || Loose(e.x))
    ensures Links(e.f[e.p := e.r])
  {
    OtherFamilies(e);
    AllPlaced(e);
    hide Family, Sits, Distinct, Placed;
    LinksOf(e.f[e.p := e.r]);
  }

  ghost function Roots(f: Forest): set<XMLNode>
    reads f.Keys
  {
    set c | c in f && c.parent == null
  }

  lemma RemovedElems(s: seq<XMLNode>, i: nat)
    requires Distinct(s) && i < |s|
    ensures Distinct(DynArray.Removed(s, i)) && Elems(DynArray.Removed(s, i)) == Elems(s) - {s[i]}
  {
    var r := DynArray.Removed(s, i);
    assert s[..i] + s[i + 1..] == Without(s, s[i]) by {
      assert IndexOf(s, s[i]) == i;
    }
    WithoutIsRemoval(s, s[i]);
    forall c | c in s && c != s[i] ensures c in r {
      var j := IndexOf(s, c);
      if j < |s| - 1 {
        assert r[j] == c;
      } else {
        assert r[i] == c;
      }
    }
  }

  /** What `Detached` does to a node in no list: nothing. */
  lemma DetachedRoot(f: Forest, x: XMLNode)
    requires Links(f) && x.parent == null
    ensures Detached(f, x) == f
  {
    forall n | n in f ensures Without(f[n], x) == f[n] {
      if x in f[n] {
        ParentOf(f, n, x);
      }
    }
  }

  lemma DetachedKeepsRanks(f: Forest, rank: map<XMLNode, nat>, x: XMLNode)
    requires WellFormed(f) && Ranked(f, rank)
    ensures Ranked(Detached(f, x), rank)
  {
    forall n | n in f ensures Elems(Without(f[n], x)) <= Elems(f[n]) {
      WithoutIsRemoval(f[n], x);
    }
    forall n, c | n in f && c in Detached(f, x)[n] ensures c in f[n] {
      assert c in Elems(Without(f[n], x));
    }
  }

  lemma WithNewNode(f: Forest, rank: map<XMLNode, nat>, node: XMLNode)
    requires Links(f) && Ranked(f, rank) && node !in f && Loose(node)
    requires node.firstChild == null && node.lastChild == null
    ensures Links(f[node := []]) && Ranked(f[node := []], rank[node := 0])
    ensures Roots(f[node := []]) == Roots(f) + {node}
  {
    var g := f[node := []];
    forall n {:trigger g[n]} | n in g ensures Distinct(g[n]) && Elems(g[n]) <= g.Keys {
      if n != node {
        assert Elems(f[n]) <= f.Keys;
      }
    }
    forall n {:trigger Family(n, g[n])} | n in g ensures Family(n, g[n]) {
      if n != node {
        assert Family(n, f[n]);
      }
    }
    forall c {:trigger Placed(c, g)} | c in g ensures Placed(c, g) {
      if c != node {
        assert Placed(c, f);
      }
    }
    LinksOf(g);
    forall n, c | n in g && c in g[n] ensures c in rank[node := 0] && rank[node := 0][c] < rank[node := 0][n] {
      assert c in Elems(f[n]);
    }
  }

  /** Where `after` is once `x` is out: it is the last only if it was, or if `x` was right behind it at the end. */
  lemma AfterFacts(f: Forest, p: XMLNode, after: XMLNode, x: XMLNode)
    requires Links(f) && p in f && after in f && after.parent == p && x in f && x != after
    ensures var s := Without(f[p], x);
      after in s && (IndexOf(s, after) + 1 == |s| <==>
        after.next == null || (after.next == x && x.next == null))
    ensures after.next == x ==> x.parent == p
  {
    PlacedIn(f, after);
    PlacedIn(f, x);
    FamilyOf(f, p);
    var s, a := f[p], IndexOf(f[p], after);
    assert Sits(p, s, a);
    WithoutIsRemoval(s, x);
    if x in s {
      var b := IndexOf(s, x);
      assert Sits(p, s, b);
      IndexIs(Without(s, x), after, if a < b then a else a - 1);
    } else if a < |s| - 1 {
      assert Sits(p, s, a + 1);
    }
  }

  lemma IndexIs(s: seq<XMLNode>, x: XMLNode, k: nat)
    requires Distinct(s) && k < |s| && s[k] == x
    ensures IndexOf(s, x) == k
  {
  }

  lemma AfterNext(f: Forest, p: XMLNode, after: XMLNode, k: nat)
    requires Links(f) && p in f && 0 < k <= |f[p]| && f[p][k - 1] == after
    ensures after.next == null <==> k == |f[p]|
  {
    FamilyOf(f, p);
    assert Sits(p, f[p], k - 1);
  }

  /** `x`, in no tree, is to come in among the children of `p`. */
  ghost predicate Inserts(e: Change, p: XMLNode, x: XMLNode)
    reads e.f.Keys
  {
    e.p == p && e.x == x && x in e.r && Sensible(e) && Links(e.f) && Loose(x) && x !in e.f[p]
  }

  twostate lemma RootsAfterCut(e: Change)
    requires Sensible(e) && Kept(e) && Loose(e.x)
    ensures Roots(e.f[e.p := e.r]) == old(Roots(e.f)) + {e.x}
  {
  }

  twostate lemma RootsAfter(e: Change)
    requires Sensible(e) && Kept(e) && Family(e.p, e.r) && e.x in e.r
    ensures Roots(e.f[e.p := e.r]) == old(Roots(e.f)) - {e.x}
  {
    assert Sits(e.p, e.r, IndexOf(e.r, e.x));
  }

  // ----- What a deletion leaves ----------------------------------------------------------------------

  ghost function Pruned(f: Forest, dead: set<XMLNode>): (g: Forest)
    ensures g.Keys == f.Keys - dead
  {
    map n | n in f && n !in dead :: f[n]
  }

  /** `dead` is the first `i` children of `p` with everything under them. */
  ghost predicate IsBelow(f: Forest, rank: map<XMLNode, nat>, p: XMLNode, i: nat, dead: set<XMLNode>) {
    p in f && i <= |f[p]| && Elems(f[p][..i]) <= dead && dead <= f.Keys && f.Keys <= rank.Keys &&
    forall d {:trigger d in dead} :: d in dead ==>
      Elems(f[d]) <= dead && rank[d] < rank[p] && (d in f[p][..i] || exists n :: n in dead && d in f[n])
  }

  lemma Uprooted(f: Forest, rank: map<XMLNode, nat>, node: XMLNode)
    requires Links(f) && Ranked(f, rank) && node in f && f[node] == [] && Loose(node)
    ensures Links(Pruned(f, {node})) && Ranked(Pruned(f, {node}), rank)
    ensures Roots(Pruned(f, {node})) == Roots(f) - {node}
  {
    var g := Pruned(f, {node});
    forall n | n in g ensures Distinct(g[n]) && Elems(g[n]) <= g.Keys && Family(n, g[n]) {
      FamilyOf(f, n);
      if node in f[n] {
        ParentOf(f, n, node);
      }
    }
    forall c {:trigger Placed(c, g)} | c in g ensures Placed(c, g) {
      PlacedIn(f, c);
    }
    LinksOf(g);
  }

  lemma WholeSubtree(f: Forest, rank: map<XMLNode, nat>, node: XMLNode, below: set<XMLNode>)
    requires Ranked(f, rank) && node in f && IsBelow(f, rank, node, |f[node]|, below)
    ensures IsSubtree(f, rank, node, below + {node})
    ensures Pruned(Pruned(f, below)[node := []], {node}) == Pruned(f, below + {node})
  {
    assert f[node][..|f[node]|] == f[node];
  }

  /** The subtree of a child that has been cut off is its subtree in the forest it was cut from. */
  lemma CutSubtree(f: Forest, rank: map<XMLNode, nat>, p: XMLNode, child: XMLNode, dead: set<XMLNode>)
    requires Ranked(f, rank) && p in f && child in f[p] && Detached(f, child) == f[p := Without(f[p], child)]
    requires IsSubtree(Detached(f, child), rank, child, dead)
    ensures IsSubtree(f, rank, child, dead) && p !in dead
    ensures Pruned(Detached(f, child), dead) == Pruned(f, dead)[p := Without(f[p], child)]
  {
    var g := Detached(f, child);
    assert p !in dead;
    forall d {:trigger d in dead} | d in dead ensures f[d] == g[d] {
    }
  }

  /** `g` is `f` without `dead`, the first `i` children of `p` with everything under them. */
  ghost predicate LeftOver(f: Forest, rank: map<XMLNode, nat>, p: XMLNode, i: nat, dead: set<XMLNode>, g: Forest) {
    IsBelow(f, rank, p, i, dead) && g == Pruned(f, dead)[p := f[p][i..]]
  }

  /** Nothing is above a root but itself. */
  lemma {:induction false} RootIsTop(f: Forest, x: XMLNode, root: XMLNode, k: nat)
    requires Links(f) && root.parent == null && Below(f, x, root, k)
    ensures x == root
    decreases k
  {
    if k > 0 {
      var c :| c in f[x] && Below(f, c, root, k - 1);
      RootIsTop(f, c, root, k - 1);
      ParentOf(f, x, c);
    }
  }

  lemma {:induction false} Highest(s: set<XMLNode>, rank: map<XMLNode, nat>) returns (top: XMLNode)
    requires s != {} && s <= rank.Keys
    ensures top in s && forall n :: n in s ==> rank[n] <= rank[top]
  {
    var n :| n in s;
    if s == {n} {
      top := n;
    } else {
      assert s - {n} != {};
      top := Highest(s - {n}, rank);
      if rank[top] < rank[n] {
        top := n;
      }
    }
  }

  /** A forest whose only root is childless is that root. */
  lemma NoOrphans(f: Forest, rank: map<XMLNode, nat>, root: XMLNode)
    requires Links(f) && Ranked(f, rank) && Roots(f) == {root} && f[root] == []
    ensures f == map[root := []]
  {
    assert root in Roots(f);
    var others := f.Keys - {root};
    assert f.Keys == others + {root};
    if others != {} {
      var top := Highest(others, rank);
      PlacedIn(f, top);
    }
  }

  lemma Outcome(f: Forest, rank: map<XMLNode, nat>, node: XMLNode, dead: set<XMLNode>)
    requires Ranked(f, rank) && IsSubtree(f, rank, node, dead)
    ensures var g := Pruned(Detached(f, node), dead);
      && (forall d :: d in f ==> (d !in g <==> Descends(f, node, d)))
      && forall n :: n in g ==> g[n] == Detached(f, node)[n]
  {
    SubtreeIsDescendants(f, rank, node, dead);
  }

  lemma ChildFacts(f: Forest, rank: map<XMLNode, nat>, p: XMLNode, c: XMLNode)
    requires Links(f) && Ranked(f, rank) && p in f && c in f[p]
    ensures c.parent == p && c in f && c in rank && rank[c] < rank[p] && Elems(f[p]) <= f.Keys
    ensures Ranked(Detached(f, c), rank)
  {
    ParentOf(f, p, c);
    FamilyOf(f, p);
    assert c in Elems(f[p]);
    DetachedKeepsRanks(f, rank, c);
  }

  lemma AllLeft(f: Forest, rank: map<XMLNode, nat>, p: XMLNode)
    requires Ranked(f, rank) && p in f
    ensures LeftOver(f, rank, p, 0, {}, f)
  {
  }

  lemma NoneLeft(f: Forest, rank: map<XMLNode, nat>, p: XMLNode, i: nat, dead: set<XMLNode>, g: Forest)
    requires LeftOver(f, rank, p, i, dead, g) && p in g && g[p] == []
    ensures IsBelow(f, rank, p, |f[p]|, dead) && g == Pruned(f, dead)[p := []]
  {
  }

  lemma NextLeft(f: Forest, rank: map<XMLNode, nat>, p: XMLNode, i: nat, dead: set<XMLNode>, g: Forest)
    requires LeftOver(f, rank, p, i, dead, g) && Links(g) && Ranked(g, rank)
    ensures p in g && g.Keys <= f.Keys && |g[p]| == |f[p]| - i && p in rank
    ensures p.firstChild == Nth(g[p], 0) && p.lastChild == Nth(g[p], |g[p]| - 1)
    ensures |g[p]| > 0 ==> g[p][0] in g[p] && g[p][0] in g && g[p][0] in rank && rank[g[p][0]] < rank[p]
  {
    FamilyOf(g, p);
    if |g[p]| > 0 {
      assert g[p][0] in Elems(g[p]);
    }
  }

  lemma OneMoreBelow(f: Forest, rank: map<XMLNode, nat>, p: XMLNode, i: nat, dead: set<XMLNode>, g: Forest,
      more: set<XMLNode>)
    requires Ranked(f, rank) && LeftOver(f, rank, p, i, dead, g) && i < |f[p]| && Distinct(f[p])
    requires IsSubtree(g, rank, f[p][i], more)
    ensures IsBelow(f, rank, p, i + 1, dead + more) && p !in more
  {
    assert p !in more;
    assert f[p][..i + 1] == f[p][..i] + [f[p][i]];
    forall d {:trigger d in more} | d in more ensures f[d] == g[d] {
    }
    hide Ranked, Distinct;
  }

  lemma OneLessLeft(f: Forest, rank: map<XMLNode, nat>, p: XMLNode, i: nat, dead: set<XMLNode>, g: Forest,
      more: set<XMLNode>)
    requires Ranked(f, rank) && LeftOver(f, rank, p, i, dead, g) && |g[p]| > 0 && Distinct(f[p])
    requires IsSubtree(g, rank, g[p][0], more)
    ensures LeftOver(f, rank, p, i + 1, dead + more, Pruned(g, more)[p := Without(g[p], g[p][0])])
  {
    OneMoreBelow(f, rank, p, i, dead, g, more);
    IndexIs(f[p][i..], g[p][0], 0);
    hide Ranked, Distinct, IsBelow, IsSubtree;
    assert Without(g[p], g[p][0]) == f[p][i + 1..];
  }

  class XMLDocument {
    var self: XMLNode?
    var unlinked: seq<XMLNode>
    /** How many nodes the pools have given out and not been told to track. */
    var untracked: int
    ghost var kids: Forest
    ghost var rank: map<XMLNode, nat>

    ghost predicate Owned()
      reads this`self, this`kids, this`unlinked
    {
      self != null && self in kids && Distinct(unlinked) && forall n :: n in kids ==> n.document == this
    }

    /** The pointers make a forest, and the nodes in no tree are listed, once, but for those in hand. */
    ghost predicate Consistent(inHand: set<XMLNode>)
      reads this`self, this`kids, this`rank, this`unlinked, kids.Keys
    {
      Owned() && Links(kids) && Ranked(kids, rank) &&
      self in Roots(kids) && self !in inHand && inHand <= Roots(kids) &&
       Elems(unlinked) == Roots(kids) - {self} - inHand
    }

    /** Between public calls nothing is in hand. */
    ghost predicate Valid()
      reads this, kids.Keys
    {
      Consistent({}) && untracked == |unlinked|
    }

    /** The node in hand has gone into the forest `g`. */
    ghost method Replant(g: Forest, ranks: map<XMLNode, nat>)
      requires Owned() && g.Keys == kids.Keys && Links(g) && Ranked(g, ranks)
      requires self in Roots(g) && Elems(unlinked) == Roots(g) - {self} && untracked == |unlinked|
      modifies this`kids, this`rank
      ensures Valid() && kids == g && rank == ranks
    {
      hide Links, Ranked, Roots, Elems;
      kids, rank := g, ranks;
    }

    /** A childless node in hand goes back to its pool. */
    ghost method Uproot(node: XMLNode, inHand: set<XMLNode>)
      requires Consistent(inHand + {node}) && node in kids && kids[node] == [] && node != self
      modifies this`kids
      ensures Consistent(inHand - {node}) && kids == Pruned(old(kids), {node})
    {
      assert node in inHand + {node};
      PlacedIn(kids, node);
      Uprooted(kids, rank, node);
      hide Links, Ranked, Distinct, Roots;
      kids := Pruned(kids, {node});
    }

    constructor ()
      ensures Valid() && fresh(self) && kids == map[self := []]
    {
      self, unlinked, untracked := null, [], 0;
      new;
      var node := new XMLNode(this);
      self := node;
      kids, rank := map[node := []], map[node := 0];
    }

    /** A node comes off the list of the unlinked, if it is there. */
    method MarkInUse(node: XMLNode)
      requires Distinct(unlinked)
      modifies this`unlinked
      ensures Distinct(unlinked) && Elems(unlinked) == Elems(old(unlinked)) - {node}
      ensures |unlinked| == |old(unlinked)| - if node in old(unlinked) then 1 else 0
      ensures node !in old(unlinked) ==> unlinked == old(unlinked)
    {
      for i := 0 to |unlinked|
        invariant unlinked == old(unlinked) && node !in unlinked[..i]
      {
        if node == unlinked[i] {
          RemovedElems(unlinked, i);
          unlinked := DynArray.Removed(unlinked, i);
          return;
        }
      }
    }

    /** A node, wherever it is, dies with its descendants, and with nothing else. */
    method DeleteNode(node: XMLNode)
      requires Valid() && node in kids && node != self
      modifies this`kids, this`unlinked, this`untracked, kids.Keys
      ensures Valid() && kids.Keys <= old(kids.Keys)
      ensures forall d :: d in old(kids) ==> (d !in kids <==> Descends(old(kids), node, d))
      ensures forall n :: n in kids ==> kids[n] == Detached(old(kids), node)[n]
      ensures |unlinked| == old(|unlinked|) - if old(node.parent) == null then 1 else 0
    {
      ghost var f := kids;
      PlacedIn(f, node);
      assert node.document == this;
      ghost var dead;
      if node.parent != null {
        assert node.parent.document == this;
        DetachedFrom(f, node.parent, node);
        hide Links, Ranked, Detached, Without, Roots, Family, Distinct, Elems, XMLDocument.Owned, Descends, Pruned,
             IsSubtree;
        dead := node.parent.DeleteChild(node, {});
      } else {
        DetachedRoot(f, node);
        assert node in Elems(unlinked) && node in unlinked;
        hide Links, Ranked, Detached, Without, Roots, Family, Distinct, Elems, XMLDocument.Owned, Descends, Pruned,
             IsSubtree;
        untracked := untracked - 1;
        dead := XMLNode.DeleteNode(node, {});
        assert {} - {node} == {};
      }
      Outcome(f, rank, node, dead);
    }

    /** Everything goes but the document's own node. */
    method Clear()
      requires Valid()
      modifies this`kids, this`unlinked, this`untracked, kids.Keys
      ensures Valid() && kids == map[self := []] && unlinked == [] && untracked == 0
    {
      ghost var f := kids;
      ghost var dead := self.DeleteChildren({});
      while |unlinked| != 0
        invariant Valid() && kids.Keys <= f.Keys && kids[self] == []
        decreases |unlinked|
      {
        UnlinkedIsRoot(unlinked[0]);
        DeleteNode(unlinked[0]);
      }
      RootsWhenDone();
      NoOrphans(kids, rank, self);
    }

    lemma RootsWhenDone()
      requires Valid() && unlinked == []
      ensures Links(kids) && Ranked(kids, rank) && self != null && self in kids && Roots(kids) == {self}
    {
      hide Links, Ranked;
      assert Elems(unlinked) == {};
    }

    lemma UnlinkedIsRoot(node: XMLNode)
      requires Valid() && node in unlinked
      ensures node in kids && node != self && node.parent == null && !Descends(kids, node, self)
      ensures Detached(kids, node) == kids
    {
      assert node in Elems(unlinked);
      DetachedRoot(kids, node);
      if Descends(kids, node, self) {
        var k: nat :| Below(kids, node, self, k);
        RootIsTop(kids, node, self, k);
      }
    }

    /** A new node, in no tree. */
    method CreateUnlinkedNode() returns (node: XMLNode)
      requires Valid()
      modifies this
      ensures Valid() && fresh(node) && self == old(self)
      ensures kids == old(kids)[node := []] && unlinked == old(unlinked) + [node]
    {
      hide Links, Ranked;
      node := new XMLNode(this);
      WithNewNode(kids, rank, node);
      assert node !in Elems(unlinked) && Elems(unlinked + [node]) == Elems(unlinked) + {node};
      untracked := untracked + 1;
      unlinked := unlinked + [node];
      kids, rank := kids[node := []], rank[node := 0];
    }
  }

  class XMLNode {
    var parent: XMLNode?
    var firstChild: XMLNode?
    var lastChild: XMLNode?
    var prev: XMLNode?
    var next: XMLNode?
    const document: XMLDocument?

    constructor (document: XMLDocument?)
      ensures this.document == document
      ensures parent == firstChild == lastChild == prev == next == null
    {
      this.document := document;
      parent, firstChild, lastChild, prev, next := null, null, null, null, null;
    }

    method Unlink(child: XMLNode, ghost s: seq<XMLNode>, ghost k: nat)
      requires Family(this, s) && Distinct(s) && k < |s| && s[k] == child
      modifies this`firstChild, this`lastChild, Elems(s)`prev, Elems(s)`next, child`parent
      ensures Family(this, RemoveAt(s, k))
      ensures child.parent == null && child.prev == null && child.next == null
    {
      label L:
      assert Sits(this, s, k);
      assert k > 0 ==> Sits(this, s, k - 1);
      assert k < |s| - 1 ==> Sits(this, s, k + 1);
      if child == firstChild {
        firstChild := firstChild.next;
      }
      if child == lastChild {
        lastChild := lastChild.prev;
      }
      if child.prev != null {
        child.prev.next := child.next;
      }
      if child.next != null {
        child.next.prev := child.prev;
      }
      child.next := null;
      child.prev := null;
      child.parent := null;
      forall i {:trigger Skips(this, s, k, i)} | 0 <= i < |s| && i != k ensures Skips(this, s, k, i) {
        assert old(Sits(this, s, i));
      }
      assert Skipping(this, s, k);
      hide Nth, RemoveAt, Family;
      SkippingIsFamily(this, s, k);
    }

    /** `Unlink` on the forest: the child comes out of its parent's list and nothing else changes. */
    method Detach(child: XMLNode)
      requires document != null && Links(document.kids) && this in document.kids && child in document.kids[this]
      modifies document`kids, this`firstChild, this`lastChild, Elems(document.kids[this])`prev
      modifies Elems(document.kids[this])`next, child`parent
      ensures Links(document.kids) && document.kids == Detached(old(document.kids), child) && Loose(child)
      ensures Roots(document.kids) == old(Roots(document.kids)) + {child}
    {
      ghost var f := document.kids;
      ghost var s, k := f[this], IndexOf(f[this], child);
      FamilyOf(f, this);
      ParentOf(f, this, child);
      DetachedFrom(f, this, child);
      WithoutIsRemoval(s, child);
      assert RemoveAt(s, k) == Without(s, child);
      hide Family, Distinct, RemoveAt, Without, Detached, Nth, Links, WellFormed, Sits, Roots;
      Unlink(child, s, k);
      document.kids := Detached(f, child);
      ghost var e := Change(f, this, child, Without(s, child));
      Relinked(e);
      RootsAfterCut(e);
    }

    /** The pointers for `addThis` after the last child. */
    method LinkEnd(addThis: XMLNode, ghost s: seq<XMLNode>)
      requires Family(this, s) && addThis !in s
      modifies this`firstChild, this`lastChild, Elems(s)`next, addThis`parent, addThis`prev, addThis`next
      ensures Family(this, InsertAt(s, |s|, addThis))
    {
      assert |s| > 0 ==> Sits(this, s, |s| - 1);
      if lastChild != null {
        lastChild.next := addThis;
        addThis.prev := lastChild;
        lastChild := addThis;
        addThis.next := null;
      } else {
        firstChild := addThis;
        lastChild := addThis;
        addThis.prev := null;
        addThis.next := null;
      }
      addThis.parent := this;
      forall i {:trigger Parts(this, s, |s|, addThis, i)} | 0 <= i < |s| ensures Parts(this, s, |s|, addThis, i) {
        assert old(Sits(this, s, i));
      }
      PartingIsFamily(this, s, |s|, addThis);
    }

    /** `addThis`, in no tree, after the last child. */
    method JoinEnd(addThis: XMLNode, ghost e: Change)
      requires Inserts(e, this, addThis) && e.r == InsertAt(e.f[this], |e.f[this]|, addThis)
      modifies this`firstChild, this`lastChild, Elems(e.f[this])`next, addThis`parent, addThis`prev, addThis`next
      ensures Links(e.f[this := e.r]) && Roots(e.f[this := e.r]) == old(Roots(e.f)) - {addThis}
    {
      FamilyOf(e.f, this);
      hide Links, Distinct, InsertAt, Family, Sensible, Roots;
      LinkEnd(addThis, e.f[this]);
      Relinked(e);
      RootsAfter(e);
    }

    /** The pointers for `addThis` before the first child. */
    method LinkFirst(addThis: XMLNode, ghost s: seq<XMLNode>)
      requires Family(this, s) && addThis !in s
      modifies this`firstChild, this`lastChild, Elems(s)`prev, addThis`parent, addThis`prev, addThis`next
      ensures Family(this, InsertAt(s, 0, addThis))
    {
      assert |s| > 0 ==> Sits(this, s, 0);
      if firstChild != null {
        firstChild.prev := addThis;
        addThis.next := firstChild;
        firstChild := addThis;
        addThis.prev := null;
      } else {
        firstChild := addThis;
        lastChild := addThis;
        addThis.prev := null;
        addThis.next := null;
      }
      addThis.parent := this;
      forall i {:trigger Parts(this, s, 0, addThis, i)} | 0 <= i < |s| ensures Parts(this, s, 0, addThis, i) {
        assert old(Sits(this, s, i));
      }
      PartingIsFamily(this, s, 0, addThis);
    }

    method JoinFirst(addThis: XMLNode, ghost e: Change)
      requires Inserts(e, this, addThis) && e.r == InsertAt(e.f[this], 0, addThis)
      modifies this`firstChild, this`lastChild, Elems(e.f[this])`prev, addThis`parent, addThis`prev, addThis`next
      ensures Links(e.f[this := e.r]) && Roots(e.f[this := e.r]) == old(Roots(e.f)) - {addThis}
    {
      FamilyOf(e.f, this);
      hide Links, Distinct, InsertAt, Family, Sensible, Roots;
      LinkFirst(addThis, e.f[this]);
      Relinked(e);
      RootsAfter(e);
    }

    /** The pointers for `addThis` after the child at `k - 1`, which is not the last. */
    method LinkAfter(afterThis: XMLNode, addThis: XMLNode, ghost s: seq<XMLNode>, ghost k: nat)
      requires Family(this, s) && Distinct(s) && addThis !in s && 0 < k < |s| && s[k - 1] == afterThis
      modifies Elems(s)`prev, Elems(s)`next, addThis`parent, addThis`prev, addThis`next
      ensures Family(this, InsertAt(s, k, addThis))
    {
      assert Sits(this, s, k - 1);
      assert Sits(this, s, k);
      addThis.prev := afterThis;
      addThis.next := afterThis.next;
      afterThis.next.prev := addThis;
      afterThis.next := addThis;
      addThis.parent := this;
      forall i {:trigger Parts(this, s, k, addThis, i)} | 0 <= i < |s| ensures Parts(this, s, k, addThis, i) {
        assert old(Sits(this, s, i));
      }
      PartingIsFamily(this, s, k, addThis);
    }

    method JoinAfter(afterThis: XMLNode, addThis: XMLNode, ghost e: Change, ghost k: nat)
      requires Inserts(e, this, addThis) && 0 < k < |e.f[this]| && e.f[this][k - 1] == afterThis
      requires e.r == InsertAt(e.f[this], k, addThis)
      modifies Elems(e.f[this])`prev, Elems(e.f[this])`next, addThis`parent, addThis`prev, addThis`next
      ensures Links(e.f[this := e.r]) && Roots(e.f[this := e.r]) == old(Roots(e.f)) - {addThis}
    {
      FamilyOf(e.f, this);
      hide Links, Distinct, InsertAt, Family, Sensible, Roots;
      LinkAfter(afterThis, addThis, e.f[this], k);
      Relinked(e);
      RootsAfter(e);
    }

    /** The child comes out of the list, into the hand. */
    method CutOff(child: XMLNode, ghost inHand: set<XMLNode>)
      requires document != null && document.Consistent(inHand) && this in document.kids && child in document.kids[this]
      modifies document`kids, document.kids.Keys
      ensures document.Consistent(inHand + {child}) && document.kids == Detached(old(document.kids), child)
      ensures Loose(child) && child !in inHand && child !in document.unlinked && child != document.self
      ensures child in document.kids && child in document.rank && document.kids.Keys == old(document.kids.Keys)
    {
      hide Links, Detached, Without, Placed, Family, Distinct, Roots, Ranked, Elems;
      NotARoot(child, inHand);
      ChildFacts(document.kids, document.rank, this, child);
      Detach(child);
    }

    lemma NotARoot(child: XMLNode, inHand: set<XMLNode>)
      requires document != null && document.Consistent(inHand) && this in document.kids && child in document.kids[this]
      ensures child !in Roots(document.kids) && child !in document.unlinked && child !in inHand
      ensures child != document.self
      ensures child in document.kids && child in document.rank
    {
      ChildFacts(document.kids, document.rank, this, child);
      assert child !in Elems(document.unlinked);
    }

    /** The node comes out of wherever it is. */
    method TakeOut(insertThis: XMLNode)
      requires document != null && document.Valid() && insertThis in document.kids && insertThis != document.self
      modifies document`kids, document`unlinked, document`untracked, document.kids.Keys
      ensures document.kids == Detached(old(document.kids), insertThis)
      ensures document.Consistent({insertThis}) && Loose(insertThis)
      ensures document.untracked == |document.unlinked|
    {
      hide Ranked, Distinct, Detached, Without, Links;
      ghost var f := document.kids;
      PlacedIn(f, insertThis);
      if insertThis.parent != null {
        insertThis.parent.CutOff(insertThis, {});
        assert {} + {insertThis} == {insertThis};
      } else {
        DetachedRoot(f, insertThis);
        assert insertThis in Elems(document.unlinked);
        document.MarkInUse(insertThis);
        document.untracked := document.untracked - 1;
      }
    }

    /** The node comes out of wherever it is, to go to place `k` among the children of this one. */
    method InsertChildPreamble(insertThis: XMLNode, ghost k: nat)
      returns (ghost e: Change, ghost ranks: map<XMLNode, nat>)
      requires MayInsert(insertThis) && k <= |Without(document.kids[this], insertThis)|
      modifies document`kids, document`unlinked, document`untracked, document.kids.Keys
      ensures document.Consistent({insertThis}) && document.untracked == |document.unlinked|
      ensures Inserts(e, this, insertThis) && Elems(e.f[this]) <= e.f.Keys && e.f == document.kids
      ensures document.kids.Keys == old(document.kids.Keys)
      ensures e.f == Detached(old(document.kids), insertThis) && e.r == InsertAt(e.f[this], k, insertThis)
      ensures e.f[this := e.r] == Moved(old(document.kids), insertThis, this, k) && Ranked(e.f[this := e.r], ranks)
    {
      hide Links, Ranked, Distinct, Detached, Without, Family, Sensible, Moved, Raised, InsertAt, Roots, Descends;
      hide XMLDocument.Owned, Loose;
      ghost var f := document.kids;
      MoveFacts(f, document.rank, insertThis, this, k);
      ranks := Raised(f, document.rank, insertThis, this);
      TakeOut(insertThis);
      e := Change(document.kids, this, insertThis, InsertAt(document.kids[this], k, insertThis));
      FamilyOf(e.f, this);
    }

    /** A node of the same document, not the document itself, that this node is not in. */
    ghost predicate MayInsert(addThis: XMLNode)
      reads this, document, if document == null then {} else document.kids.Keys
    {
      document != null && document.Valid() && this in document.kids &&
      addThis in document.kids && addThis != document.self && !Descends(document.kids, addThis, this)
    }

    /** `addThis` comes out of wherever it is and becomes the last child. */
    method InsertEndChild(addThis: XMLNode) returns (r: XMLNode?)
      requires document != null && document.Valid() && this in document.kids
      requires addThis.document == document ==> MayInsert(addThis)
      modifies document, document.kids.Keys
      ensures document.Valid()
      ensures r == if addThis.document == document then addThis else null
      ensures r == null ==> document.kids == old(document.kids)
      ensures r != null ==>
                  document.kids == Moved(old(document.kids), addThis, this,
                                         |Without(old(document.kids[this]), addThis)|)
    {
      if addThis.document != document {
        return null;
      }
      r := addThis;
      hide Links, Ranked, Distinct, Without, Moved, InsertAt, Roots, Descends, Sensible, Loose, Elems;
      ghost var e, ranks := InsertChildPreamble(addThis, |Without(document.kids[this], addThis)|);
      JoinEnd(addThis, e);
      document.Replant(e.f[this := e.r], ranks);
    }

    /** `addThis` comes out of wherever it is and becomes the first child. */
    method InsertFirstChild(addThis: XMLNode) returns (r: XMLNode?)
      requires document != null && document.Valid() && this in document.kids
      requires addThis.document == document ==> MayInsert(addThis)
      modifies document, document.kids.Keys
      ensures document.Valid()
      ensures r == if addThis.document == document then addThis else null
      ensures r == null ==> document.kids == old(document.kids)
      ensures r != null ==> document.kids == Moved(old(document.kids), addThis, this, 0)
    {
      if addThis.document != document {
        return null;
      }
      r := addThis;
      hide Links, Ranked, Distinct, Without, Moved, InsertAt, Roots, Descends, Sensible, Loose, Elems;
      ghost var e, ranks := InsertChildPreamble(addThis, 0);
      JoinFirst(addThis, e);
      document.Replant(e.f[this := e.r], ranks);
    }

    /** `addThis` comes out of wherever it is and goes right after the child `afterThis`. The code follows a null
        pointer exactly when `addThis` was already there, as the last child. */
    method InsertAfterChild(afterThis: XMLNode, addThis: XMLNode) returns (r: XMLNode?, nullDereference: bool)
      requires document != null && document.Valid() && this in document.kids && afterThis in document.kids
      requires addThis.document == document ==> MayInsert(addThis)
      modifies document, document.kids.Keys
      ensures nullDereference <==> old(addThis.document == document && afterThis.parent == this &&
        afterThis.next == addThis && addThis.next == null)
      ensures !nullDereference ==> document.Valid()
      ensures !nullDereference ==>
        (r == if addThis.document == document && old(afterThis.parent) == this then addThis else null)
      ensures (r == null && !nullDereference) || afterThis == addThis ==> document.kids == old(document.kids)
      ensures r != null && afterThis != addThis ==>
        afterThis in Without(old(document.kids[this]), addThis) &&
        document.kids == Moved(old(document.kids), addThis, this,
          IndexOf(Without(old(document.kids[this]), addThis), afterThis) + 1)
    {
      nullDereference := false;
      if addThis.document != document {
        return null, false;
      }
      if afterThis.parent != this {
        return null, false;
      }
      if afterThis == addThis {
        return addThis, false;
      }
      AfterFacts(document.kids, this, afterThis, addThis);
      if afterThis.next == null {
        r := InsertEndChild(addThis);
        return;
      }
      nullDereference := InsertBetween(afterThis, addThis,
        IndexOf(Without(document.kids[this], addThis), afterThis) + 1);
      r := if nullDereference then null else addThis;
    }

    /** The rest of `InsertAfterChild`: `addThis` goes to place `k`, right after `afterThis`. */
    method InsertBetween(afterThis: XMLNode, addThis: XMLNode, ghost k: nat) returns (nullDereference: bool)
      requires MayInsert(addThis) && 0 < k <= |Without(document.kids[this], addThis)|
      requires Without(document.kids[this], addThis)[k - 1] == afterThis
      modifies document, document.kids.Keys
      ensures nullDereference <==> k == |Without(old(document.kids[this]), addThis)|
      ensures !nullDereference ==> document.Valid() && document.kids == Moved(old(document.kids), addThis, this, k)
    {
      hide Links, Ranked, Distinct, Without, Moved, InsertAt, Roots, Descends, Sensible, Loose, Elems;
      ghost var e, ranks := InsertChildPreamble(addThis, k);
      AfterNext(e.f, this, afterThis, k);
      if afterThis.next == null {
        return true;
      }
      JoinAfter(afterThis, addThis, e, k);
      document.Replant(e.f[this := e.r], ranks);
      nullDereference := false;
    }

    /** The child comes out of the list and dies with everything under it. */
    method DeleteChild(node: XMLNode, ghost inHand: set<XMLNode>) returns (ghost dead: set<XMLNode>)
      requires document != null && document.Consistent(inHand) && this in document.kids && node in document.kids[this]
      modifies document`kids, document`unlinked, document.kids.Keys
      ensures document.Consistent(inHand) && IsSubtree(old(document.kids), document.rank, node, dead)
      ensures document.kids == Pruned(old(document.kids), dead)[this := Without(old(document.kids[this]), node)]
      ensures document.kids == Pruned(Detached(old(document.kids), node), dead)
      ensures document.unlinked == old(document.unlinked)
      decreases document.rank[node], 3
    {
      ghost var f := document.kids;
      DetachedFrom(f, this, node);
      hide Links, Ranked, Detached, Without, Placed, Pruned, IsSubtree, Roots, Distinct, Elems;
      CutOff(node, inHand);
      dead := DeleteNode(node, inHand + {node});
      assert inHand + {node} - {node} == inHand;
      CutSubtree(f, document.rank, this, node, dead);
    }

    /** The node, in no tree, dies with everything under it. */
    static method DeleteNode(node: XMLNode, ghost inHand: set<XMLNode>) returns (ghost dead: set<XMLNode>)
      requires node.document != null && node.document.Consistent(inHand) && node in node.document.kids
      requires node != node.document.self && node.parent == null
      modifies node.document`kids, node.document`unlinked, node.document.kids.Keys
      ensures node.document.Consistent(inHand - {node})
      ensures IsSubtree(old(node.document.kids), node.document.rank, node, dead)
      ensures node.document.kids == Pruned(old(node.document.kids), dead)
      ensures |node.document.unlinked| == old(|node.document.unlinked|) -
                (if node in old(node.document.unlinked) then 1 else 0)
      ensures node !in old(node.document.unlinked) ==> node.document.unlinked == old(node.document.unlinked)
      decreases node.document.rank[node], 2
    {
      ghost var d, f := node.document, node.document.kids;
      hide Links, Ranked, Placed, Pruned, IsSubtree, IsBelow, Family, Distinct;
      assert node in Roots(f);
      if node != node.document.self {
        node.document.MarkInUse(node);
      }
      dead := node.DeleteChildren(inHand + {node});
      WholeSubtree(f, d.rank, node, dead);
      dead := dead + {node};
      d.Uproot(node, inHand);
    }

    method DeleteChildren(ghost inHand: set<XMLNode>) returns (ghost dead: set<XMLNode>)
      requires document != null && document.Consistent(inHand) && this in document.kids
      modifies document`kids, document`unlinked, document.kids.Keys
      ensures document.Consistent(inHand)
      ensures IsBelow(old(document.kids), document.rank, this, |old(document.kids[this])|, dead)
      ensures document.kids == Pruned(old(document.kids), dead)[this := []]
      ensures document.unlinked == old(document.unlinked)
      decreases document.rank[this], 1
    {
      ghost var f, i := document.kids, 0;
      dead := {};
      AllLeft(f, document.rank, this);
      LinksWellFormed(f);
      assert Distinct(f[this]);
      hide Links, Ranked, Placed, Pruned, IsSubtree, IsBelow, LeftOver, Family, Distinct, Without, Roots, Elems;
      hide WellFormed, XMLDocument.Owned;
      while firstChild != null
        invariant document.Consistent(inHand) && document.unlinked == old(document.unlinked)
        invariant LeftOver(f, document.rank, this, i, dead, document.kids) && document.kids.Keys <= f.Keys
        invariant this in document.kids
        decreases |document.kids[this]|
      {
        dead := DeleteFirst(f, i, dead, inHand);
        i := i + 1;
      }
      EndDeletion(f, i, dead, inHand);
    }

    /** What the loop over the children leaves. */
    method EndDeletion(ghost f: Forest, ghost i: nat, ghost dead: set<XMLNode>, ghost inHand: set<XMLNode>)
      requires document != null && document.Consistent(inHand) && firstChild == null && this in document.kids
      requires LeftOver(f, document.rank, this, i, dead, document.kids)
      modifies this`firstChild, this`lastChild
      ensures document.Consistent(inHand)
      ensures IsBelow(f, document.rank, this, |f[this]|, dead) && document.kids == Pruned(f, dead)[this := []]
    {
      hide Links, Ranked, Placed, Pruned, IsSubtree, IsBelow, LeftOver, Family, Distinct, Without, Roots, Elems,
           WellFormed;
      NextLeft(f, document.rank, this, i, dead, document.kids);
      NoneLeft(f, document.rank, this, i, dead, document.kids);
      ghost var g := document.kids;
      Sever();
      assert Links(g) && Roots(g) == old(Roots(g));
    }

    method Sever()
      requires firstChild == lastChild == null
      modifies this`firstChild, this`lastChild
      ensures unchanged(this)
    {
      firstChild := null;
      lastChild := null;
    }

    /** One turn of the loop. */
    method DeleteFirst(ghost f: Forest, ghost i: nat, ghost dead: set<XMLNode>, ghost inHand: set<XMLNode>)
      returns (ghost dead': set<XMLNode>)
      requires document != null && document.Consistent(inHand) && firstChild != null
      requires LeftOver(f, document.rank, this, i, dead, document.kids)
      requires Ranked(f, document.rank) && Distinct(f[this]) && this in document.kids
      modifies document`kids, document`unlinked, document.kids.Keys
      ensures document.Consistent(inHand) && document.unlinked == old(document.unlinked)
      ensures LeftOver(f, document.rank, this, i + 1, dead', document.kids)
      ensures this in document.kids && |document.kids[this]| < |old(document.kids[this])|
      ensures document.kids.Keys <= old(document.kids.Keys)
      decreases document.rank[this], 0
    {
      ghost var g := document.kids;
      NextLeft(f, document.rank, this, i, dead, g);
      hide Links, Ranked, Placed, Pruned, IsSubtree, LeftOver, Family, Distinct, Without, Roots;
      ghost var more := DeleteChild(firstChild, inHand);
      OneLessLeft(f, document.rank, this, i, dead, g, more);
      dead' := dead + more;
      NextLeft(f, document.rank, this, i + 1, dead', document.kids);
    }
  }

  // ----- An insertion that follows a null pointer ----------------------------------------------

  lemma ChildlessIsAlone(f: Forest, x: XMLNode, p: XMLNode)
    requires x in f && f[x] == [] && x != p
    ensures !Descends(f, x, p)
  {
  }

  lemma NewIsLast(f: Forest, x: XMLNode, p: XMLNode)
    requires WellFormed(f) && x !in f && p in f
    ensures var g := f[x := []];
      Without(g[p], x) == f[p] && Moved(g, x, p, |Without(g[p], x)|) == g[p := f[p] + [x]]
  {
    var g := f[x := []];
    forall n | n in g ensures Without(g[n], x) == g[n] {
      assert x in g[n] ==> x in Elems(g[n]);
    }
    assert Detached(g, x) == g;
    assert InsertAt(f[p], |f[p]|, x) == f[p] + [x];
  }

  /** A new node becomes the last child. */
  method AddChild(document: XMLDocument, parent: XMLNode) returns (node: XMLNode)
    requires document.Valid() && parent in document.kids
    modifies document, document.kids.Keys
    ensures document.Valid() && fresh(node) && node.document == document
    ensures document.kids == old(document.kids)[node := []][parent := old(document.kids[parent]) + [node]]
  {
    hide Links, Ranked, Roots, Distinct, Elems, Without, Moved, Descends;
    LinksWellFormed(document.kids);
    ghost var f := document.kids;
    node := document.CreateUnlinkedNode();
    ChildlessIsAlone(document.kids, node, parent);
    NewIsLast(f, node, parent);
    var inserted := parent.InsertEndChild(node);
  }

  lemma TwoChildren(f: Forest, n: XMLNode, a: XMLNode, b: XMLNode)
    requires Links(f) && n in f && f[n] == [a, b]
    ensures a.parent == n && b.parent == n && a.next == b && b.next == null
  {
    FamilyOf(f, n);
    assert Sits(n, f[n], 0) && Sits(n, f[n], 1);
  }

  /** The last child, inserted behind the child that it already stands behind. */
  method LastBehindItsNeighbour() returns (nullDereference: bool)
    ensures nullDereference
  {
    hide Links, Ranked, Distinct, Elems, Descends;
    var document := new XMLDocument();
    var self := document.self;
    var a := AddChild(document, self);
    var b := AddChild(document, self);
    assert [a] + [b] == [a, b];
    TwoChildren(document.kids, self, a, b);
    ChildlessIsAlone(document.kids, b, self);
    var inserted;
    inserted, nullDereference := self.InsertAfterChild(a, b);
  }
}
