/** The pages of an index file and the shape every B+ tree operation keeps. */
module TreePages {
  import opened Keys

  type PageId = int

  const INVALID_PAGE: PageId := -1

  datatype Entry = Entry(key: int, rid: RecordId)
  datatype Child = Child(key: int, page: PageId)

  datatype Node =
    | Leaf(parent: PageId, prev: PageId, next: PageId, entries: seq<Entry>)
    | Internal(parent: PageId, children: seq<Child>)

  type Heap = map<PageId, Node>

  datatype Bound = Open | At(key: int)
  datatype Shape = Shape(level: int, lo: Bound, hi: Bound)
  type Shapes = map<PageId, Shape>

  datatype Pending = Settled | Split(left: PageId, right: PageId)

  predicate AtLeast(k: int, lo: Bound) { lo.At? ==> lo.key <= k }
  predicate Above(k: int, lo: Bound) { lo.At? ==> lo.key < k }
  predicate Below(k: int, hi: Bound) { hi.At? ==> k < hi.key }
  predicate Within(k: int, s: Shape) { AtLeast(k, s.lo) && Below(k, s.hi) }

  ghost predicate SortedEntries(es: seq<Entry>) {
    forall i, j :: 0 <= i < j < |es| ==> es[i].key < es[j].key
  }

  ghost predicate SortedChildren(cs: seq<Child>) {
    forall i, j :: 1 <= i < j < |cs| ==> cs[i].key < cs[j].key
  }

  ghost predicate NodeOk(n: Node, s: Shape) {
    && (s.lo.At? ==> Below(s.lo.key, s.hi))
    && match n
       case Leaf(_, _, _, es) =>
         && s.level == 0
         && SortedEntries(es)
         && (forall i :: 0 <= i < |es| ==> Within(es[i].key, s))
       case Internal(_, cs) =>
         && s.level > 0
         && |cs| > 0
         && (s.lo.At? ==> cs[0].key == s.lo.key)
         && SortedChildren(cs)
         && (forall i :: 1 <= i < |cs| ==> Above(cs[i].key, s.lo) && Below(cs[i].key, s.hi))
  }

  ghost predicate InternalAt(P: Heap, p: PageId) {
    p in P && P[p].Internal?
  }

  ghost predicate LeafAt(P: Heap, p: PageId) {
    p in P && P[p].Leaf?
  }

  ghost function ChildShape(n: Node, s: Shape, i: nat): Shape
    requires n.Internal? && i < |n.children|
  {
    Shape(s.level - 1,
          if i == 0 then s.lo else At(n.children[i].key),
          if i + 1 < |n.children| then At(n.children[i + 1].key) else s.hi)
  }

  ghost predicate Covers(S: Shapes, pend: Pending, c: PageId, s: Shape) {
    && c in S
    && S[c].level == s.level
    && S[c].lo == s.lo
    && (if pend.Split? && c == pend.left then pend.right in S && S[pend.right].hi == s.hi else S[c].hi == s.hi)
  }

  ghost predicate ChildOk(P: Heap, S: Shapes, pend: Pending, p: PageId, i: nat) {
    && InternalAt(P, p) && i < |P[p].children|
    && p in S
    && var c := P[p].children[i].page;
    && c in P
    && P[c].parent == p
    && (pend.Split? ==> c != pend.right)
    && Covers(S, pend, c, ChildShape(P[p], S[p], i))
  }

  ghost predicate HasChild(n: Node, c: PageId) {
    n.Internal? && exists i :: 0 <= i < |n.children| && n.children[i].page == c
  }

  ghost predicate ParentOk(P: Heap, S: Shapes, root: PageId, pend: Pending, p: PageId) {
    && p in P && p in S && root in S
    && if p == root then
         && P[p].parent == INVALID_PAGE
         && Covers(S, pend, p, Shape(S[p].level, Open, Open))
       else if pend.Split? && p == pend.right then
         true
       else
         && P[p].parent in P
         && HasChild(P[P[p].parent], p)
         && S[p].level < S[root].level
  }

  ghost predicate NextOk(P: Heap, S: Shapes, p: PageId) {
    LeafAt(P, p) ==>
      p in S &&
      if S[p].hi.Open? then P[p].next == INVALID_PAGE
      else
        var q := P[p].next;
        LeafAt(P, q) && P[q].prev == p && q in S && S[q].lo == S[p].hi
  }

  ghost predicate PrevOk(P: Heap, S: Shapes, p: PageId) {
    LeafAt(P, p) ==>
      p in S &&
      if S[p].lo.Open? then P[p].prev == INVALID_PAGE
      else
        var q := P[p].prev;
        LeafAt(P, q) && P[q].next == p && q in S && S[q].hi == S[p].lo
  }

  ghost predicate PendingOk(P: Heap, S: Shapes, root: PageId, pend: Pending) {
    pend.Split? ==>
      var L, R := pend.left, pend.right;
      && L in P && R in P && L in S && R in S && L != R && R != root
      && S[L].level == S[R].level
      && S[L].hi.At?
      && S[L].hi == S[R].lo
      && (LeafAt(P, L) ==> P[L].next == R)
  }

  ghost predicate TreeOk(P: Heap, S: Shapes, root: PageId, pend: Pending) {
    && P.Keys == S.Keys
    && root in P
    && INVALID_PAGE !in P
    && PendingOk(P, S, root, pend)
    && (forall p {:trigger NodeOk(P[p], S[p])} :: p in P ==> NodeOk(P[p], S[p]))
    && (forall p, i {:trigger ChildOk(P, S, pend, p, i)} ::
          InternalAt(P, p) && 0 <= i < |P[p].children| ==> ChildOk(P, S, pend, p, i))
    && (forall p {:trigger ParentOk(P, S, root, pend, p)} :: p in P ==> ParentOk(P, S, root, pend, p))
    && (forall p {:trigger NextOk(P, S, p)} {:trigger PrevOk(P, S, p)} :: p in P ==> NextOk(P, S, p) && PrevOk(P, S, p))
  }

  // ------------------------------------------------------------------

  function Insert<T>(s: seq<T>, i: nat, x: T): (r: seq<T>)
    requires i <= |s|
  {
    s[..i] + [x] + s[i..]
  }

  function Remove<T>(s: seq<T>, i: nat): (r: seq<T>)
    requires i < |s|
  {
    s[..i] + s[i + 1..]
  }

  lemma DistinctChildren(P: Heap, S: Shapes, root: PageId, pend: Pending, p: PageId, i: nat, j: nat)
    requires TreeOk(P, S, root, pend)
    requires InternalAt(P, p) && i < j < |P[p].children|
    ensures P[p].children[i].page != P[p].children[j].page
  {
    assert NodeOk(P[p], S[p]);
    assert ChildOk(P, S, pend, p, i) && ChildOk(P, S, pend, p, j);
  }

  // Link: a split page's right half gets its slot in the parent.

  ghost function LinkHeap(P: Heap, p: PageId, j: nat, c: Child): Heap
    requires InternalAt(P, p) && j <= |P[p].children| && c.page in P
  {
    var Q := P[p := P[p].(children := Insert(P[p].children, j, c))];
    Q[c.page := Q[c.page].(parent := p)]
  }

  ghost predicate LinkPre(P: Heap, S: Shapes, root: PageId, p: PageId, j: nat, L: PageId, R: PageId) {
    && TreeOk(P, S, root, Split(L, R))
    && InternalAt(P, p) && p != R && j < |P[p].children| && P[p].children[j].page == L
    && R in S && S[R].lo.At?
  }

  lemma InsertAt<T>(s: seq<T>, i: nat, x: T, k: nat)
    requires i <= |s| && k < |s| + 1
    ensures Insert(s, i, x)[k] == if k < i then s[k] else if k == i then x else s[k - 1]
  {
  }

  lemma InsertChild(n: Node, s: Shape, j: nat, c: Child)
    requires n.Internal? && NodeOk(n, s) && j < |n.children|
    requires Above(c.key, s.lo) && Below(c.key, s.hi)
    requires 0 < j ==> n.children[j].key < c.key
    requires j + 1 < |n.children| ==> c.key < n.children[j + 1].key
    ensures NodeOk(n.(children := Insert(n.children, j + 1, c)), s)
  {
    var cs := n.children;
    var ds := Insert(cs, j + 1, c);
    forall i | 1 <= i < |ds| ensures Above(ds[i].key, s.lo) && Below(ds[i].key, s.hi) {
      InsertAt(cs, j + 1, c, i);
    }
    forall x, y | 1 <= x < y < |ds| ensures ds[x].key < ds[y].key {
      InsertAt(cs, j + 1, c, x);
      InsertAt(cs, j + 1, c, y);
    }
  }

  lemma LinkNode(P: Heap, S: Shapes, root: PageId, p: PageId, j: nat, L: PageId, R: PageId, q: PageId)
    requires LinkPre(P, S, root, p, j, L, R) && q in P
    ensures NodeOk(LinkHeap(P, p, j + 1, Child(S[R].lo.key, R))[q], S[q])
  {
    assert NodeOk(P[q], S[q]);
    if q == p {
      assert ChildOk(P, S, Split(L, R), p, j);
      assert NodeOk(P[L], S[L]);
      assert NodeOk(P[R], S[R]);
      InsertChild(P[p], S[p], j, Child(S[R].lo.key, R));
    }
  }

  lemma LinkChild(P: Heap, S: Shapes, root: PageId, p: PageId, j: nat, L: PageId, R: PageId, q: PageId, i: nat)
    requires LinkPre(P, S, root, p, j, L, R) && q in P
    requires var Q := LinkHeap(P, p, j + 1, Child(S[R].lo.key, R)); Q[q].Internal? && i < |Q[q].children|
    ensures ChildOk(LinkHeap(P, p, j + 1, Child(S[R].lo.key, R)), S, Settled, q, i)
  {
    if q == p {
      assert ChildOk(P, S, Split(L, R), p, j);
      if i <= j {
        assert ChildOk(P, S, Split(L, R), p, i);
        if i < j {
          DistinctChildren(P, S, root, Split(L, R), p, i, j);
        }
      } else if i > j + 1 {
        assert ChildOk(P, S, Split(L, R), p, i - 1);
        DistinctChildren(P, S, root, Split(L, R), p, j, i - 1);
      }
    } else {
      assert ChildOk(P, S, Split(L, R), p, j);
      assert ChildOk(P, S, Split(L, R), q, i);
    }
  }

  lemma LinkParent(P: Heap, S: Shapes, root: PageId, p: PageId, j: nat, L: PageId, R: PageId, q: PageId)
    requires LinkPre(P, S, root, p, j, L, R) && q in P
    ensures ParentOk(LinkHeap(P, p, j + 1, Child(S[R].lo.key, R)), S, root, Settled, q)
  {
    var k := S[R].lo.key;
    var Q := LinkHeap(P, p, j + 1, Child(k, R));
    var cs, ds := P[p].children, Q[p].children;
    assert ChildOk(P, S, Split(L, R), p, j);
    assert ParentOk(P, S, root, Split(L, R), L);
    assert ParentOk(P, S, root, Split(L, R), q);
    if q == R {
      assert ds[j + 1].page == R;
    } else if q != root && P[q].parent == p {
      var i :| 0 <= i < |cs| && cs[i].page == q;
      assert ds[if i <= j then i else i + 1].page == q;
    }
  }

  lemma LinkLinks(P: Heap, S: Shapes, root: PageId, p: PageId, j: nat, L: PageId, R: PageId, q: PageId)
    requires LinkPre(P, S, root, p, j, L, R) && q in P
    ensures var Q := LinkHeap(P, p, j + 1, Child(S[R].lo.key, R)); NextOk(Q, S, q) && PrevOk(Q, S, q)
  {
    assert NextOk(P, S, q) && PrevOk(P, S, q);
  }

  lemma LinkOk(P: Heap, S: Shapes, root: PageId, p: PageId, j: nat, L: PageId, R: PageId)
    requires LinkPre(P, S, root, p, j, L, R)
    ensures TreeOk(LinkHeap(P, p, j + 1, Child(S[R].lo.key, R)), S, root, Settled)
  {
    var Q := LinkHeap(P, p, j + 1, Child(S[R].lo.key, R));
    forall q | q in Q ensures NodeOk(Q[q], S[q]) { LinkNode(P, S, root, p, j, L, R, q); }
    forall q, i | InternalAt(Q, q) && 0 <= i < |Q[q].children| ensures ChildOk(Q, S, Settled, q, i) {
      LinkChild(P, S, root, p, j, L, R, q, i);
    }
    forall q | q in Q ensures ParentOk(Q, S, root, Settled, q) { LinkParent(P, S, root, p, j, L, R, q); }
    forall q | q in Q ensures NextOk(Q, S, q) && PrevOk(Q, S, q) { LinkLinks(P, S, root, p, j, L, R, q); }
  }

  // Facts about one settled tree.

  lemma ParentSlot(P: Heap, S: Shapes, root: PageId, pend: Pending, q: PageId) returns (i: nat)
    requires TreeOk(P, S, root, pend) && q in P && q != root
    requires pend.Split? ==> q != pend.right
    ensures InternalAt(P, P[q].parent) && i < |P[P[q].parent].children| && P[P[q].parent].children[i].page == q
    ensures ChildOk(P, S, pend, P[q].parent, i)
    ensures S[P[q].parent].level == S[q].level + 1 <= S[root].level
    ensures NodeOk(P[P[q].parent], S[P[q].parent])
  {
    assert ParentOk(P, S, root, pend, q);
    var p := P[q].parent;
    i :| 0 <= i < |P[p].children| && P[p].children[i].page == q;
    assert ChildOk(P, S, pend, p, i);
    assert NodeOk(P[p], S[p]);
    assert p != root ==> ParentOk(P, S, root, pend, p);
  }

  lemma SlotUnique(n: Node, s: Shape, k: int, i: nat, j: nat)
    requires n.Internal? && NodeOk(n, s) && i < |n.children| && j < |n.children|
    requires Within(k, ChildShape(n, s, i)) && Within(k, ChildShape(n, s, j))
    ensures i == j
  {
  }

  lemma SlotWithin(n: Node, s: Shape, k: int, i: nat)
    requires n.Internal? && NodeOk(n, s) && i < |n.children|
    requires Within(k, ChildShape(n, s, i))
    ensures Within(k, s)
  {
  }

  /** At one level, at most one page covers a key. */
  lemma {:induction false} OnePagePerLevel(P: Heap, S: Shapes, root: PageId, p: PageId, q: PageId, k: int)
    requires TreeOk(P, S, root, Settled) && p in P && q in P
    requires S[p].level == S[q].level
    requires Within(k, S[p]) && Within(k, S[q])
    ensures p == q
    decreases S[root].level - S[p].level
  {
    assert ParentOk(P, S, root, Settled, p) && ParentOk(P, S, root, Settled, q);
    if p != root && q != root {
      var i := ParentSlot(P, S, root, Settled, p);
      var j := ParentSlot(P, S, root, Settled, q);
      var pp, qq := P[p].parent, P[q].parent;
      SlotWithin(P[pp], S[pp], k, i);
      SlotWithin(P[qq], S[qq], k, j);
      OnePagePerLevel(P, S, root, pp, qq, k);
      SlotUnique(P[pp], S[pp], k, i, j);
    }
  }

  // Unlink: a child leaves its parent and is covered by its left neighbour again.

  ghost function UnlinkHeap(P: Heap, p: PageId, j: nat): Heap
    requires InternalAt(P, p) && j < |P[p].children|
  {
    P[p := P[p].(children := Remove(P[p].children, j))]
  }

  ghost predicate UnlinkPre(P: Heap, S: Shapes, root: PageId, p: PageId, j: nat) {
    TreeOk(P, S, root, Settled) && InternalAt(P, p) && 1 <= j < |P[p].children|
  }

  lemma UnlinkPending(P: Heap, S: Shapes, root: PageId, p: PageId, j: nat)
    requires UnlinkPre(P, S, root, p, j)
    ensures var L, R := P[p].children[j - 1].page, P[p].children[j].page;
      PendingOk(UnlinkHeap(P, p, j), S, root, Split(L, R)) && S[R].lo == At(P[p].children[j].key)
  {
    var L, R := P[p].children[j - 1].page, P[p].children[j].page;
    assert ChildOk(P, S, Settled, p, j - 1) && ChildOk(P, S, Settled, p, j);
    DistinctChildren(P, S, root, Settled, p, j - 1, j);
    assert ParentOk(P, S, root, Settled, R);
    if LeafAt(P, L) {
      assert NextOk(P, S, L);
      assert NodeOk(P[L], S[L]) && NodeOk(P[R], S[R]);
      var x := P[L].next;
      assert NodeOk(P[x], S[x]);
      OnePagePerLevel(P, S, root, x, R, S[R].lo.key);
    }
  }

  lemma RemoveAt<T>(s: seq<T>, i: nat, k: nat)
    requires i < |s| && k < |s| - 1
    ensures Remove(s, i)[k] == if k < i then s[k] else s[k + 1]
  {
  }

  lemma RemoveChild(n: Node, s: Shape, j: nat)
    requires n.Internal? && NodeOk(n, s) && 1 <= j < |n.children|
    ensures NodeOk(n.(children := Remove(n.children, j)), s)
  {
    var cs := n.children;
    var ds := Remove(cs, j);
    forall i | 1 <= i < |ds| ensures Above(ds[i].key, s.lo) && Below(ds[i].key, s.hi) {
      RemoveAt(cs, j, i);
    }
    forall x, y | 1 <= x < y < |ds| ensures ds[x].key < ds[y].key {
      RemoveAt(cs, j, x);
      RemoveAt(cs, j, y);
    }
  }

  lemma UnlinkChild(P: Heap, S: Shapes, root: PageId, p: PageId, j: nat, q: PageId, i: nat)
    requires UnlinkPre(P, S, root, p, j)
    requires var Q := UnlinkHeap(P, p, j); InternalAt(Q, q) && i < |Q[q].children|
    ensures ChildOk(UnlinkHeap(P, p, j), S, Split(P[p].children[j - 1].page, P[p].children[j].page), q, i)
  {
    assert ChildOk(P, S, Settled, p, j - 1) && ChildOk(P, S, Settled, p, j);
    if q == p {
      var x := if i < j then i else i + 1;
      RemoveAt(P[p].children, j, i);
      assert ChildOk(P, S, Settled, p, x);
      if i < j {
        DistinctChildren(P, S, root, Settled, p, i, j);
        if i < j - 1 { DistinctChildren(P, S, root, Settled, p, i, j - 1); }
      } else {
        DistinctChildren(P, S, root, Settled, p, j, x);
        DistinctChildren(P, S, root, Settled, p, j - 1, x);
      }
    } else {
      assert ChildOk(P, S, Settled, q, i);
    }
  }

  lemma UnlinkParent(P: Heap, S: Shapes, root: PageId, p: PageId, j: nat, q: PageId)
    requires UnlinkPre(P, S, root, p, j) && q in P
    ensures ParentOk(UnlinkHeap(P, p, j), S, root, Split(P[p].children[j - 1].page, P[p].children[j].page), q)
  {
    var cs := P[p].children;
    var ds := Remove(cs, j);
    assert ChildOk(P, S, Settled, p, j - 1) && ChildOk(P, S, Settled, p, j);
    assert ParentOk(P, S, root, Settled, P[p].children[j - 1].page);
    assert ParentOk(P, S, root, Settled, q);
    if q != root && q != cs[j].page && P[q].parent == p {
      var i :| 0 <= i < |cs| && cs[i].page == q;
      assert ds[if i < j then i else i - 1].page == q;
    }
  }

  lemma UnlinkLinks(P: Heap, S: Shapes, root: PageId, p: PageId, j: nat, q: PageId)
    requires UnlinkPre(P, S, root, p, j) && q in P
    ensures var Q := UnlinkHeap(P, p, j); NextOk(Q, S, q) && PrevOk(Q, S, q)
  {
    assert NextOk(P, S, q) && PrevOk(P, S, q);
  }

  lemma UnlinkOk(P: Heap, S: Shapes, root: PageId, p: PageId, j: nat)
    requires UnlinkPre(P, S, root, p, j)
    ensures var L, R := P[p].children[j - 1].page, P[p].children[j].page;
      TreeOk(UnlinkHeap(P, p, j), S, root, Split(L, R)) && S[R].lo == At(P[p].children[j].key)
  {
    var Q := UnlinkHeap(P, p, j);
    var pend := Split(P[p].children[j - 1].page, P[p].children[j].page);
    UnlinkPending(P, S, root, p, j);
    forall q | q in Q ensures NodeOk(Q[q], S[q]) {
      assert NodeOk(P[q], S[q]);
      if q == p { RemoveChild(P[p], S[p], j); }
    }
    forall q, i | InternalAt(Q, q) && 0 <= i < |Q[q].children| ensures ChildOk(Q, S, pend, q, i) {
      UnlinkChild(P, S, root, p, j, q, i);
    }
    forall q | q in Q ensures ParentOk(Q, S, root, pend, q) { UnlinkParent(P, S, root, p, j, q); }
    forall q | q in Q ensures NextOk(Q, S, q) && PrevOk(Q, S, q) { UnlinkLinks(P, S, root, p, j, q); }
  }
}
