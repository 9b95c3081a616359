/** The page rewrites the index performs on one node and its neighbours, each
    shown to keep the shape of the whole tree. */
module TreeSteps {
  import opened TreePages

  ghost predicate Lists(cs: seq<Child>, q: PageId) {
    exists i :: 0 <= i < |cs| && cs[i].page == q
  }

  ghost function Reparent(P: Heap, cs: seq<Child>, p: PageId): (Q: Heap)
    ensures Q.Keys == P.Keys
  {
    map q | q in P :: if Lists(cs, q) then P[q].(parent := p) else P[q]
  }

  ghost function SplitShapes(S: Shapes, p: PageId, np: PageId, k: int): Shapes
    requires p in S
  {
    S[p := S[p].(hi := At(k))][np := S[p].(lo := At(k))]
  }

  // Splitting an internal page.

  ghost function SplitInternalHeap(P: Heap, p: PageId, m: nat, np: PageId): Heap
    requires InternalAt(P, p) && m <= |P[p].children|
  {
    var cs := P[p].children;
    Reparent(P[p := P[p].(children := cs[..m])][np := Internal(P[p].parent, cs[m..])], cs[m..], np)
  }

  ghost predicate SplitInternalPre(P: Heap, S: Shapes, root: PageId, p: PageId, m: nat, np: PageId) {
    TreeOk(P, S, root, Settled) && InternalAt(P, p) && 1 <= m < |P[p].children| && np !in P && np != INVALID_PAGE
  }

  lemma NotListed(P: Heap, S: Shapes, root: PageId, pend: Pending, p: PageId, m: nat, q: PageId)
    requires TreeOk(P, S, root, pend) && InternalAt(P, p) && m <= |P[p].children| && q in P
    ensures Lists(P[p].children[m..], q) ==> P[q].parent == p && q != root && S[q].level + 1 == S[p].level
    ensures forall i :: 0 <= i < m && P[p].children[i].page == q ==> !Lists(P[p].children[m..], q)
  {
    var ds := P[p].children[m..];
    if Lists(ds, q) {
      var x :| 0 <= x < |ds| && ds[x].page == q;
      assert ChildOk(P, S, pend, p, m + x);
      assert NodeOk(P[p], S[p]);
      assert ParentOk(P, S, root, pend, q);
      forall i | 0 <= i < m && P[p].children[i].page == q ensures false {
        DistinctChildren(P, S, root, pend, p, i, m + x);
      }
    }
  }

  lemma SplitInternalNode(n: Node, s: Shape, m: nat)
    requires n.Internal? && NodeOk(n, s) && 1 <= m < |n.children|
    ensures var k := n.children[m].key;
      && NodeOk(n.(children := n.children[..m]), s.(hi := At(k)))
      && NodeOk(n.(children := n.children[m..]), s.(lo := At(k)))
  {
  }

  lemma SplitInternalChild(P: Heap, S: Shapes, root: PageId, p: PageId, m: nat, np: PageId, q: PageId, i: nat)
    requires SplitInternalPre(P, S, root, p, m, np)
    requires var Q := SplitInternalHeap(P, p, m, np); InternalAt(Q, q) && i < |Q[q].children|
    ensures ChildOk(SplitInternalHeap(P, p, m, np), SplitShapes(S, p, np, P[p].children[m].key), Split(p, np), q, i)
  {
    assert NodeOk(P[p], S[p]);
    if q == p {
      assert ChildOk(P, S, Settled, p, i);
      NotListed(P, S, root, Settled, p, m, P[p].children[i].page);
    } else if q == np {
      assert P[p].children[m..][i] == P[p].children[m + i];
      assert ChildOk(P, S, Settled, p, m + i);
    } else {
      assert ChildOk(P, S, Settled, q, i);
      NotListed(P, S, root, Settled, p, m, P[q].children[i].page);
    }
  }

  lemma SplitInternalParent(P: Heap, S: Shapes, root: PageId, p: PageId, m: nat, np: PageId, q: PageId)
    requires SplitInternalPre(P, S, root, p, m, np) && q in P
    ensures ParentOk(SplitInternalHeap(P, p, m, np), SplitShapes(S, p, np, P[p].children[m].key), root, Split(p, np), q)
  {
    var cs := P[p].children;
    var Q := SplitInternalHeap(P, p, m, np);
    assert NodeOk(P[p], S[p]);
    assert ParentOk(P, S, root, Settled, q) && ParentOk(P, S, root, Settled, p);
    NotListed(P, S, root, Settled, p, m, q);
    if Lists(cs[m..], q) {
      assert HasChild(Q[np], q);
    } else if q != root && P[q].parent == p {
      var i :| 0 <= i < |cs| && cs[i].page == q;
      assert i < m;
      assert cs[..m][i].page == q;
    }
  }

  lemma SplitInternalLinks(P: Heap, S: Shapes, root: PageId, p: PageId, m: nat, np: PageId, q: PageId)
    requires SplitInternalPre(P, S, root, p, m, np) && q in P
    ensures var Q, Z := SplitInternalHeap(P, p, m, np), SplitShapes(S, p, np, P[p].children[m].key);
      NextOk(Q, Z, q) && PrevOk(Q, Z, q)
  {
    assert NextOk(P, S, q) && PrevOk(P, S, q);
  }

  lemma SplitInternalOk(P: Heap, S: Shapes, root: PageId, p: PageId, m: nat, np: PageId)
    requires SplitInternalPre(P, S, root, p, m, np)
    ensures TreeOk(SplitInternalHeap(P, p, m, np), SplitShapes(S, p, np, P[p].children[m].key), root, Split(p, np))
  {
    var Q, Z := SplitInternalHeap(P, p, m, np), SplitShapes(S, p, np, P[p].children[m].key);
    forall q | q in Q ensures NodeOk(Q[q], Z[q]) {
      assert NodeOk(P[p], S[p]);
      SplitInternalNode(P[p], S[p], m);
      if q != np { assert NodeOk(P[q], S[q]); }
    }
    forall q, i | InternalAt(Q, q) && 0 <= i < |Q[q].children| ensures ChildOk(Q, Z, Split(p, np), q, i) {
      SplitInternalChild(P, S, root, p, m, np, q, i);
    }
    forall q | q in Q ensures ParentOk(Q, Z, root, Split(p, np), q) {
      if q != np { SplitInternalParent(P, S, root, p, m, np, q); }
    }
    forall q | q in Q ensures NextOk(Q, Z, q) && PrevOk(Q, Z, q) {
      if q != np { SplitInternalLinks(P, S, root, p, m, np, q); }
    }
  }

  // Splitting a leaf.

  ghost function SetPrev(P: Heap, q: PageId, v: PageId): Heap
    requires q != INVALID_PAGE ==> LeafAt(P, q)
  {
    if q == INVALID_PAGE then P else P[q := P[q].(prev := v)]
  }

  ghost predicate SplitLeafPre(P: Heap, S: Shapes, root: PageId, L: PageId, R: PageId, k: int, le: seq<Entry>, re: seq<Entry>) {
    && TreeOk(P, S, root, Settled) && LeafAt(P, L) && R !in P && R != INVALID_PAGE
    && Above(k, S[L].lo) && Below(k, S[L].hi)
    && NodeOk(Leaf(0, 0, 0, le), S[L].(hi := At(k)))
    && NodeOk(Leaf(0, 0, 0, re), S[L].(lo := At(k)))
    && (P[L].next != INVALID_PAGE ==> LeafAt(P, P[L].next) && P[L].next != L)
  }

  ghost function SplitLeafHeap(P: Heap, L: PageId, R: PageId, le: seq<Entry>, re: seq<Entry>): Heap
    requires LeafAt(P, L) && R !in P
    requires P[L].next != INVALID_PAGE ==> LeafAt(P, P[L].next) && P[L].next != L
  {
    var x := P[L].next;
    SetPrev(P[L := P[L].(entries := le, next := R)][R := Leaf(P[L].parent, L, x, re)], x, R)
  }

  lemma LeafNextOk(P: Heap, S: Shapes, root: PageId, L: PageId)
    requires TreeOk(P, S, root, Settled) && LeafAt(P, L)
    ensures P[L].next != INVALID_PAGE ==> LeafAt(P, P[L].next) && P[L].next != L
  {
    assert NextOk(P, S, L) && NodeOk(P[L], S[L]);
  }

  lemma SplitLeafChild(P: Heap, S: Shapes, root: PageId, L: PageId, R: PageId, k: int, le: seq<Entry>, re: seq<Entry>, q: PageId, i: nat)
    requires SplitLeafPre(P, S, root, L, R, k, le, re)
    requires var Q := SplitLeafHeap(P, L, R, le, re); InternalAt(Q, q) && i < |Q[q].children|
    ensures ChildOk(SplitLeafHeap(P, L, R, le, re), SplitShapes(S, L, R, k), Split(L, R), q, i)
  {
    assert ChildOk(P, S, Settled, q, i);
  }

  lemma SplitLeafParent(P: Heap, S: Shapes, root: PageId, L: PageId, R: PageId, k: int, le: seq<Entry>, re: seq<Entry>, q: PageId)
    requires SplitLeafPre(P, S, root, L, R, k, le, re) && q in P
    ensures ParentOk(SplitLeafHeap(P, L, R, le, re), SplitShapes(S, L, R, k), root, Split(L, R), q)
  {
    assert ParentOk(P, S, root, Settled, q) && ParentOk(P, S, root, Settled, L);
  }

  lemma SplitLeafLinks(P: Heap, S: Shapes, root: PageId, L: PageId, R: PageId, k: int, le: seq<Entry>, re: seq<Entry>, q: PageId)
    requires SplitLeafPre(P, S, root, L, R, k, le, re) && (q in P || q == R)
    ensures var Q, Z := SplitLeafHeap(P, L, R, le, re), SplitShapes(S, L, R, k);
      NextOk(Q, Z, q) && PrevOk(Q, Z, q)
  {
    assert NextOk(P, S, L) && PrevOk(P, S, L) && NodeOk(P[L], S[L]);
    if q in P {
      assert NextOk(P, S, q) && PrevOk(P, S, q);
    }
  }

  lemma SplitLeafOk(P: Heap, S: Shapes, root: PageId, L: PageId, R: PageId, k: int, le: seq<Entry>, re: seq<Entry>)
    requires SplitLeafPre(P, S, root, L, R, k, le, re)
    ensures TreeOk(SplitLeafHeap(P, L, R, le, re), SplitShapes(S, L, R, k), root, Split(L, R))
  {
    var Q, Z := SplitLeafHeap(P, L, R, le, re), SplitShapes(S, L, R, k);
    assert NextOk(P, S, L);
    forall q | q in Q ensures NodeOk(Q[q], Z[q]) {
      if q != R { assert NodeOk(P[q], S[q]); }
    }
    forall q, i | InternalAt(Q, q) && 0 <= i < |Q[q].children| ensures ChildOk(Q, Z, Split(L, R), q, i) {
      SplitLeafChild(P, S, root, L, R, k, le, re, q, i);
    }
    forall q | q in Q ensures ParentOk(Q, Z, root, Split(L, R), q) {
      if q != R { SplitLeafParent(P, S, root, L, R, k, le, re, q); }
    }
    forall q | q in Q ensures NextOk(Q, Z, q) && PrevOk(Q, Z, q) {
      SplitLeafLinks(P, S, root, L, R, k, le, re, q);
    }
  }

  // Joining two pages, the inverse of a split.

  ghost function JoinShapes(S: Shapes, L: PageId, R: PageId): Shapes
    requires L in S && R in S
  {
    S[L := S[L].(hi := S[R].hi)] - {R}
  }

  ghost function JoinLeafHeap(P: Heap, L: PageId, R: PageId): Heap
    requires LeafAt(P, L) && LeafAt(P, R) && L != R
    requires P[R].next != INVALID_PAGE ==> LeafAt(P, P[R].next) && P[R].next != L && P[R].next != R
  {
    var x := P[R].next;
    SetPrev(P[L := P[L].(entries := P[L].entries + P[R].entries, next := x)], x, L) - {R}
  }

  ghost predicate JoinPre(P: Heap, S: Shapes, root: PageId, L: PageId, R: PageId) {
    TreeOk(P, S, root, Split(L, R))
  }

  lemma JoinLeafNode(P: Heap, S: Shapes, root: PageId, L: PageId, R: PageId)
    requires JoinPre(P, S, root, L, R) && LeafAt(P, L) && LeafAt(P, R)
    ensures NodeOk(P[L].(entries := P[L].entries + P[R].entries), S[L].(hi := S[R].hi))
  {
    assert NodeOk(P[L], S[L]) && NodeOk(P[R], S[R]);
  }

  lemma JoinLeafChild(P: Heap, S: Shapes, root: PageId, L: PageId, R: PageId, q: PageId, i: nat)
    requires JoinPre(P, S, root, L, R) && LeafAt(P, L) && LeafAt(P, R)
    requires P[R].next != INVALID_PAGE ==> LeafAt(P, P[R].next) && P[R].next != L && P[R].next != R
    requires var Q := JoinLeafHeap(P, L, R); InternalAt(Q, q) && i < |Q[q].children|
    ensures ChildOk(JoinLeafHeap(P, L, R), JoinShapes(S, L, R), Settled, q, i)
  {
    assert ChildOk(P, S, Split(L, R), q, i);
  }

  lemma JoinLeafParent(P: Heap, S: Shapes, root: PageId, L: PageId, R: PageId, q: PageId)
    requires JoinPre(P, S, root, L, R) && LeafAt(P, L) && LeafAt(P, R) && q in P && q != R
    requires P[R].next != INVALID_PAGE ==> LeafAt(P, P[R].next) && P[R].next != L && P[R].next != R
    ensures ParentOk(JoinLeafHeap(P, L, R), JoinShapes(S, L, R), root, Settled, q)
  {
    assert ParentOk(P, S, root, Split(L, R), q) && ParentOk(P, S, root, Split(L, R), L);
  }

  lemma JoinLeafLinks(P: Heap, S: Shapes, root: PageId, L: PageId, R: PageId, q: PageId)
    requires JoinPre(P, S, root, L, R) && LeafAt(P, L) && LeafAt(P, R) && q in P && q != R
    requires P[R].next != INVALID_PAGE ==> LeafAt(P, P[R].next) && P[R].next != L && P[R].next != R
    ensures var Q, Z := JoinLeafHeap(P, L, R), JoinShapes(S, L, R);
      NextOk(Q, Z, q) && PrevOk(Q, Z, q)
  {
    assert NodeOk(P[L], S[L]) && NodeOk(P[R], S[R]);
    assert NextOk(P, S, L) && PrevOk(P, S, L);
    assert NextOk(P, S, R) && PrevOk(P, S, R);
    assert NextOk(P, S, q) && PrevOk(P, S, q);
  }

  lemma JoinLeafOk(P: Heap, S: Shapes, root: PageId, L: PageId, R: PageId)
    requires JoinPre(P, S, root, L, R) && LeafAt(P, L) && LeafAt(P, R)
    requires P[R].next != INVALID_PAGE ==> LeafAt(P, P[R].next) && P[R].next != L && P[R].next != R
    ensures TreeOk(JoinLeafHeap(P, L, R), JoinShapes(S, L, R), root, Settled)
  {
    var Q, Z := JoinLeafHeap(P, L, R), JoinShapes(S, L, R);
    JoinLeafNode(P, S, root, L, R);
    forall q | q in Q ensures NodeOk(Q[q], Z[q]) {
      assert NodeOk(P[q], S[q]);
    }
    forall q, i | InternalAt(Q, q) && 0 <= i < |Q[q].children| ensures ChildOk(Q, Z, Settled, q, i) {
      JoinLeafChild(P, S, root, L, R, q, i);
    }
    forall q | q in Q ensures ParentOk(Q, Z, root, Settled, q) { JoinLeafParent(P, S, root, L, R, q); }
    forall q | q in Q ensures NextOk(Q, Z, q) && PrevOk(Q, Z, q) { JoinLeafLinks(P, S, root, L, R, q); }
  }

  ghost function JoinInternalHeap(P: Heap, L: PageId, R: PageId): Heap
    requires InternalAt(P, L) && InternalAt(P, R)
  {
    Reparent(P[L := P[L].(children := P[L].children + P[R].children)] - {R}, P[R].children, L)
  }

  lemma JoinInternalNode(P: Heap, S: Shapes, root: PageId, L: PageId, R: PageId)
    requires JoinPre(P, S, root, L, R) && InternalAt(P, L) && InternalAt(P, R)
    ensures NodeOk(P[L].(children := P[L].children + P[R].children), S[L].(hi := S[R].hi))
  {
    assert NodeOk(P[L], S[L]) && NodeOk(P[R], S[R]);
  }

  lemma JoinInternalChild(P: Heap, S: Shapes, root: PageId, L: PageId, R: PageId, q: PageId, i: nat)
    requires JoinPre(P, S, root, L, R) && InternalAt(P, L) && InternalAt(P, R)
    requires var Q := JoinInternalHeap(P, L, R); InternalAt(Q, q) && i < |Q[q].children|
    ensures ChildOk(JoinInternalHeap(P, L, R), JoinShapes(S, L, R), Settled, q, i)
  {
    assert NodeOk(P[L], S[L]) && NodeOk(P[R], S[R]);
    var n := |P[L].children|;
    if q == L && i >= n {
      assert ChildOk(P, S, Split(L, R), R, i - n);
      assert P[R].children[0..] == P[R].children;
      NotListed(P, S, root, Split(L, R), R, 0, P[R].children[i - n].page);
    } else {
      assert ChildOk(P, S, Split(L, R), q, i);
      assert P[R].children[0..] == P[R].children;
      NotListed(P, S, root, Split(L, R), R, 0, P[q].children[i].page);
    }
  }

  lemma JoinInternalParent(P: Heap, S: Shapes, root: PageId, L: PageId, R: PageId, q: PageId)
    requires JoinPre(P, S, root, L, R) && InternalAt(P, L) && InternalAt(P, R) && q in P && q != R
    ensures ParentOk(JoinInternalHeap(P, L, R), JoinShapes(S, L, R), root, Settled, q)
  {
    var Q := JoinInternalHeap(P, L, R);
    var cs, ds := P[L].children, P[R].children;
    assert ParentOk(P, S, root, Split(L, R), q) && ParentOk(P, S, root, Split(L, R), L);
    assert ds[0..] == ds;
    NotListed(P, S, root, Split(L, R), R, 0, q);
    if Lists(ds, q) {
      var i :| 0 <= i < |ds| && ds[i].page == q;
      assert Q[L].children[|cs| + i].page == q;
    } else if q != root && P[q].parent == L {
      var i :| 0 <= i < |cs| && cs[i].page == q;
      assert Q[L].children[i].page == q;
    }
  }

  lemma JoinInternalLinks(P: Heap, S: Shapes, root: PageId, L: PageId, R: PageId, q: PageId)
    requires JoinPre(P, S, root, L, R) && InternalAt(P, L) && InternalAt(P, R) && q in P && q != R
    ensures var Q, Z := JoinInternalHeap(P, L, R), JoinShapes(S, L, R); NextOk(Q, Z, q) && PrevOk(Q, Z, q)
  {
    assert NextOk(P, S, q) && PrevOk(P, S, q);
  }

  lemma JoinInternalOk(P: Heap, S: Shapes, root: PageId, L: PageId, R: PageId)
    requires JoinPre(P, S, root, L, R) && InternalAt(P, L) && InternalAt(P, R)
    ensures TreeOk(JoinInternalHeap(P, L, R), JoinShapes(S, L, R), root, Settled)
  {
    var Q, Z := JoinInternalHeap(P, L, R), JoinShapes(S, L, R);
    JoinInternalNode(P, S, root, L, R);
    forall q | q in Q ensures NodeOk(Q[q], Z[q]) { assert NodeOk(P[q], S[q]); }
    forall q, i | InternalAt(Q, q) && 0 <= i < |Q[q].children| ensures ChildOk(Q, Z, Settled, q, i) {
      JoinInternalChild(P, S, root, L, R, q, i);
    }
    forall q | q in Q ensures ParentOk(Q, Z, root, Settled, q) { JoinInternalParent(P, S, root, L, R, q); }
    forall q | q in Q ensures NextOk(Q, Z, q) && PrevOk(Q, Z, q) { JoinInternalLinks(P, S, root, L, R, q); }
  }

  // A new root above a split root, and a root with one child giving way to it.

  ghost function GrowHeap(P: Heap, L: PageId, R: PageId, nr: PageId, zero: int, k: int): Heap
    requires L in P && R in P
  {
    P[L := P[L].(parent := nr)][R := P[R].(parent := nr)][nr := Internal(INVALID_PAGE, [Child(zero, L), Child(k, R)])]
  }

  ghost function GrowShapes(S: Shapes, L: PageId, nr: PageId): Shapes
    requires L in S
  {
    S[nr := Shape(S[L].level + 1, Open, Open)]
  }

  ghost predicate GrowPre(P: Heap, S: Shapes, L: PageId, R: PageId, nr: PageId) {
    TreeOk(P, S, L, Split(L, R)) && nr !in P && nr != INVALID_PAGE
  }

  lemma GrowParent(P: Heap, S: Shapes, L: PageId, R: PageId, nr: PageId, zero: int, q: PageId)
    requires GrowPre(P, S, L, R, nr) && (q in P || q == nr)
    ensures ParentOk(GrowHeap(P, L, R, nr, zero, S[R].lo.key), GrowShapes(S, L, nr), nr, Settled, q)
  {
    var Q := GrowHeap(P, L, R, nr, zero, S[R].lo.key);
    assert Q[nr].children[0].page == L && Q[nr].children[1].page == R;
    if q in P { assert ParentOk(P, S, L, Split(L, R), q); }
  }

  lemma GrowChild(P: Heap, S: Shapes, L: PageId, R: PageId, nr: PageId, zero: int, q: PageId, i: nat)
    requires GrowPre(P, S, L, R, nr)
    requires var Q := GrowHeap(P, L, R, nr, zero, S[R].lo.key); InternalAt(Q, q) && i < |Q[q].children|
    ensures ChildOk(GrowHeap(P, L, R, nr, zero, S[R].lo.key), GrowShapes(S, L, nr), Settled, q, i)
  {
    assert ParentOk(P, S, L, Split(L, R), L);
    if q != nr {
      assert ChildOk(P, S, Split(L, R), q, i);
    }
  }

  lemma GrowNode(P: Heap, S: Shapes, L: PageId, R: PageId, nr: PageId, zero: int, q: PageId)
    requires GrowPre(P, S, L, R, nr) && (q in P || q == nr)
    ensures NodeOk(GrowHeap(P, L, R, nr, zero, S[R].lo.key)[q], GrowShapes(S, L, nr)[q])
  {
    assert NodeOk(P[L], S[L]) && NodeOk(P[R], S[R]);
    if q in P { assert NodeOk(P[q], S[q]); }
  }

  lemma GrowLinks(P: Heap, S: Shapes, L: PageId, R: PageId, nr: PageId, zero: int, q: PageId)
    requires GrowPre(P, S, L, R, nr) && (q in P || q == nr)
    ensures var Q, Z := GrowHeap(P, L, R, nr, zero, S[R].lo.key), GrowShapes(S, L, nr); NextOk(Q, Z, q) && PrevOk(Q, Z, q)
  {
    if q in P { assert NextOk(P, S, q) && PrevOk(P, S, q); }
  }

  lemma GrowOk(P: Heap, S: Shapes, L: PageId, R: PageId, nr: PageId, zero: int)
    requires GrowPre(P, S, L, R, nr)
    ensures TreeOk(GrowHeap(P, L, R, nr, zero, S[R].lo.key), GrowShapes(S, L, nr), nr, Settled)
  {
    var Q, Z := GrowHeap(P, L, R, nr, zero, S[R].lo.key), GrowShapes(S, L, nr);
    forall q | q in Q ensures NodeOk(Q[q], Z[q]) { GrowNode(P, S, L, R, nr, zero, q); }
    forall q, i | InternalAt(Q, q) && 0 <= i < |Q[q].children| ensures ChildOk(Q, Z, Settled, q, i) {
      GrowChild(P, S, L, R, nr, zero, q, i);
    }
    forall q | q in Q ensures ParentOk(Q, Z, nr, Settled, q) { GrowParent(P, S, L, R, nr, zero, q); }
    forall q | q in Q ensures NextOk(Q, Z, q) && PrevOk(Q, Z, q) { GrowLinks(P, S, L, R, nr, zero, q); }
  }

  ghost function CollapseHeap(P: Heap, root: PageId): Heap
    requires InternalAt(P, root) && |P[root].children| == 1 && P[root].children[0].page in P
  {
    var c := P[root].children[0].page;
    P[c := P[c].(parent := INVALID_PAGE)] - {root}
  }

  ghost predicate CollapsePre(P: Heap, S: Shapes, root: PageId) {
    TreeOk(P, S, root, Settled) && InternalAt(P, root) && |P[root].children| == 1 && P[root].children[0].page in P
  }

  lemma CollapseParent(P: Heap, S: Shapes, root: PageId, q: PageId)
    requires CollapsePre(P, S, root) && q in P && q != root
    ensures ParentOk(CollapseHeap(P, root), S - {root}, P[root].children[0].page, Settled, q)
  {
    var c := P[root].children[0].page;
    assert ChildOk(P, S, Settled, root, 0) && ParentOk(P, S, root, Settled, root) && NodeOk(P[root], S[root]);
    assert ParentOk(P, S, root, Settled, c) && ParentOk(P, S, root, Settled, q);
    if q != c {
      var i := ParentSlot(P, S, root, Settled, q);
      assert P[q].parent != root;
      assert ParentOk(P, S, root, Settled, P[q].parent);
    }
  }

  lemma CollapseChild(P: Heap, S: Shapes, root: PageId, q: PageId, i: nat)
    requires CollapsePre(P, S, root) && InternalAt(P, q) && q != root && i < |P[q].children|
    ensures ChildOk(CollapseHeap(P, root), S - {root}, Settled, q, i)
  {
    assert ChildOk(P, S, Settled, root, 0);
    assert ParentOk(P, S, root, Settled, root);
    assert ChildOk(P, S, Settled, q, i);
  }

  lemma CollapseOk(P: Heap, S: Shapes, root: PageId)
    requires CollapsePre(P, S, root)
    ensures TreeOk(CollapseHeap(P, root), S - {root}, P[root].children[0].page, Settled)
  {
    var Q, Z := CollapseHeap(P, root), S - {root};
    var c := P[root].children[0].page;
    assert ChildOk(P, S, Settled, root, 0) && NodeOk(P[root], S[root]);
    forall q | q in Q ensures NodeOk(Q[q], Z[q]) { assert NodeOk(P[q], S[q]); }
    forall q, i | InternalAt(Q, q) && 0 <= i < |Q[q].children| ensures ChildOk(Q, Z, Settled, q, i) {
      CollapseChild(P, S, root, q, i);
    }
    forall q | q in Q ensures ParentOk(Q, Z, c, Settled, q) { CollapseParent(P, S, root, q); }
    forall q | q in Q ensures NextOk(Q, Z, q) && PrevOk(Q, Z, q) { assert NextOk(P, S, q) && PrevOk(P, S, q); }
  }

  // Rewriting the entries of one leaf.

  lemma LeafUpdateOk(P: Heap, S: Shapes, root: PageId, p: PageId, es: seq<Entry>)
    requires TreeOk(P, S, root, Settled) && LeafAt(P, p)
    requires SortedEntries(es) && forall i :: 0 <= i < |es| ==> Within(es[i].key, S[p])
    ensures TreeOk(P[p := P[p].(entries := es)], S, root, Settled)
  {
    var Q := P[p := P[p].(entries := es)];
    forall q | q in Q ensures NodeOk(Q[q], S[q]) { assert NodeOk(P[q], S[q]); }
    forall q, i | InternalAt(Q, q) && 0 <= i < |Q[q].children| ensures ChildOk(Q, S, Settled, q, i) {
      assert ChildOk(P, S, Settled, q, i);
    }
    forall q | q in Q ensures ParentOk(Q, S, root, Settled, q) { assert ParentOk(P, S, root, Settled, q); }
    forall q | q in Q ensures NextOk(Q, S, q) && PrevOk(Q, S, q) { assert NextOk(P, S, q) && PrevOk(P, S, q); }
  }

  // The order in which the code rewrites pages does not matter.

  lemma SplitByCopy(P: Heap, p: PageId, m: nat, np: PageId)
    requires InternalAt(P, p) && m <= |P[p].children| && np !in P
    requires !Lists(P[p].children[m..], p)
    ensures var cs := P[p].children; var Q := Reparent(P[np := Internal(P[p].parent, cs[m..])], cs[m..], np);
      Q[p := Q[p].(children := cs[..m])] == SplitInternalHeap(P, p, m, np)
  {
    var cs := P[p].children;
    var Q := Reparent(P[np := Internal(P[p].parent, cs[m..])], cs[m..], np);
    var Q' := Q[p := Q[p].(children := cs[..m])];
    var Z := SplitInternalHeap(P, p, m, np);
    assert Q'.Keys == Z.Keys;
    forall q | q in Z ensures Q'[q] == Z[q] {}
  }

  ghost predicate SplitFullPre(P: Heap, p: PageId, j: nat, c: Child, m: nat, np: PageId) {
    && InternalAt(P, p) && m <= |P[p].children| && np !in P && j < |P[p].children|
    && c.page in P && c.page != p
    && !Lists(P[p].children, c.page) && !Lists(P[p].children, p)
  }

  /** Splitting a full page and inserting right of the cut is inserting and splitting. */
  lemma InsertRightOfSplit(P: Heap, p: PageId, j: nat, c: Child, m: nat, np: PageId)
    requires SplitFullPre(P, p, j, c, m, np) && m <= j
    ensures LinkHeap(SplitInternalHeap(P, p, m, np), np, j + 1 - m, c) == SplitInternalHeap(LinkHeap(P, p, j + 1, c), p, m, np)
  {
    var cs := P[p].children;
    var ds := Insert(cs, j + 1, c);
    SuffixNotListed(cs, m, p);
    assert ds[..m] == cs[..m];
    assert ds[m..] == Insert(cs[m..], j + 1 - m, c);
    var A := LinkHeap(SplitInternalHeap(P, p, m, np), np, j + 1 - m, c);
    var B := SplitInternalHeap(LinkHeap(P, p, j + 1, c), p, m, np);
    forall q | q in B ensures A[q] == B[q] { ListsInsert(cs[m..], j + 1 - m, c, q); }
  }

  /** Likewise left of the cut, which then moves by one. */
  lemma InsertLeftOfSplit(P: Heap, p: PageId, j: nat, c: Child, m: nat, np: PageId)
    requires SplitFullPre(P, p, j, c, m, np) && j < m
    ensures InternalAt(SplitInternalHeap(P, p, m, np), p)
    ensures LinkHeap(SplitInternalHeap(P, p, m, np), p, j + 1, c) == SplitInternalHeap(LinkHeap(P, p, j + 1, c), p, m + 1, np)
  {
    var cs := P[p].children;
    var ds := Insert(cs, j + 1, c);
    SuffixNotListed(cs, m, p);
    SuffixNotListed(cs, m, c.page);
    assert ds[..m + 1] == Insert(cs[..m], j + 1, c);
    assert ds[m + 1..] == cs[m..];
    hide Lists;
    hide Reparent;
    var P1, tail := P[p := P[p].(children := cs[..m])][np := Internal(P[p].parent, cs[m..])], cs[m..];
    var left := P[p].(children := ds[..m + 1]);
    LinkThenCut(P, p, c, cs[..m], left.children, ds, tail, np);
    ReparentUpdate(P1, tail, np, p, left);
    ReparentUpdate(P1[p := left], tail, np, c.page, P[c.page].(parent := p));
  }

  /** Which of two pages is written last does not matter. */
  lemma LinkThenCut(P: Heap, p: PageId, c: Child, a: seq<Child>, b: seq<Child>, ds: seq<Child>, tail: seq<Child>, np: PageId)
    requires InternalAt(P, p) && c.page in P && c.page != p && np !in P
    ensures P[p := P[p].(children := a)][np := Internal(P[p].parent, tail)][p := P[p].(children := b)]
             [c.page := P[c.page].(parent := p)]
         == P[p := P[p].(children := ds)][c.page := P[c.page].(parent := p)]
             [p := P[p].(children := b)][np := Internal(P[p].parent, tail)]
  {
  }

  /** Changing a page that is not listed commutes with renaming the parent of the listed ones. */
  lemma ReparentUpdate(P: Heap, cs: seq<Child>, p: PageId, q: PageId, n: Node)
    requires q in P && !Lists(cs, q)
    ensures Reparent(P, cs, p)[q := n] == Reparent(P[q := n], cs, p)
    ensures Reparent(P, cs, p)[q] == P[q]
  {
  }

  lemma SuffixNotListed(cs: seq<Child>, m: nat, q: PageId)
    requires m <= |cs| && !Lists(cs, q)
    ensures !Lists(cs[m..], q)
  {
  }

  lemma ListsInsert(cs: seq<Child>, i: nat, c: Child, q: PageId)
    requires i <= |cs|
    ensures Lists(Insert(cs, i, c), q) <==> Lists(cs, q) || q == c.page
  {
    var ds := Insert(cs, i, c);
    assert ds[i] == c;
    if Lists(cs, q) {
      var x :| 0 <= x < |cs| && cs[x].page == q;
      assert ds[if x < i then x else x + 1].page == q;
    }
    if Lists(ds, q) && q != c.page {
      var x :| 0 <= x < |ds| && ds[x].page == q;
      assert cs[if x < i then x else x - 1].page == q;
    }
  }

  lemma ReparentOne(P: Heap, items: seq<Child>, i: nat, p: PageId)
    requires i < |items| && items[i].page in P
    ensures var Q := Reparent(P, items[..i], p); var c := items[i].page;
      Q[c := Q[c].(parent := p)] == Reparent(P, items[..i + 1], p)
  {
    var Q := Reparent(P, items[..i], p);
    var c := items[i].page;
    var Q' := Q[c := Q[c].(parent := p)];
    var Z := Reparent(P, items[..i + 1], p);
    assert items[..i + 1][i] == items[i];
    forall q | q in P ensures Q'[q] == Z[q] {
      if Lists(items[..i + 1], q) && q != c {
        var x :| 0 <= x < i + 1 && items[..i + 1][x].page == q;
        assert items[..i][x].page == q;
      }
      if Lists(items[..i], q) {
        var x :| 0 <= x < i && items[..i][x].page == q;
        assert items[..i + 1][x].page == q;
      }
    }
  }
}
