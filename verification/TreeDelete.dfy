/** What a delete does to two neighbours and their parent: moving one item across,
    or merging. Both are compositions of unlinking, joining, splitting and linking. */
module TreeDelete {
  import opened Keys
  import opened TreePages
  import opened TreeSteps
  import opened TreeEntries

  /** `L` and `R` are the children at slots `j - 1` and `j` of `p`. */
  ghost predicate Neighbours(P: Heap, p: PageId, j: nat, L: PageId, R: PageId) {
    && InternalAt(P, p) && 1 <= j < |P[p].children|
    && P[p].children[j - 1].page == L && P[p].children[j].page == R
    && L in P && R in P && L != R && L != p && R != p
  }

  lemma NeighboursOk(P: Heap, S: Shapes, root: PageId, p: PageId, j: nat)
    requires TreeOk(P, S, root, Settled) && InternalAt(P, p) && 1 <= j < |P[p].children|
    ensures var L, R := P[p].children[j - 1].page, P[p].children[j].page;
      && Neighbours(P, p, j, L, R)
      && P[L].parent == p && P[R].parent == p
      && S[L].level == S[p].level - 1 && S[R].level == S[p].level - 1
      && S[L].hi == At(P[p].children[j].key) && S[R].lo == At(P[p].children[j].key)
      && R != root && (LeafAt(P, L) <==> LeafAt(P, R))
  {
    var L, R := P[p].children[j - 1].page, P[p].children[j].page;
    assert ChildOk(P, S, Settled, p, j - 1) && ChildOk(P, S, Settled, p, j);
    DistinctChildren(P, S, root, Settled, p, j - 1, j);
    assert NodeOk(P[L], S[L]) && NodeOk(P[R], S[R]);
    assert ParentOk(P, S, root, Settled, R);
  }

  // Moving entries across two neighbouring leaves.

  ghost function ShiftLeafHeap(P: Heap, p: PageId, j: nat, L: PageId, R: PageId, le: seq<Entry>, re: seq<Entry>): Heap
    requires Neighbours(P, p, j, L, R) && LeafAt(P, L) && LeafAt(P, R) && |re| > 0
  {
    P[L := P[L].(entries := le)][R := P[R].(entries := re)]
     [p := P[p].(children := P[p].children[j := Child(re[0].key, R)])]
  }

  ghost function ShiftShapes(S: Shapes, L: PageId, R: PageId, k: int): Shapes
    requires L in S && R in S
  {
    S[L := S[L].(hi := At(k))][R := S[R].(lo := At(k))]
  }

  ghost predicate ShiftLeafPre(P: Heap, S: Shapes, root: PageId, p: PageId, j: nat, L: PageId, R: PageId, le: seq<Entry>, re: seq<Entry>) {
    && TreeOk(P, S, root, Settled)
    && Neighbours(P, p, j, L, R) && LeafAt(P, L) && LeafAt(P, R)
    && |le| > 0 && |re| > 0 && le + re == P[L].entries + P[R].entries
  }

  /** The links around two neighbouring leaves. */
  lemma LeafLinks(P: Heap, S: Shapes, root: PageId, p: PageId, j: nat, L: PageId, R: PageId)
    requires TreeOk(P, S, root, Settled) && Neighbours(P, p, j, L, R) && LeafAt(P, L) && LeafAt(P, R)
    ensures P[L].next == R && P[R].prev == L && P[R].parent == p && P[L].parent == p
    ensures P[R].next != INVALID_PAGE ==>
      LeafAt(P, P[R].next) && P[R].next != L && P[R].next != R && P[P[R].next].prev == R
  {
    UnlinkOk(P, S, root, p, j);
    NeighboursOk(P, S, root, p, j);
    assert NextOk(P, S, L) && PrevOk(P, S, R) && NextOk(P, S, R);
    assert NodeOk(P[L], S[L]) && NodeOk(P[R], S[R]);
  }

  lemma ShiftLeafSame(P: Heap, p: PageId, j: nat, L: PageId, R: PageId, le: seq<Entry>, re: seq<Entry>)
    requires Neighbours(P, p, j, L, R) && LeafAt(P, L) && LeafAt(P, R) && |re| > 0
    requires P[L].next == R && P[R].prev == L && P[R].parent == p && P[L].parent == p
    requires P[R].next != INVALID_PAGE ==>
      LeafAt(P, P[R].next) && P[R].next != L && P[R].next != R && P[P[R].next].prev == R
    ensures var J := JoinLeafHeap(UnlinkHeap(P, p, j), L, R);
      LinkHeap(SplitLeafHeap(J, L, R, le, re), p, j, Child(re[0].key, R)) == ShiftLeafHeap(P, p, j, L, R, le, re)
  {
    var J := JoinLeafHeap(UnlinkHeap(P, p, j), L, R);
    var A := LinkHeap(SplitLeafHeap(J, L, R, le, re), p, j, Child(re[0].key, R));
    var B := ShiftLeafHeap(P, p, j, L, R, le, re);
    RemoveInsert(P[p].children, j, Child(re[0].key, R));
    assert A.Keys == B.Keys;
    forall q | q in B ensures A[q] == B[q] {}
  }

  lemma RemoveInsert<T>(s: seq<T>, j: nat, x: T)
    requires j < |s|
    ensures Insert(Remove(s, j), j, x) == s[j := x]
  {
  }

  lemma ShiftLeafSplitPre(P: Heap, S: Shapes, root: PageId, p: PageId, j: nat, L: PageId, R: PageId, le: seq<Entry>, re: seq<Entry>)
    requires ShiftLeafPre(P, S, root, p, j, L, R, le, re)
    requires P[R].next != INVALID_PAGE ==> LeafAt(P, P[R].next) && P[R].next != L && P[R].next != R
    ensures var U := UnlinkHeap(P, p, j); SplitLeafPre(JoinLeafHeap(U, L, R), JoinShapes(S, L, R), root, L, R, re[0].key, le, re)
  {
    var U := UnlinkHeap(P, p, j);
    UnlinkOk(P, S, root, p, j);
    JoinLeafOk(U, S, root, L, R);
    var J, Z := JoinLeafHeap(U, L, R), JoinShapes(S, L, R);
    assert NodeOk(J[L], Z[L]);
    var fs := J[L].entries;
    assert fs == le + re;
    assert fs[..|le|] == le && fs[|le|..] == re;
    SliceOk(fs, |le|, Z[L]);
  }

  lemma ShiftLeafTree(P: Heap, S: Shapes, root: PageId, p: PageId, j: nat, L: PageId, R: PageId, le: seq<Entry>, re: seq<Entry>)
    requires ShiftLeafPre(P, S, root, p, j, L, R, le, re)
    ensures L in S && R in S
    ensures TreeOk(ShiftLeafHeap(P, p, j, L, R, le, re), ShiftShapes(S, L, R, re[0].key), root, Settled)
  {
    var k := re[0].key;
    LeafLinks(P, S, root, p, j, L, R);
    NeighboursOk(P, S, root, p, j);
    ShiftLeafSplitPre(P, S, root, p, j, L, R, le, re);
    var J, Z := JoinLeafHeap(UnlinkHeap(P, p, j), L, R), JoinShapes(S, L, R);
    SplitLeafOk(J, Z, root, L, R, k, le, re);
    var A, Y := SplitLeafHeap(J, L, R, le, re), SplitShapes(Z, L, R, k);
    assert Y == ShiftShapes(S, L, R, k);
    assert A[p].children[j - 1].page == L;
    LinkOk(A, Y, root, p, j - 1, L, R);
    ShiftLeafSame(P, p, j, L, R, le, re);
  }

  // Moving children across two neighbouring internal pages.

  ghost function ShiftInternalHeap(P: Heap, p: PageId, j: nat, L: PageId, R: PageId, m: nat): Heap
    requires Neighbours(P, p, j, L, R) && InternalAt(P, L) && InternalAt(P, R)
    requires 1 <= m < |P[L].children| + |P[R].children|
  {
    var cs, n := P[L].children + P[R].children, |P[L].children|;
    var Q := P[L := P[L].(children := cs[..m])][R := P[R].(children := cs[m..])]
              [p := P[p].(children := P[p].children[j := Child(cs[m].key, R)])];
    if n <= m then Reparent(Q, cs[n..m], L) else Reparent(Q, cs[m..n], R)
  }

  ghost predicate Family(P: Heap, p: PageId, L: PageId, R: PageId) {
    && InternalAt(P, L) && InternalAt(P, R)
    && (forall i :: 0 <= i < |P[L].children| ==> P[L].children[i].page in P && P[P[L].children[i].page].parent == L)
    && (forall i :: 0 <= i < |P[R].children| ==> P[R].children[i].page in P && P[P[R].children[i].page].parent == R)
    && DistinctPages(P[L].children + P[R].children)
    && P[L].parent == p && P[R].parent == p
    && !Lists(P[L].children + P[R].children, L) && !Lists(P[L].children + P[R].children, R)
    && !Lists(P[L].children + P[R].children, p)
  }

  ghost predicate DistinctPages(cs: seq<Child>) {
    forall i, j :: 0 <= i < j < |cs| ==> cs[i].page != cs[j].page
  }

  lemma FamilyOk(P: Heap, S: Shapes, root: PageId, p: PageId, j: nat, L: PageId, R: PageId)
    requires TreeOk(P, S, root, Settled) && Neighbours(P, p, j, L, R) && InternalAt(P, L) && InternalAt(P, R)
    ensures Family(P, p, L, R)
  {
    NeighboursOk(P, S, root, p, j);
    var cs, n := P[L].children + P[R].children, |P[L].children|;
    forall i | 0 <= i < |cs|
      ensures cs[i].page in P && P[cs[i].page].parent == (if i < n then L else R) && S[cs[i].page].level == S[p].level - 2
    {
      if i < n { assert ChildOk(P, S, Settled, L, i); } else { assert ChildOk(P, S, Settled, R, i - n); }
    }
    forall a, b | 0 <= a < b < |cs| ensures cs[a].page != cs[b].page {
      if b < n { DistinctChildren(P, S, root, Settled, L, a, b); }
      if n <= a { DistinctChildren(P, S, root, Settled, R, a - n, b - n); }
    }
    assert forall i :: 0 <= i < |P[R].children| ==> P[R].children[i] == cs[n + i];
    assert forall i :: 0 <= i < |P[L].children| ==> P[L].children[i] == cs[i];
  }

  lemma ListsRange(cs: seq<Child>, a: nat, b: nat, x: nat)
    requires DistinctPages(cs) && a <= b <= |cs| && x < |cs|
    ensures Lists(cs[a..b], cs[x].page) <==> a <= x < b
  {
    var q := cs[x].page;
    if a <= x < b { assert cs[a..b][x - a].page == q; }
    if Lists(cs[a..b], q) {
      var i :| 0 <= i < b - a && cs[a..b][i].page == q;
      assert cs[a + i].page == q;
    }
  }

  lemma ListsNone(cs: seq<Child>, a: nat, b: nat, q: PageId)
    requires a <= b <= |cs| && !Lists(cs, q)
    ensures !Lists(cs[a..b], q)
  {
  }

  /** A moved child has its new parent, any other child its old one. */
  lemma ShiftListedAt(P: Heap, p: PageId, j: nat, L: PageId, R: PageId, m: nat, x: nat)
    requires Neighbours(P, p, j, L, R) && Family(P, p, L, R)
    requires 1 <= m < |P[L].children| + |P[R].children| && x < |P[L].children| + |P[R].children|
    ensures var cs := P[L].children + P[R].children; var q := cs[x].page;
      && (Lists(cs[m..], q) <==> m <= x) && (Lists(P[R].children, q) <==> |P[L].children| <= x)
      && q in P && ShiftInternalHeap(P, p, j, L, R, m)[q] == P[q].(parent := if m <= x then R else L)
  {
    var cs, n := P[L].children + P[R].children, |P[L].children|;
    var q := cs[x].page;
    assert cs[m..] == cs[m..|cs|];
    assert P[R].children == cs[n..|cs|];
    assert q in P && P[q].parent == (if n <= x then R else L) by {
      if n <= x { assert P[R].children[x - n] == cs[x]; } else { assert P[L].children[x] == cs[x]; }
    }
    ListsRange(cs, m, |cs|, x);
    ListsRange(cs, n, |cs|, x);
    if n <= m { ListsRange(cs, n, m, x); } else { ListsRange(cs, m, n, x); }
  }

  /** A page that is not a child of either is not touched. */
  lemma ShiftOtherAt(P: Heap, p: PageId, j: nat, L: PageId, R: PageId, m: nat, q: PageId)
    requires Neighbours(P, p, j, L, R) && Family(P, p, L, R) && q in P
    requires 1 <= m < |P[L].children| + |P[R].children| && !Lists(P[L].children + P[R].children, q)
    ensures !Lists((P[L].children + P[R].children)[m..], q) && !Lists(P[R].children, q)
    ensures q != p && q != L && q != R ==> ShiftInternalHeap(P, p, j, L, R, m)[q] == P[q]
  {
    var cs, n := P[L].children + P[R].children, |P[L].children|;
    assert cs[m..] == cs[m..|cs|];
    assert P[R].children == cs[n..|cs|];
    ListsNone(cs, m, |cs|, q);
    ListsNone(cs, n, |cs|, q);
    if n <= m { ListsNone(cs, n, m, q); } else { ListsNone(cs, m, n, q); }
  }

  lemma ShiftInternalAt(P: Heap, p: PageId, j: nat, L: PageId, R: PageId, m: nat, q: PageId)
    requires Neighbours(P, p, j, L, R) && Family(P, p, L, R) && q in P
    requires 1 <= m < |P[L].children| + |P[R].children|
    ensures var cs, n := P[L].children + P[R].children, |P[L].children|;
      if Lists(cs[m..], q) then ShiftInternalHeap(P, p, j, L, R, m)[q] == P[q].(parent := R)
      else if Lists(P[R].children, q) then ShiftInternalHeap(P, p, j, L, R, m)[q] == P[q].(parent := L)
      else q != p && q != L && q != R ==> ShiftInternalHeap(P, p, j, L, R, m)[q] == P[q]
  {
    var cs := P[L].children + P[R].children;
    if Lists(cs, q) {
      var x :| 0 <= x < |cs| && cs[x].page == q;
      ShiftListedAt(P, p, j, L, R, m, x);
    } else {
      ShiftOtherAt(P, p, j, L, R, m, q);
    }
  }

  lemma ShiftInternalPages(P: Heap, p: PageId, j: nat, L: PageId, R: PageId, m: nat)
    requires Neighbours(P, p, j, L, R) && Family(P, p, L, R)
    requires 1 <= m < |P[L].children| + |P[R].children|
    ensures var cs := P[L].children + P[R].children; var B := ShiftInternalHeap(P, p, j, L, R, m);
      && B.Keys == P.Keys
      && B[L] == P[L].(children := cs[..m]) && B[R] == P[R].(children := cs[m..])
      && B[p] == P[p].(children := P[p].children[j := Child(cs[m].key, R)])
  {
    var cs, n := P[L].children + P[R].children, |P[L].children|;
    if n <= m {
      ListsNone(cs, n, m, L); ListsNone(cs, n, m, R); ListsNone(cs, n, m, p);
    } else {
      ListsNone(cs, m, n, L); ListsNone(cs, m, n, R); ListsNone(cs, m, n, p);
    }
  }

  lemma ShiftInternalSame(P: Heap, p: PageId, j: nat, L: PageId, R: PageId, m: nat)
    requires Neighbours(P, p, j, L, R) && Family(P, p, L, R)
    requires 1 <= m < |P[L].children| + |P[R].children|
    ensures var J := JoinInternalHeap(UnlinkHeap(P, p, j), L, R);
      && InternalAt(J, L) && m <= |J[L].children| && InternalAt(SplitInternalHeap(J, L, m, R), p)
      && j <= |SplitInternalHeap(J, L, m, R)[p].children|
      && LinkHeap(SplitInternalHeap(J, L, m, R), p, j, Child((P[L].children + P[R].children)[m].key, R))
           == ShiftInternalHeap(P, p, j, L, R, m)
  {
    var cs, n := P[L].children + P[R].children, |P[L].children|;
    var J := JoinInternalHeap(UnlinkHeap(P, p, j), L, R);
    assert P[R].children == cs[n..|cs|];
    assert cs[m..] == cs[m..|cs|];
    ListsNone(cs, n, |cs|, L); ListsNone(cs, n, |cs|, p); ListsNone(cs, n, |cs|, R);
    ListsNone(cs, m, |cs|, L); ListsNone(cs, m, |cs|, p); ListsNone(cs, m, |cs|, R);
    assert J[L].children == cs;
    var A := LinkHeap(SplitInternalHeap(J, L, m, R), p, j, Child(cs[m].key, R));
    var B := ShiftInternalHeap(P, p, j, L, R, m);
    RemoveInsert(P[p].children, j, Child(cs[m].key, R));
    ShiftInternalPages(P, p, j, L, R, m);
    assert A.Keys == B.Keys;
    forall q | q in B ensures A[q] == B[q] {
      if q != p && q != L && q != R { ShiftInternalAt(P, p, j, L, R, m, q); }
    }
  }

  lemma ShiftInternalTree(P: Heap, S: Shapes, root: PageId, p: PageId, j: nat, L: PageId, R: PageId, m: nat)
    requires TreeOk(P, S, root, Settled) && Neighbours(P, p, j, L, R) && InternalAt(P, L) && InternalAt(P, R)
    requires 1 <= m < |P[L].children| + |P[R].children|
    ensures L in S && R in S
    ensures TreeOk(ShiftInternalHeap(P, p, j, L, R, m),
                   ShiftShapes(S, L, R, (P[L].children + P[R].children)[m].key), root, Settled)
  {
    var k := (P[L].children + P[R].children)[m].key;
    FamilyOk(P, S, root, p, j, L, R);
    NeighboursOk(P, S, root, p, j);
    var U := UnlinkHeap(P, p, j);
    UnlinkOk(P, S, root, p, j);
    JoinInternalOk(U, S, root, L, R);
    ShiftInternalSame(P, p, j, L, R, m);
    var J, Z := JoinInternalHeap(U, L, R), JoinShapes(S, L, R);
    ShiftInternalFinish(J, Z, S, root, p, j, L, R, m, k);
  }

  lemma ShiftInternalFinish(J: Heap, Z: Shapes, S: Shapes, root: PageId, p: PageId, j: nat, L: PageId, R: PageId, m: nat, k: int)
    requires TreeOk(J, Z, root, Settled) && L in S && R in S && L != R && Z == JoinShapes(S, L, R)
    requires InternalAt(J, L) && 1 <= m < |J[L].children| && J[L].children[m].key == k
    requires InternalAt(J, p) && p != L && p != R && 1 <= j <= |J[p].children| && J[p].children[j - 1].page == L
    requires R !in J && R != INVALID_PAGE && S[L].level == S[R].level
    requires var A := SplitInternalHeap(J, L, m, R); InternalAt(A, p) && j <= |A[p].children|
    ensures TreeOk(LinkHeap(SplitInternalHeap(J, L, m, R), p, j, Child(k, R)), ShiftShapes(S, L, R, k), root, Settled)
  {
    SplitInternalOk(J, Z, root, L, m, R);
    var A, Y := SplitInternalHeap(J, L, m, R), SplitShapes(Z, L, R, k);
    assert Y == ShiftShapes(S, L, R, k);
    LinkOk(A, Y, root, p, j - 1, L, R);
  }

  lemma MoveFirstIsShift(P: Heap, p: PageId, L: PageId, R: PageId)
    requires Neighbours(P, p, 1, L, R) && Family(P, p, L, R) && |P[R].children| > 1
    ensures var c := P[R].children[0];
      var Q := Reparent(P[L := P[L].(children := P[L].children + [c])][R := P[R].(children := P[R].children[1..])], [c], L);
      && InternalAt(Q, R) && |Q[R].children| > 0 && Q[p] == P[p]
      && Q[p := P[p].(children := P[p].children[1 := Child(Q[R].children[0].key, R)])]
           == ShiftInternalHeap(P, p, 1, L, R, |P[L].children| + 1)
  {
    var c := P[R].children[0];
    var Q := Reparent(P[L := P[L].(children := P[L].children + [c])][R := P[R].(children := P[R].children[1..])], [c], L);
    var cs, n := P[L].children + P[R].children, |P[L].children|;
    assert cs[..n + 1] == P[L].children + [c] && cs[n + 1..] == P[R].children[1..] && cs[n..n + 1] == [c];
    ListsNone(cs, n, n + 1, L); ListsNone(cs, n, n + 1, R); ListsNone(cs, n, n + 1, p);
    var A := Q[p := P[p].(children := P[p].children[1 := Child(Q[R].children[0].key, R)])];
    var B := ShiftInternalHeap(P, p, 1, L, R, n + 1);
    assert A.Keys == B.Keys;
    forall q | q in B ensures A[q] == B[q] {}
  }

  lemma MoveLastIsShift(P: Heap, p: PageId, j: nat, L: PageId, R: PageId)
    requires Neighbours(P, p, j, L, R) && Family(P, p, L, R) && |P[L].children| > 1
    ensures var n := |P[L].children| - 1; var c := P[L].children[n];
      var Q := Reparent(P[R := P[R].(children := [c] + P[R].children)][L := P[L].(children := P[L].children[..n])], [c], R);
      && InternalAt(Q, R) && |Q[R].children| > 0 && Q[p] == P[p]
      && Q[p := P[p].(children := P[p].children[j := Child(Q[R].children[0].key, R)])]
           == ShiftInternalHeap(P, p, j, L, R, n)
  {
    var n := |P[L].children| - 1;
    var c := P[L].children[n];
    var Q := Reparent(P[R := P[R].(children := [c] + P[R].children)][L := P[L].(children := P[L].children[..n])], [c], R);
    var cs := P[L].children + P[R].children;
    assert cs[..n] == P[L].children[..n] && cs[n..] == [c] + P[R].children && cs[n..n + 1] == [c];
    ListsNone(cs, n, n + 1, L); ListsNone(cs, n, n + 1, R); ListsNone(cs, n, n + 1, p);
    var A := Q[p := P[p].(children := P[p].children[j := Child(Q[R].children[0].key, R)])];
    var B := ShiftInternalHeap(P, p, j, L, R, n);
    assert A.Keys == B.Keys;
    forall q | q in B ensures A[q] == B[q] {}
  }

  lemma MergeIsJoin(U: Heap, L: PageId, R: PageId)
    requires InternalAt(U, L) && InternalAt(U, R) && L != R && !Lists(U[R].children, R)
    ensures Reparent(U[L := U[L].(children := U[L].children + U[R].children)], U[R].children, L) - {R} == JoinInternalHeap(U, L, R)
  {
    var A := Reparent(U[L := U[L].(children := U[L].children + U[R].children)], U[R].children, L) - {R};
    var B := JoinInternalHeap(U, L, R);
    assert A.Keys == B.Keys;
    forall q | q in B ensures A[q] == B[q] {}
  }

  // The same steps with page occupancy and contents.

  lemma ShiftLeafEntries(P: Heap, p: PageId, j: nat, L: PageId, R: PageId, le: seq<Entry>, re: seq<Entry>)
    requires Neighbours(P, p, j, L, R) && LeafAt(P, L) && LeafAt(P, R) && |re| > 0
    requires le + re == P[L].entries + P[R].entries
    ensures Entries(ShiftLeafHeap(P, p, j, L, R, le, re)) == Entries(P)
  {
    var Q := ShiftLeafHeap(P, p, j, L, R, le, re);
    forall f ensures f in Entries(Q) <==> f in Entries(P) {
      assert f in le || f in re <==> f in le + re;
      assert f in P[L].entries || f in P[R].entries <==> f in P[L].entries + P[R].entries;
      if f in Entries(Q) {
        var q := EntryAt(Q, f);
        if q != L && q != R { EntryIn(P, q, f); }
        else if f in P[L].entries { EntryIn(P, L, f); }
        else { EntryIn(P, R, f); }
      }
      if f in Entries(P) {
        var q := EntryAt(P, f);
        if q != L && q != R { EntryIn(Q, q, f); }
        else if f in le { EntryIn(Q, L, f); }
        else { EntryIn(Q, R, f); }
      }
    }
  }

  ghost predicate OneOf(under: PageId, L: PageId, R: PageId) { under == L || under == R }

  lemma RedistributeLeafGood(P: Heap, S: Shapes, root: PageId, p: PageId, j: nat, L: PageId, R: PageId,
                             le: seq<Entry>, re: seq<Entry>, under: PageId, lm: int, im: int)
    requires Good(P, S, root, Settled, under, lm, im) && OneOf(under, L, R)
    requires ShiftLeafPre(P, S, root, p, j, L, R, le, re)
    requires lm / 2 <= |le| <= lm && lm / 2 <= |re| <= lm
    ensures L in S && R in S
    ensures var Q := ShiftLeafHeap(P, p, j, L, R, le, re);
      && Good(Q, ShiftShapes(S, L, R, re[0].key), root, Settled, INVALID_PAGE, lm, im)
      && Entries(Q) == Entries(P) && Q.Keys == P.Keys
  {
    ShiftLeafTree(P, S, root, p, j, L, R, le, re);
    ShiftLeafEntries(P, p, j, L, R, le, re);
    var Q := ShiftLeafHeap(P, p, j, L, R, le, re);
    forall q | q in Q ensures SizeOk(Q[q], q == root, if q == INVALID_PAGE then 1 else 0, lm, im) {
      assert P[q] == P[q];
    }
  }

  lemma ShiftInternalSizes(P: Heap, root: PageId, p: PageId, j: nat, L: PageId, R: PageId, m: nat, under: PageId, lm: int, im: int)
    requires SizesOk(P, root, under, lm, im) && OneOf(under, L, R) && im >= 6
    requires Neighbours(P, p, j, L, R) && Family(P, p, L, R)
    requires im / 2 <= m <= im && im / 2 <= |P[L].children| + |P[R].children| - m <= im
    ensures SizesOk(ShiftInternalHeap(P, p, j, L, R, m), root, INVALID_PAGE, lm, im)
  {
    var Q := ShiftInternalHeap(P, p, j, L, R, m);
    ShiftInternalPages(P, p, j, L, R, m);
    forall q | q in Q ensures SizeOk(Q[q], q == root, if q == INVALID_PAGE then 1 else 0, lm, im) {
      assert P[q] == P[q];
    }
  }

  lemma ShiftInternalEntries(P: Heap, p: PageId, j: nat, L: PageId, R: PageId, m: nat)
    requires Neighbours(P, p, j, L, R) && Family(P, p, L, R)
    requires 1 <= m < |P[L].children| + |P[R].children|
    ensures Entries(ShiftInternalHeap(P, p, j, L, R, m)) == Entries(P)
  {
    ShiftInternalPages(P, p, j, L, R, m);
    SameEntries(P, ShiftInternalHeap(P, p, j, L, R, m));
  }

  lemma RedistributeInternalGood(P: Heap, S: Shapes, root: PageId, p: PageId, j: nat, L: PageId, R: PageId,
                                 m: nat, under: PageId, lm: int, im: int)
    requires Good(P, S, root, Settled, under, lm, im) && OneOf(under, L, R)
    requires Neighbours(P, p, j, L, R) && InternalAt(P, L) && InternalAt(P, R)
    requires im / 2 <= m <= im && im / 2 <= |P[L].children| + |P[R].children| - m <= im
    ensures L in S && R in S
    ensures var Q := ShiftInternalHeap(P, p, j, L, R, m);
      && Good(Q, ShiftShapes(S, L, R, (P[L].children + P[R].children)[m].key), root, Settled, INVALID_PAGE, lm, im)
      && Entries(Q) == Entries(P) && Q.Keys == P.Keys
  {
    ShiftInternalTree(P, S, root, p, j, L, R, m);
    FamilyOk(P, S, root, p, j, L, R);
    ShiftInternalSizes(P, root, p, j, L, R, m, under, lm, im);
    ShiftInternalEntries(P, p, j, L, R, m);
    ShiftInternalPages(P, p, j, L, R, m);
  }

  // Borrowing one item from a neighbour: from the right one for the first child, else from the left one.

  ghost predicate NextTo(P: Heap, p: PageId, index: nat, nb: PageId, f: PageId) {
    if index == 0 then Neighbours(P, p, 1, f, nb) else Neighbours(P, p, index, nb, f)
  }

  ghost function BorrowLeafHeap(P: Heap, p: PageId, index: nat, nb: PageId, f: PageId): Heap
    requires NextTo(P, p, index, nb, f) && LeafAt(P, nb) && LeafAt(P, f) && |P[nb].entries| > 1
  {
    var a, b := P[nb].entries, P[f].entries;
    if index == 0 then ShiftLeafHeap(P, p, 1, f, nb, b + [a[0]], a[1..])
    else ShiftLeafHeap(P, p, index, nb, f, a[..|a| - 1], [a[|a| - 1]] + b)
  }

  ghost function BorrowLeafShapes(P: Heap, S: Shapes, index: nat, nb: PageId, f: PageId): Shapes
    requires nb in S && f in S && LeafAt(P, nb) && |P[nb].entries| > 1
  {
    var a := P[nb].entries;
    if index == 0 then ShiftShapes(S, f, nb, a[1].key) else ShiftShapes(S, nb, f, a[|a| - 1].key)
  }

  lemma BorrowLeafGood(P: Heap, S: Shapes, root: PageId, p: PageId, index: nat, nb: PageId, f: PageId, lm: int, im: int)
    requires Good(P, S, root, Settled, f, lm, im) && f != root
    requires NextTo(P, p, index, nb, f) && LeafAt(P, nb) && LeafAt(P, f)
    requires |P[f].entries| < lm - lm / 2 && |P[f].entries| + |P[nb].entries| > lm
    ensures nb in S && f in S && |P[nb].entries| > |P[f].entries| && |P[nb].entries| > 1
    ensures var Q := BorrowLeafHeap(P, p, index, nb, f);
      && Good(Q, BorrowLeafShapes(P, S, index, nb, f), root, Settled, INVALID_PAGE, lm, im)
      && Entries(Q) == Entries(P) && Q.Keys == P.Keys && f in Q && Size(Q[f]) == Size(P[f]) + 1
  {
    assert SizeOk(P[f], false, 1, lm, im) && SizeOk(P[nb], nb == root, 0, lm, im);
    var a, b := P[nb].entries, P[f].entries;
    if index == 0 {
      assert b + [a[0]] + a[1..] == b + a;
      RedistributeLeafGood(P, S, root, p, 1, f, nb, b + [a[0]], a[1..], f, lm, im);
    } else {
      assert a[..|a| - 1] + ([a[|a| - 1]] + b) == a + b;
      RedistributeLeafGood(P, S, root, p, index, nb, f, a[..|a| - 1], [a[|a| - 1]] + b, f, lm, im);
    }
  }

  ghost function BorrowChildHeap(P: Heap, p: PageId, index: nat, nb: PageId, f: PageId): Heap
    requires NextTo(P, p, index, nb, f) && InternalAt(P, nb) && InternalAt(P, f) && |P[nb].children| > 1
  {
    if index == 0 then ShiftInternalHeap(P, p, 1, f, nb, |P[f].children| + 1)
    else ShiftInternalHeap(P, p, index, nb, f, |P[nb].children| - 1)
  }

  ghost function BorrowChildShapes(P: Heap, S: Shapes, index: nat, nb: PageId, f: PageId): Shapes
    requires nb in S && f in S && InternalAt(P, nb) && |P[nb].children| > 1
  {
    var a := P[nb].children;
    if index == 0 then ShiftShapes(S, f, nb, a[1].key) else ShiftShapes(S, nb, f, a[|a| - 1].key)
  }

  lemma BorrowChildSizes(P: Heap, root: PageId, nb: PageId, f: PageId, lm: int, im: int)
    requires SizesOk(P, root, f, lm, im) && f != root && im >= 6 && InternalAt(P, nb) && InternalAt(P, f)
    requires |P[f].children| < im - im / 2 && |P[f].children| + |P[nb].children| > im
    ensures |P[nb].children| > |P[f].children| && |P[nb].children| > 1
    ensures im / 2 <= |P[f].children| + 1 <= im && im / 2 <= |P[nb].children| - 1 <= im
  {
    assert SizeOk(P[f], false, 1, lm, im) && SizeOk(P[nb], nb == root, if nb == f then 1 else 0, lm, im);
  }

  lemma BorrowChildGood(P: Heap, S: Shapes, root: PageId, p: PageId, index: nat, nb: PageId, f: PageId, lm: int, im: int)
    requires Good(P, S, root, Settled, f, lm, im) && f != root
    requires NextTo(P, p, index, nb, f) && InternalAt(P, nb) && InternalAt(P, f)
    requires |P[f].children| < im - im / 2 && |P[f].children| + |P[nb].children| > im
    ensures nb in S && f in S && |P[nb].children| > |P[f].children| && |P[nb].children| > 1
    ensures if index == 0 then Family(P, p, f, nb) else Family(P, p, nb, f)
    ensures var Q := BorrowChildHeap(P, p, index, nb, f);
      && Good(Q, BorrowChildShapes(P, S, index, nb, f), root, Settled, INVALID_PAGE, lm, im)
      && Entries(Q) == Entries(P) && Q.Keys == P.Keys && f in Q && Size(Q[f]) == Size(P[f]) + 1
  {
    BorrowChildSizes(P, root, nb, f, lm, im);
    var j, L, R := if index == 0 then 1 else index, if index == 0 then f else nb, if index == 0 then nb else f;
    var m := if index == 0 then |P[f].children| + 1 else |P[nb].children| - 1;
    FamilyOk(P, S, root, p, j, L, R);
    RedistributeInternalGood(P, S, root, p, j, L, R, m, f, lm, im);
  }

  lemma CoalesceLeafGood(P: Heap, S: Shapes, root: PageId, p: PageId, j: nat, L: PageId, R: PageId, under: PageId, lm: int, im: int)
    requires Good(P, S, root, Settled, under, lm, im) && OneOf(under, L, R)
    requires Neighbours(P, p, j, L, R) && LeafAt(P, L) && LeafAt(P, R)
    requires |P[L].entries| + |P[R].entries| <= lm
    ensures L in S && R in S
    ensures P[R].next != INVALID_PAGE ==> LeafAt(P, P[R].next) && P[R].next != L && P[R].next != R
    ensures var Q := JoinLeafHeap(UnlinkHeap(P, p, j), L, R);
      && Good(Q, JoinShapes(S, L, R), root, Settled, p, lm, im)
      && Entries(Q) == Entries(P) && Q.Keys == P.Keys - {R}
  {
    var U := UnlinkHeap(P, p, j);
    UnlinkOk(P, S, root, p, j);
    LeafLinks(P, S, root, p, j, L, R);
    JoinLeafOk(U, S, root, L, R);
    JoinLeafEntries(U, L, R);
    SameEntries(P, U);
    var Q := JoinLeafHeap(U, L, R);
    assert P[L] == P[L] && P[R] == P[R];
    NeighboursOk(P, S, root, p, j);
    assert ParentOk(P, S, root, Settled, L);
    forall q | q in Q ensures SizeOk(Q[q], q == root, if q == p then 1 else 0, lm, im) {
      assert P[q] == P[q];
    }
  }

  lemma CoalesceInternalGood(P: Heap, S: Shapes, root: PageId, p: PageId, j: nat, L: PageId, R: PageId, under: PageId, lm: int, im: int)
    requires Good(P, S, root, Settled, under, lm, im) && OneOf(under, L, R)
    requires Neighbours(P, p, j, L, R) && InternalAt(P, L) && InternalAt(P, R)
    requires |P[L].children| + |P[R].children| <= im
    ensures L in S && R in S
    ensures var Q := JoinInternalHeap(UnlinkHeap(P, p, j), L, R);
      && Good(Q, JoinShapes(S, L, R), root, Settled, p, lm, im)
      && Entries(Q) == Entries(P) && Q.Keys == P.Keys - {R}
  {
    var U := UnlinkHeap(P, p, j);
    UnlinkOk(P, S, root, p, j);
    JoinInternalOk(U, S, root, L, R);
    NeighboursOk(P, S, root, p, j);
    FamilyOk(P, S, root, p, j, L, R);
    assert ParentOk(P, S, root, Settled, L);
    CoalesceInternalSizes(P, root, p, j, L, R, under, lm, im);
    SameEntries(P, JoinInternalHeap(U, L, R));
  }

  lemma CoalesceInternalSizes(P: Heap, root: PageId, p: PageId, j: nat, L: PageId, R: PageId, under: PageId, lm: int, im: int)
    requires SizesOk(P, root, under, lm, im) && OneOf(under, L, R) && im >= 6
    requires Neighbours(P, p, j, L, R) && Family(P, p, L, R) && L != root && R != root
    requires |P[L].children| + |P[R].children| <= im
    ensures SizesOk(JoinInternalHeap(UnlinkHeap(P, p, j), L, R), root, p, lm, im)
  {
    var Q := JoinInternalHeap(UnlinkHeap(P, p, j), L, R);
    var cs := P[L].children + P[R].children;
    assert P[R].children == cs[|P[L].children|..|cs|];
    ListsNone(cs, |P[L].children|, |cs|, L);
    ListsNone(cs, |P[L].children|, |cs|, p);
    assert P[L] == P[L] && P[R] == P[R];
    forall q | q in Q ensures SizeOk(Q[q], q == root, if q == p then 1 else 0, lm, im) {
      assert P[q] == P[q];
    }
  }

  lemma CollapseGood(P: Heap, S: Shapes, root: PageId, lm: int, im: int)
    requires Good(P, S, root, Settled, root, lm, im) && InternalAt(P, root) && |P[root].children| == 1
    ensures P[root].children[0].page in P && P[root].children[0].page != root
    ensures var c := P[root].children[0].page; var Q := CollapseHeap(P, root);
      && Good(Q, S - {root}, c, Settled, INVALID_PAGE, lm, im)
      && Entries(Q) == Entries(P) && Q.Keys == P.Keys - {root}
  {
    assert ChildOk(P, S, Settled, root, 0);
    CollapseOk(P, S, root);
    var Q, c := CollapseHeap(P, root), P[root].children[0].page;
    SameEntries(P, Q);
    forall q | q in Q ensures SizeOk(Q[q], q == c, if q == INVALID_PAGE then 1 else 0, lm, im) {
      assert P[q] == P[q];
    }
  }

  lemma EmptyRootAlone(P: Heap, S: Shapes, root: PageId)
    requires TreeOk(P, S, root, Settled) && LeafAt(P, root)
    ensures P.Keys == {root}
  {
    assert NodeOk(P[root], S[root]);
    forall q | q in P ensures q == root {
      assert NodeOk(P[q], S[q]) && ParentOk(P, S, root, Settled, q);
    }
  }

  /** The parent's lookup of a page's last key finds that page. */
  lemma LastKeyFinds(P: Heap, S: Shapes, root: PageId, f: PageId, i: nat, k: int)
    requires TreeOk(P, S, root, Settled) && f in P && f != root
    requires InternalAt(P, P[f].parent)
    requires match P[f]
      case Leaf(_, _, _, es) => |es| > 0 && k == es[|es| - 1].key
      case Internal(_, cs) => |cs| > 1 && k == cs[|cs| - 1].key
    requires var cs := P[P[f].parent].children;
      i < |cs| && (0 < i ==> cs[i].key <= k) && (i + 1 < |cs| ==> k < cs[i + 1].key)
    ensures P[P[f].parent].children[i].page == f
  {
    var x := ParentSlot(P, S, root, Settled, f);
    var p := P[f].parent;
    assert NodeOk(P[f], S[f]);
    assert Within(k, S[f]);
    SlotWithin(P[p], S[p], k, x);
    SlotUnique(P[p], S[p], k, x, i);
  }

  /** With limits that let an internal page shrink to one child, its last key is that of slot 0. The lookup
      still finds the page, unless it is on the left spine and its slot-0 key, which means nothing there,
      is not below the separator after it. */
  lemma OnlyKeyFinds(P: Heap, S: Shapes, root: PageId, f: PageId, i: nat, k: int)
    requires TreeOk(P, S, root, Settled) && f in P && f != root
    requires InternalAt(P, P[f].parent) && InternalAt(P, f)
    requires |P[f].children| == 1 && k == P[f].children[0].key
    requires var cs := P[P[f].parent].children;
      i < |cs| && (0 < i ==> cs[i].key <= k) && (i + 1 < |cs| ==> k < cs[i + 1].key)
    ensures var cs := P[P[f].parent].children;
      cs[i].page == f <==> S[f].lo.At? || |cs| == 1 || k < cs[1].key
  {
    var x := ParentSlot(P, S, root, Settled, f);
    var p := P[f].parent;
    assert NodeOk(P[f], S[f]) && NodeOk(P[p], S[p]);
    if S[f].lo.At? {
      SlotWithin(P[p], S[p], k, x);
      SlotUnique(P[p], S[p], k, x, i);
    } else {
      assert ChildOk(P, S, Settled, p, x) && x == 0;
      if i > 0 {
        assert P[p].children[1].key <= P[p].children[i].key;
        assert ChildOk(P, S, Settled, p, i);
      }
    }
  }
}
