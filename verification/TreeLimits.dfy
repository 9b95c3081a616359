/** What page limits below those of `Good` let a deletion do: both trees here are what the index's own
    steps leave of a tree that has no fault and no page below its least size. */
module TreeLimits {
  import opened Keys
  import opened TreePages
  import opened TreeSteps
  import opened TreeEntries
  import opened TreeDelete

  const RID := RecordId(1, 1)

  function KeyOf(attr: int): int { MakeKey(attr, RID) }
  function EntryOf(attr: int): Entry { Entry(KeyOf(attr), RID) }

  /** `Q` is `P` after entry `i` of leaf `p` is removed. */
  ghost predicate Removal(P: Heap, p: PageId, i: nat, Q: Heap) {
    LeafAt(P, p) && i < |P[p].entries| && Q == P[p := P[p].(entries := Remove(P[p].entries, i))]
  }

  /** `Q` is `P` after leaf `R`, at slot `j` of `p`, is merged into leaf `L` to its left. */
  ghost predicate Merge(P: Heap, p: PageId, j: nat, L: PageId, R: PageId, Q: Heap) {
    && Neighbours(P, p, j, L, R)
    && var U := UnlinkHeap(P, p, j);
    && LeafAt(U, L) && LeafAt(U, R)
    && (U[R].next != INVALID_PAGE ==> LeafAt(U, U[R].next) && U[R].next != L && U[R].next != R)
    && Q == JoinLeafHeap(U, L, R)
  }

  /** A tree before a deletion: nothing is wrong with it, and no page is below its least size. */
  ghost predicate Sound(P: Heap, S: Shapes, root: PageId, leafMax: int, internalMax: int) {
    TreeOk(P, S, root, Settled) && SizesOk(P, root, INVALID_PAGE, leafMax, internalMax) && RidsOk(Entries(P))
  }

  /** An entry whose record id is the one inside its key. */
  ghost predicate OwnRid(e: Entry) { e.rid == KeyRid(e.key) && e.rid != MAX_RID }

  lemma OwnRids(attrs: seq<int>)
    ensures forall i :: 0 <= i < |attrs| ==> OwnRid(EntryOf(attrs[i]))
  {
    forall i | 0 <= i < |attrs| ensures OwnRid(EntryOf(attrs[i])) {
      KeyParts(attrs[i], RID);
    }
  }

  lemma AllOwnRids(P: Heap)
    requires forall p :: LeafAt(P, p) ==> forall e :: e in P[p].entries ==> OwnRid(e)
    ensures RidsOk(Entries(P))
  {
    forall e | e in Entries(P) ensures OwnRid(e) {
      var p := EntryAt(P, e);
    }
  }

  function WideHeap(): Heap {
    map[
      2 := Internal(INVALID_PAGE, [Child(0, 3), Child(KeyOf(-5), 4)]),
      3 := Internal(2, [Child(0, 5), Child(KeyOf(-8), 8)]),
      4 := Internal(2, [Child(KeyOf(-5), 6), Child(KeyOf(10), 7)]),
      5 := Leaf(3, INVALID_PAGE, 8, [EntryOf(-10), EntryOf(-9)]),
      8 := Leaf(3, 5, 6, [EntryOf(-8), EntryOf(-7)]),
      6 := Leaf(4, 8, 7, [EntryOf(-5), EntryOf(-4)]),
      7 := Leaf(4, 6, INVALID_PAGE, [EntryOf(10), EntryOf(11)])]
  }

  function WideShapes(): Shapes {
    map[
      2 := Shape(2, Open, Open),
      3 := Shape(1, Open, At(KeyOf(-5))),
      4 := Shape(1, At(KeyOf(-5)), Open),
      5 := Shape(0, Open, At(KeyOf(-8))),
      8 := Shape(0, At(KeyOf(-8)), At(KeyOf(-5))),
      6 := Shape(0, At(KeyOf(-5)), At(KeyOf(10))),
      7 := Shape(0, At(KeyOf(10)), Open)]
  }

  lemma WideNodes(p: PageId)
    requires p in WideHeap()
    ensures NodeOk(WideHeap()[p], WideShapes()[p])
  {
    assert KeyOf(-10) < KeyOf(-9) < KeyOf(-8) < KeyOf(-7) < KeyOf(-5) < KeyOf(-4) < KeyOf(10) < KeyOf(11);
  }

  lemma WideChildren(p: PageId, i: nat)
    requires InternalAt(WideHeap(), p) && i < |WideHeap()[p].children|
    ensures ChildOk(WideHeap(), WideShapes(), Settled, p, i)
  {
  }

  lemma WideParents(p: PageId)
    requires p in WideHeap()
    ensures ParentOk(WideHeap(), WideShapes(), 2, Settled, p)
  {
    var P := WideHeap();
    assert P[2].children[0].page == 3 && P[2].children[1].page == 4;
    assert P[3].children[0].page == 5 && P[3].children[1].page == 8;
    assert P[4].children[0].page == 6 && P[4].children[1].page == 7;
  }

  lemma WideLinks(p: PageId)
    requires p in WideHeap()
    ensures NextOk(WideHeap(), WideShapes(), p) && PrevOk(WideHeap(), WideShapes(), p)
  {
  }

  lemma WideTree()
    ensures TreeOk(WideHeap(), WideShapes(), 2, Settled)
  {
    var P, S := WideHeap(), WideShapes();
    assert P.Keys == S.Keys && 2 in P && INVALID_PAGE !in P;
    hide WideHeap, WideShapes;
    forall p | p in P ensures NodeOk(P[p], S[p]) { WideNodes(p); }
    forall p, i | InternalAt(P, p) && 0 <= i < |P[p].children| ensures ChildOk(P, S, Settled, p, i) { WideChildren(p, i); }
    forall p | p in P ensures ParentOk(P, S, 2, Settled, p) { WideParents(p); }
    forall p | p in P ensures NextOk(P, S, p) && PrevOk(P, S, p) { WideLinks(p); }
  }

  lemma WideSound()
    ensures Sound(WideHeap(), WideShapes(), 2, 4, 4)
  {
    WideTree();
    hide TreeOk;
    OwnRids([-10, -9, -8, -7, -5, -4, 10, 11]);
    AllOwnRids(WideHeap());
  }

  lemma RemovalOk(P: Heap, S: Shapes, root: PageId, p: PageId, i: nat, Q: Heap)
    requires TreeOk(P, S, root, Settled) && Removal(P, p, i, Q)
    ensures TreeOk(Q, S, root, Settled)
  {
    var es := P[p].entries;
    assert NodeOk(P[p], S[p]);
    RemoveSorted(es, i);
    forall x | 0 <= x < |es| - 1 ensures Within(Remove(es, i)[x].key, S[p]) { RemoveAt(es, i, x); }
    LeafUpdateOk(P, S, root, p, Remove(es, i));
  }

  lemma MergeOk(P: Heap, S: Shapes, root: PageId, p: PageId, j: nat, L: PageId, R: PageId, Q: Heap)
    requires TreeOk(P, S, root, Settled) && Merge(P, p, j, L, R, Q)
    ensures L in S && R in S && TreeOk(Q, JoinShapes(S, L, R), root, Settled)
  {
    UnlinkOk(P, S, root, p, j);
    JoinLeafOk(UnlinkHeap(P, p, j), S, root, L, R);
  }

  /** A tree with leaf and internal limits of 4 from which one entry is deleted, so that its leaf 5 is merged
      with leaf 8. Page 3 then has one child, and a separator below zero stands after it in the root: the
      lookup of its slot-0 key leads to page 4. */
  lemma OnlyKeyMisses() returns (P: Heap, P1: Heap, P2: Heap, S: Shapes)
    ensures exists Z :: Sound(P, Z, 2, 4, 4)
    ensures Removal(P, 5, 1, P1) && Size(P1[5]) < 4 - 4 / 2
    ensures Merge(P1, 3, 1, 5, 8, P2) && Size(P1[5]) + Size(P1[8]) <= 4
    ensures TreeOk(P2, S, 2, Settled)
    ensures InternalAt(P2, 3) && |P2[3].children| == 1 && P2[3].children[0].key == 0 && P2[3].parent == 2
    ensures InternalAt(P2, 2) && |P2[2].children| == 2 && P2[2].children[1].key < 0
    ensures forall i :: 0 <= i < 2 && (i == 1 ==> P2[2].children[1].key <= 0) && (i == 0 ==> 0 < P2[2].children[1].key) ==>
      P2[2].children[i].page != 3
  {
    P := WideHeap();
    WideSound();
    P1 := P[5 := P[5].(entries := Remove(P[5].entries, 1))];
    P2 := JoinLeafHeap(UnlinkHeap(P1, 3, 1), 5, 8);
    S := JoinShapes(WideShapes(), 5, 8);
    RemovalOk(P, WideShapes(), 2, 5, 1, P1);
    MergeOk(P1, WideShapes(), 2, 3, 1, 5, 8, P2);
  }

  function NarrowHeap(): Heap {
    map[
      2 := Internal(INVALID_PAGE, [Child(0, 3), Child(KeyOf(10), 4)]),
      3 := Leaf(2, INVALID_PAGE, 4, [EntryOf(1)]),
      4 := Leaf(2, 3, INVALID_PAGE, [EntryOf(10), EntryOf(11)])]
  }

  function NarrowShapes(): Shapes {
    map[2 := Shape(1, Open, Open), 3 := Shape(0, Open, At(KeyOf(10))), 4 := Shape(0, At(KeyOf(10)), Open)]
  }

  lemma NarrowTree()
    ensures TreeOk(NarrowHeap(), NarrowShapes(), 2, Settled)
  {
    var P := NarrowHeap();
    assert KeyOf(1) < KeyOf(10) < KeyOf(11);
    hide KeyOf;
    assert P[2].children[0].page == 3 && P[2].children[1].page == 4;
  }

  lemma NarrowSound()
    ensures Sound(NarrowHeap(), NarrowShapes(), 2, 3, 6)
  {
    NarrowTree();
    hide TreeOk;
    OwnRids([1, 10, 11]);
    AllOwnRids(NarrowHeap());
  }

  /** A tree with a leaf limit of 3 from which one entry is deleted. Its leaf is left empty, and so without
      a last key to look up. */
  lemma NoLastKey() returns (P: Heap, P1: Heap, S: Shapes)
    ensures Sound(P, S, 2, 3, 6)
    ensures Removal(P, 3, 0, P1) && Size(P1[3]) < 3 - 3 / 2
    ensures TreeOk(P1, S, 2, Settled) && P1[3].entries == [] && P1[3].parent == 2
  {
    P, S := NarrowHeap(), NarrowShapes();
    NarrowSound();
    P1 := P[3 := P[3].(entries := Remove(P[3].entries, 0))];
    RemovalOk(P, S, 2, 3, 0, P1);
  }
}
