/** The leaves and entries of a tree in key order. */
module TreeOrder {
  import opened TreePages
  import opened TreeEntries

  ghost predicate Before(S: Shapes, p: PageId, q: PageId) {
    p in S && q in S && S[p].hi.At? && S[q].lo.At? && S[p].hi.key <= S[q].lo.key
  }

  /** Two leaves never overlap: one lies before the other. */
  lemma LeavesOrdered(P: Heap, S: Shapes, root: PageId, p: PageId, q: PageId)
    requires TreeOk(P, S, root, Settled) && LeafAt(P, p) && LeafAt(P, q) && p != q
    ensures Before(S, p, q) || Before(S, q, p)
  {
    assert NodeOk(P[p], S[p]) && NodeOk(P[q], S[q]);
    if !Before(S, p, q) && !Before(S, q, p) {
      var a, b := S[p], S[q];
      var k := if a.lo.At? && (b.lo.At? ==> b.lo.key <= a.lo.key) then a.lo.key
               else if b.lo.At? then b.lo.key
               else if a.hi.At? && (b.hi.At? ==> a.hi.key <= b.hi.key) then a.hi.key - 1
               else if b.hi.At? then b.hi.key - 1
               else 0;
      OnePagePerLevel(P, S, root, p, q, k);
    }
  }

  /** An entry beyond a leaf is at or beyond the first entry of the next leaf. */
  lemma BeyondLeaf(P: Heap, S: Shapes, root: PageId, p: PageId, e: Entry)
    requires TreeOk(P, S, root, Settled) && LeafAt(P, p) && e in Entries(P)
    requires AtLeast(e.key, S[p].lo) && e !in P[p].entries
    ensures S[p].hi.At? && S[p].hi.key <= e.key
    ensures LeafAt(P, P[p].next) && S[P[p].next].lo == S[p].hi
    ensures |P[P[p].next].entries| > 0 ==> P[P[p].next].entries[0].key <= e.key
  {
    var q := EntryAt(P, e);
    assert NodeOk(P[p], S[p]) && NodeOk(P[q], S[q]) && NextOk(P, S, p);
    LeavesOrdered(P, S, root, p, q);
    var n := P[p].next;
    assert NodeOk(P[n], S[n]);
    if q != n { LeavesOrdered(P, S, root, n, q); }
  }

  /** No entry lies between two neighbouring slots of a leaf. */
  lemma SlotGap(P: Heap, S: Shapes, root: PageId, p: PageId, i: nat, e: Entry)
    requires TreeOk(P, S, root, Settled) && LeafAt(P, p) && i + 1 < |P[p].entries| && e in Entries(P)
    requires P[p].entries[i].key < e.key
    ensures P[p].entries[i + 1].key <= e.key
  {
    assert NodeOk(P[p], S[p]);
    if e in P[p].entries {
      var j :| 0 <= j < |P[p].entries| && P[p].entries[j] == e;
    } else {
      BeyondLeaf(P, S, root, p, e);
    }
  }

  /** Slot `i` of leaf `p` holds the first entry whose key is at least `k`. */
  ghost predicate IsFirst(P: Heap, p: PageId, i: int, k: int) {
    && LeafAt(P, p) && 0 <= i < |P[p].entries| && k <= P[p].entries[i].key
    && forall e :: e in Entries(P) && k <= e.key ==> P[p].entries[i].key <= e.key
  }

  /** Slot `i` of leaf `p` holds the last entry whose key is below `k`. */
  ghost predicate IsLast(P: Heap, p: PageId, i: int, k: int) {
    && LeafAt(P, p) && 0 <= i < |P[p].entries| && P[p].entries[i].key < k
    && forall e :: e in Entries(P) && e.key < k ==> e.key <= P[p].entries[i].key
  }

  lemma FirstInLeaf(P: Heap, S: Shapes, root: PageId, p: PageId, i: nat, k: int)
    requires TreeOk(P, S, root, Settled) && LeafAt(P, p) && AtLeast(k, S[p].lo) && i < |P[p].entries|
    requires forall x :: 0 <= x < i ==> P[p].entries[x].key < k
    requires k <= P[p].entries[i].key
    ensures IsFirst(P, p, i, k)
  {
    assert NodeOk(P[p], S[p]);
    forall e | e in Entries(P) && k <= e.key ensures P[p].entries[i].key <= e.key {
      if e in P[p].entries {
        var j :| 0 <= j < |P[p].entries| && P[p].entries[j] == e;
      } else {
        BeyondLeaf(P, S, root, p, e);
      }
    }
  }

  /** Past the last slot of a leaf, the first entry is that of the next leaf, if there is one. */
  lemma FirstInNext(P: Heap, S: Shapes, root: PageId, p: PageId, k: int)
    requires TreeOk(P, S, root, Settled) && LeafAt(P, p) && AtLeast(k, S[p].lo)
    requires forall x :: 0 <= x < |P[p].entries| ==> P[p].entries[x].key < k
    requires Below(k, S[p].hi) || S[p].hi == At(k)
    ensures P[p].next == INVALID_PAGE ==> forall e :: e in Entries(P) ==> e.key < k
    ensures P[p].next != INVALID_PAGE ==> LeafAt(P, P[p].next)
    ensures P[p].next != INVALID_PAGE && |P[P[p].next].entries| > 0 ==> IsFirst(P, P[p].next, 0, k)
  {
    assert NodeOk(P[p], S[p]) && NextOk(P, S, p);
    forall e | e in Entries(P) && k <= e.key
      ensures P[p].next != INVALID_PAGE
      ensures |P[P[p].next].entries| > 0 ==> P[P[p].next].entries[0].key <= e.key
    {
      BeyondLeaf(P, S, root, p, e);
    }
    if P[p].next != INVALID_PAGE {
      assert NodeOk(P[P[p].next], S[P[p].next]);
    }
  }

  lemma LastInLeaf(P: Heap, S: Shapes, root: PageId, p: PageId, i: nat, k: int)
    requires TreeOk(P, S, root, Settled) && LeafAt(P, p) && i < |P[p].entries|
    requires P[p].entries[i].key < k && Below(k - 1, S[p].hi)
    requires forall x :: i < x < |P[p].entries| ==> k <= P[p].entries[x].key
    ensures IsLast(P, p, i, k)
  {
    assert NodeOk(P[p], S[p]);
    forall e | e in Entries(P) && e.key < k ensures e.key <= P[p].entries[i].key {
      if e in P[p].entries {
        var j :| 0 <= j < |P[p].entries| && P[p].entries[j] == e;
      } else if P[p].entries[i].key < e.key {
        BeyondLeaf(P, S, root, p, e);
      }
    }
  }

  /** Before the first slot of a leaf, the last entry is that of the previous leaf, if there is one. */
  lemma LastInPrev(P: Heap, S: Shapes, root: PageId, p: PageId, k: int)
    requires TreeOk(P, S, root, Settled) && LeafAt(P, p) && Within(k, S[p])
    requires forall x :: 0 <= x < |P[p].entries| ==> k <= P[p].entries[x].key
    ensures P[p].prev == INVALID_PAGE ==> forall e :: e in Entries(P) ==> k <= e.key
    ensures P[p].prev != INVALID_PAGE ==> LeafAt(P, P[p].prev) && P[P[p].prev].next == p
    ensures P[p].prev != INVALID_PAGE && |P[P[p].prev].entries| > 0 ==>
      IsLast(P, P[p].prev, |P[P[p].prev].entries| - 1, k)
  {
    assert NodeOk(P[p], S[p]) && PrevOk(P, S, p);
    var q := P[p].prev;
    forall e | e in Entries(P) && e.key < k
      ensures q != INVALID_PAGE
      ensures |P[q].entries| > 0 ==> e.key <= P[q].entries[|P[q].entries| - 1].key
    {
      if q == INVALID_PAGE || e !in P[q].entries {
        if AtLeast(e.key, S[p].lo) {
          BeyondLeaf(P, S, root, p, e);
        } else {
          assert NodeOk(P[q], S[q]);
          if AtLeast(e.key, S[q].lo) { BeyondLeaf(P, S, root, q, e); }
        }
      } else {
        assert NodeOk(P[q], S[q]);
        var j :| 0 <= j < |P[q].entries| && P[q].entries[j] == e;
      }
    }
    if q != INVALID_PAGE {
      assert NodeOk(P[q], S[q]);
    }
  }

  lemma LeafNotEmpty(P: Heap, S: Shapes, root: PageId, p: PageId, lm: int, im: int)
    requires Good(P, S, root, Settled, INVALID_PAGE, lm, im) && LeafAt(P, p)
    ensures |P[p].entries| > 0
  {
    assert SizeOk(P[p], p == root, 0, lm, im);
  }

  /** The first entry of all sits in slot 0 of the leaf without a left neighbour. */
  lemma FirstOfAll(P: Heap, S: Shapes, root: PageId, p: PageId, e: Entry)
    requires TreeOk(P, S, root, Settled) && LeafAt(P, p) && S[p].lo.Open? && |P[p].entries| > 0 && e in Entries(P)
    ensures P[p].entries[0].key <= e.key
  {
    assert NodeOk(P[p], S[p]);
    if e in P[p].entries {
      var j :| 0 <= j < |P[p].entries| && P[p].entries[j] == e;
    } else {
      BeyondLeaf(P, S, root, p, e);
    }
  }

  /** The last entry of all sits in the last slot of the leaf without a right neighbour. */
  lemma LastOfAll(P: Heap, S: Shapes, root: PageId, p: PageId, e: Entry)
    requires TreeOk(P, S, root, Settled) && LeafAt(P, p) && S[p].hi.Open? && |P[p].entries| > 0 && e in Entries(P)
    ensures e.key <= P[p].entries[|P[p].entries| - 1].key
  {
    assert NodeOk(P[p], S[p]);
    if e in P[p].entries {
      var j :| 0 <= j < |P[p].entries| && P[p].entries[j] == e;
    } else if AtLeast(e.key, S[p].lo) {
      BeyondLeaf(P, S, root, p, e);
    }
  }

  /** Two entries with none between them, the later one first in its leaf: their leaves are linked. */
  lemma AdjacentLeaves(P: Heap, S: Shapes, root: PageId, p: PageId, i: nat, q: PageId, j: nat)
    requires TreeOk(P, S, root, Settled) && LeafAt(P, p) && LeafAt(P, q) && p != q
    requires i < |P[p].entries| && j < |P[q].entries| && P[q].entries[j].key < P[p].entries[i].key
    requires forall e :: e in Entries(P) ==> !(P[q].entries[j].key < e.key < P[p].entries[i].key)
    requires forall x :: LeafAt(P, x) ==> |P[x].entries| > 0
    ensures P[p].prev == q
  {
    assert NodeOk(P[p], S[p]) && NodeOk(P[q], S[q]) && NextOk(P, S, q) && PrevOk(P, S, p);
    LeavesOrdered(P, S, root, p, q);
    var n := P[q].next;
    if n != p {
      assert NodeOk(P[n], S[n]);
      LeavesOrdered(P, S, root, n, p);
      EntryIn(P, n, P[n].entries[0]);
    }
  }
}
