/** What the page-by-page shape means for the tree as a whole. */
module TreeMeaning {
  import opened TreePages
  import opened TreeOrder

  /** `slots` leads from page `p` down to page `q`. */
  ghost predicate Path(P: Heap, p: PageId, slots: seq<nat>, q: PageId)
    decreases |slots|
  {
    if slots == [] then p == q
    else InternalAt(P, p) && slots[0] < |P[p].children| && Path(P, P[p].children[slots[0]].page, slots[1..], q)
  }

  /** Page `q` is reached from the root. */
  ghost predicate Reached(P: Heap, root: PageId, q: PageId) {
    exists slots :: Path(P, root, slots, q)
  }

  /** All leaves lie at the same depth. */
  lemma {:induction false} EqualDepth(P: Heap, S: Shapes, root: PageId, p: PageId, slots: seq<nat>, q: PageId)
    requires TreeOk(P, S, root, Settled) && p in P && LeafAt(P, q) && Path(P, p, slots, q)
    ensures |slots| == S[p].level
    decreases |slots|
  {
    if slots == [] {
      assert NodeOk(P[q], S[q]);
    } else {
      assert ChildOk(P, S, Settled, p, slots[0]);
      EqualDepth(P, S, root, P[p].children[slots[0]].page, slots[1..], q);
    }
  }

  /** Every page kept for the tree can be reached from the root. */
  lemma {:induction false} Reachable(P: Heap, S: Shapes, root: PageId, q: PageId) returns (slots: seq<nat>)
    requires TreeOk(P, S, root, Settled) && q in P
    ensures Path(P, root, slots, q)
    decreases S[root].level - S[q].level
  {
    assert ParentOk(P, S, root, Settled, q);
    if q == root {
      slots := [];
    } else {
      var i := ParentSlot(P, S, root, Settled, q);
      var up := Reachable(P, S, root, P[q].parent);
      slots := up + [i];
      PathExtend(P, root, up, P[q].parent, i, q);
    }
  }

  lemma {:induction false} PathExtend(P: Heap, p: PageId, slots: seq<nat>, q: PageId, i: nat, r: PageId)
    requires Path(P, p, slots, q) && InternalAt(P, q) && i < |P[q].children| && P[q].children[i].page == r
    ensures Path(P, p, slots + [i], r)
    decreases |slots|
  {
    if slots != [] {
      PathExtend(P, P[p].children[slots[0]].page, slots[1..], q, i, r);
      assert (slots + [i])[1..] == slots[1..] + [i];
    }
  }

  lemma {:induction false} PathInTree(P: Heap, S: Shapes, root: PageId, p: PageId, slots: seq<nat>, q: PageId)
    requires TreeOk(P, S, root, Settled) && p in P && Path(P, p, slots, q)
    ensures q in P
    decreases |slots|
  {
    if slots != [] {
      assert ChildOk(P, S, Settled, p, slots[0]);
      PathInTree(P, S, root, P[p].children[slots[0]].page, slots[1..], q);
    }
  }

  lemma {:induction false} PathWithin(P: Heap, S: Shapes, root: PageId, p: PageId, slots: seq<nat>, q: PageId, k: int)
    requires TreeOk(P, S, root, Settled) && p in P && q in P && Path(P, p, slots, q) && Within(k, S[q])
    ensures Within(k, S[p])
    decreases |slots|
  {
    if slots != [] {
      assert ChildOk(P, S, Settled, p, slots[0]) && NodeOk(P[p], S[p]);
      PathWithin(P, S, root, P[p].children[slots[0]].page, slots[1..], q, k);
      SlotWithin(P[p], S[p], k, slots[0]);
    }
  }

  /** The separators of a page bound everything stored below its children. */
  lemma SeparatorsBound(P: Heap, S: Shapes, root: PageId, p: PageId, slots: seq<nat>, q: PageId, e: Entry)
    requires TreeOk(P, S, root, Settled) && InternalAt(P, p) && slots != [] && Path(P, p, slots, q)
    requires LeafAt(P, q) && e in P[q].entries
    ensures 0 < slots[0] ==> P[p].children[slots[0]].key <= e.key
    ensures slots[0] + 1 < |P[p].children| ==> e.key < P[p].children[slots[0] + 1].key
  {
    assert NodeOk(P[q], S[q]) && ChildOk(P, S, Settled, p, slots[0]);
    PathWithin(P, S, root, P[p].children[slots[0]].page, slots[1..], q, e.key);
  }

  /** Slot 0 of an internal page that is not on the left spine repeats the separator above it. */
  lemma SlotZeroKey(P: Heap, S: Shapes, root: PageId, p: PageId, i: nat)
    requires TreeOk(P, S, root, Settled) && InternalAt(P, p) && 1 <= i < |P[p].children|
    requires InternalAt(P, P[p].children[i].page)
    ensures |P[P[p].children[i].page].children| > 0
    ensures P[P[p].children[i].page].children[0].key == P[p].children[i].key
  {
    assert ChildOk(P, S, Settled, p, i);
    assert NodeOk(P[P[p].children[i].page], S[P[p].children[i].page]);
  }

  // The leaf chain.

  ghost function LeavesAfter(P: Heap, S: Shapes, p: PageId): set<PageId> {
    set q | q in P && P[q].Leaf? && Before(S, p, q)
  }

  lemma NextIsAfter(P: Heap, S: Shapes, root: PageId, p: PageId)
    requires TreeOk(P, S, root, Settled) && LeafAt(P, p) && P[p].next != INVALID_PAGE
    ensures LeafAt(P, P[p].next) && P[P[p].next].prev == p && S[P[p].next].lo == S[p].hi
    ensures LeavesAfter(P, S, P[p].next) < LeavesAfter(P, S, p)
  {
    var n := P[p].next;
    assert NextOk(P, S, p) && NodeOk(P[n], S[n]);
    assert n in LeavesAfter(P, S, p) && n !in LeavesAfter(P, S, n);
  }

  /** The leaves met by following `next` from `p`. */
  ghost function Chain(P: Heap, S: Shapes, root: PageId, p: PageId): (c: seq<PageId>)
    requires TreeOk(P, S, root, Settled) && LeafAt(P, p)
    ensures |c| > 0 && c[0] == p
    decreases LeavesAfter(P, S, p)
  {
    if P[p].next == INVALID_PAGE then [p]
    else (NextIsAfter(P, S, root, p); [p] + Chain(P, S, root, P[p].next))
  }

  /** The chain runs through its leaves in key order, forwards and backwards. */
  lemma {:induction false} ChainLinked(P: Heap, S: Shapes, root: PageId, p: PageId)
    requires TreeOk(P, S, root, Settled) && LeafAt(P, p)
    ensures var c := Chain(P, S, root, p);
      && (forall i :: 0 <= i < |c| ==> LeafAt(P, c[i]))
      && (forall i :: 0 <= i < |c| - 1 ==> P[c[i]].next == c[i + 1])
      && (forall i :: 0 < i < |c| ==> P[c[i]].prev == c[i - 1])
      && P[c[|c| - 1]].next == INVALID_PAGE
    decreases LeavesAfter(P, S, p)
  {
    if P[p].next != INVALID_PAGE {
      NextIsAfter(P, S, root, p);
      ChainLinked(P, S, root, P[p].next);
    }
  }

  /** From `p` on, the chain meets `p` and exactly the leaves after it. */
  lemma {:induction false} ChainCovers(P: Heap, S: Shapes, root: PageId, p: PageId, q: PageId)
    requires TreeOk(P, S, root, Settled) && LeafAt(P, p)
    ensures q in Chain(P, S, root, p) <==> q == p || q in LeavesAfter(P, S, p)
    decreases LeavesAfter(P, S, p)
  {
    assert NextOk(P, S, p) && NodeOk(P[p], S[p]);
    if P[p].next != INVALID_PAGE {
      var n := P[p].next;
      NextIsAfter(P, S, root, p);
      ChainCovers(P, S, root, n, q);
      assert NodeOk(P[n], S[n]);
      if q in LeavesAfter(P, S, p) && q != n {
        assert NodeOk(P[q], S[q]);
        LeavesOrdered(P, S, root, n, q);
      }
    } else {
      assert Chain(P, S, root, p) == [p];
    }
  }

  /** Started at the leftmost leaf, the chain is all the leaves. */
  lemma ChainIsAllLeaves(P: Heap, S: Shapes, root: PageId, p: PageId, q: PageId)
    requires TreeOk(P, S, root, Settled) && LeafAt(P, p) && P[p].prev == INVALID_PAGE
    ensures q in Chain(P, S, root, p) <==> LeafAt(P, q)
  {
    ChainCovers(P, S, root, p, q);
    assert PrevOk(P, S, p);
    if LeafAt(P, q) && q != p { LeavesOrdered(P, S, root, p, q); }
  }

  ghost function ChainEntries(P: Heap, c: seq<PageId>): seq<Entry>
    requires forall i :: 0 <= i < |c| ==> LeafAt(P, c[i])
  {
    if c == [] then [] else assert LeafAt(P, c[0]); P[c[0]].entries + ChainEntries(P, c[1..])
  }

  /** Reading the leaves along the chain reads the keys in strictly increasing order. */
  lemma {:induction false} ChainSorted(P: Heap, S: Shapes, root: PageId, p: PageId)
    requires TreeOk(P, S, root, Settled) && LeafAt(P, p)
    requires forall i :: 0 <= i < |Chain(P, S, root, p)| ==> LeafAt(P, Chain(P, S, root, p)[i])
    ensures var es := ChainEntries(P, Chain(P, S, root, p));
      SortedEntries(es) && forall i :: 0 <= i < |es| ==> AtLeast(es[i].key, S[p].lo)
    decreases LeavesAfter(P, S, p)
  {
    var c := Chain(P, S, root, p);
    assert NodeOk(P[p], S[p]);
    if P[p].next == INVALID_PAGE {
      assert ChainEntries(P, c) == P[p].entries + [];
    } else {
      var n := P[p].next;
      NextIsAfter(P, S, root, p);
      var d := Chain(P, S, root, n);
      assert c[1..] == d;
      forall i | 0 <= i < |d| ensures LeafAt(P, d[i]) { assert d[i] == c[i + 1]; }
      ChainSorted(P, S, root, n);
      assert NodeOk(P[n], S[n]);
    }
  }
}
