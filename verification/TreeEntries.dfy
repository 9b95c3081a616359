/** What a tree holds, and how full its pages are. */
module TreeEntries {
  import opened Keys
  import opened TreePages
  import opened TreeSteps

  ghost function Elems(es: seq<Entry>): set<Entry> {
    set e | e in es
  }

  /** The index entries: everything some leaf lists. */
  ghost function Entries(P: Heap): set<Entry> {
    set p, e | p in P && P[p].Leaf? && e in P[p].entries :: e
  }

  lemma EntryIn(P: Heap, p: PageId, e: Entry)
    requires LeafAt(P, p) && e in P[p].entries
    ensures e in Entries(P)
  {
  }

  lemma EntryAt(P: Heap, e: Entry) returns (p: PageId)
    requires e in Entries(P)
    ensures LeafAt(P, p) && e in P[p].entries
  {
    p :| p in P && P[p].Leaf? && e in P[p].entries;
  }

  /** Every entry sits in the one leaf that covers its key. */
  lemma EntryLeaf(P: Heap, S: Shapes, root: PageId, p: PageId, q: PageId, e: Entry)
    requires TreeOk(P, S, root, Settled) && LeafAt(P, p) && LeafAt(P, q)
    requires e in P[q].entries && Within(e.key, S[p])
    ensures p == q
  {
    assert NodeOk(P[p], S[p]) && NodeOk(P[q], S[q]);
    var i :| 0 <= i < |P[q].entries| && P[q].entries[i] == e;
    OnePagePerLevel(P, S, root, p, q, e.key);
  }

  /** No two entries share a key. */
  lemma KeyUnique(P: Heap, S: Shapes, root: PageId, e: Entry, f: Entry)
    requires TreeOk(P, S, root, Settled) && e in Entries(P) && f in Entries(P) && e.key == f.key
    ensures e == f
  {
    var p := EntryAt(P, e);
    var q := EntryAt(P, f);
    assert NodeOk(P[p], S[p]) && NodeOk(P[q], S[q]);
    var i :| 0 <= i < |P[p].entries| && P[p].entries[i] == e;
    EntryLeaf(P, S, root, p, q, f);
    var j :| 0 <= j < |P[p].entries| && P[p].entries[j] == f;
  }

  lemma UpdateAddsEntry(P: Heap, p: PageId, i: nat, e: Entry)
    requires LeafAt(P, p) && i <= |P[p].entries|
    ensures Entries(P[p := P[p].(entries := Insert(P[p].entries, i, e))]) == Entries(P) + {e}
  {
    var Q := P[p := P[p].(entries := Insert(P[p].entries, i, e))];
    forall f ensures f in Entries(Q) <==> f in Entries(P) + {e} {
      InsertElems(P[p].entries, i, e, f);
      if f in Entries(Q) { var q := EntryAt(Q, f); if q != p { EntryIn(P, q, f); } }
      if f in Entries(P) { var q := EntryAt(P, f); EntryIn(Q, q, f); }
      if f == e { EntryIn(Q, p, f); }
    }
  }

  lemma InsertElems<T>(s: seq<T>, i: nat, x: T, y: T)
    requires i <= |s|
    ensures y in Insert(s, i, x) <==> y in s || y == x
  {
    if y in s {
      assert y in s[..i] || y in s[i..];
    }
  }

  lemma UpdateDropsEntry(P: Heap, S: Shapes, root: PageId, p: PageId, i: nat)
    requires TreeOk(P, S, root, Settled) && LeafAt(P, p) && i < |P[p].entries|
    ensures Entries(P[p := P[p].(entries := Remove(P[p].entries, i))]) == Entries(P) - {P[p].entries[i]}
  {
    var es := P[p].entries;
    var Q := P[p := P[p].(entries := Remove(es, i))];
    assert NodeOk(P[p], S[p]);
    forall f ensures f in Entries(Q) <==> f in Entries(P) - {es[i]} {
      RemoveElems(es, i, f);
      if f in Entries(Q) {
        var q := EntryAt(Q, f);
        EntryIn(P, q, f);
        if f == es[i] { EntryLeaf(P, S, root, p, q, f); }
      }
      if f in Entries(P) && f != es[i] { var q := EntryAt(P, f); EntryIn(Q, q, f); }
    }
  }

  lemma RemoveElems(s: seq<Entry>, i: nat, y: Entry)
    requires i < |s| && SortedEntries(s)
    ensures y in Remove(s, i) <==> y in s && y != s[i]
  {
    var t := Remove(s, i);
    if y in t {
      var k :| 0 <= k < |t| && t[k] == y;
      RemoveAt(s, i, k);
    }
    if y in s && y != s[i] {
      var k :| 0 <= k < |s| && s[k] == y;
      RemoveAt(s, i, if k < i then k else k - 1);
    }
  }

  /** A heap holds the same entries when no leaf changed its list. */
  ghost predicate SameLists(P: Heap, Q: Heap) {
    && (forall p :: LeafAt(P, p) ==> LeafAt(Q, p) && Q[p].entries == P[p].entries)
    && (forall p :: LeafAt(Q, p) ==> LeafAt(P, p))
  }

  lemma SameEntries(P: Heap, Q: Heap)
    requires SameLists(P, Q)
    ensures Entries(P) == Entries(Q)
  {
    forall f ensures f in Entries(Q) <==> f in Entries(P) {
      if f in Entries(Q) { var q := EntryAt(Q, f); EntryIn(P, q, f); }
      if f in Entries(P) { var q := EntryAt(P, f); EntryIn(Q, q, f); }
    }
  }

  lemma SplitLeafEntries(P: Heap, L: PageId, R: PageId, le: seq<Entry>, re: seq<Entry>, e: Entry)
    requires LeafAt(P, L) && R !in P
    requires P[L].next != INVALID_PAGE ==> LeafAt(P, P[L].next) && P[L].next != L
    requires Elems(le) + Elems(re) == Elems(P[L].entries) + {e}
    ensures Entries(SplitLeafHeap(P, L, R, le, re)) == Entries(P) + {e}
  {
    var Q := SplitLeafHeap(P, L, R, le, re);
    forall f ensures f in Entries(Q) <==> f in Entries(P) + {e} {
      assert f in Elems(le) + Elems(re) <==> f in Elems(P[L].entries) + {e};
      if f in Entries(Q) { var q := EntryAt(Q, f); if q in P && q != L { EntryIn(P, q, f); } else if f != e { EntryIn(P, L, f); } }
      if f in Elems(le) { EntryIn(Q, L, f); }
      if f in Elems(re) { EntryIn(Q, R, f); }
      if f in Entries(P) { var q := EntryAt(P, f); if q != L { EntryIn(Q, q, f); } }
    }
  }

  lemma JoinLeafEntries(P: Heap, L: PageId, R: PageId)
    requires LeafAt(P, L) && LeafAt(P, R) && L != R
    requires P[R].next != INVALID_PAGE ==> LeafAt(P, P[R].next) && P[R].next != L && P[R].next != R
    ensures Entries(JoinLeafHeap(P, L, R)) == Entries(P)
  {
    var Q := JoinLeafHeap(P, L, R);
    forall f ensures f in Entries(Q) <==> f in Entries(P) {
      if f in Entries(Q) {
        var q := EntryAt(Q, f);
        if q != L { EntryIn(P, q, f); } else if f in P[L].entries { EntryIn(P, L, f); } else { EntryIn(P, R, f); }
      }
      if f in Entries(P) { var q := EntryAt(P, f); EntryIn(Q, if q == R then L else q, f); }
    }
  }

  function Size(n: Node): nat {
    match n
    case Leaf(_, _, _, es) => |es|
    case Internal(_, cs) => |cs|
  }

  /** How full a page is: a page other than the root holds at least half of its
      capacity, rounded down; `slack` allows for the page a delete just shrank. */
  ghost predicate SizeOk(n: Node, isRoot: bool, slack: int, leafMax: int, internalMax: int) {
    match n
    case Leaf(_, _, _, es) =>
      (if isRoot then 1 else leafMax / 2) - slack <= |es| <= leafMax
    case Internal(_, cs) =>
      (if isRoot then 2 else internalMax / 2) - slack <= |cs| <= internalMax
  }

  ghost predicate SizesOk(P: Heap, root: PageId, under: PageId, leafMax: int, internalMax: int) {
    forall p {:trigger P[p]} :: p in P ==> SizeOk(P[p], p == root, if p == under then 1 else 0, leafMax, internalMax)
  }

  /** The page that may be nearly empty because it is the root and stays it. */
  ghost function SizeRoot(root: PageId, pend: Pending): PageId {
    if pend.Split? && pend.left == root then INVALID_PAGE else root
  }

  /** A tree whose only irregularities are the pending split and the page `under`. */
  ghost predicate Good(P: Heap, S: Shapes, root: PageId, pend: Pending, under: PageId, leafMax: int, internalMax: int) {
    && leafMax >= 4 && internalMax >= 6
    && TreeOk(P, S, root, pend)
    && SizesOk(P, SizeRoot(root, pend), under, leafMax, internalMax)
  }

  lemma GrowGood(P: Heap, S: Shapes, L: PageId, R: PageId, nr: PageId, zero: int, lm: int, im: int)
    requires Good(P, S, L, Split(L, R), INVALID_PAGE, lm, im) && nr !in P && nr != INVALID_PAGE
    ensures var Q := GrowHeap(P, L, R, nr, zero, S[R].lo.key);
      Good(Q, GrowShapes(S, L, nr), nr, Settled, INVALID_PAGE, lm, im) && Entries(Q) == Entries(P)
  {
    GrowOk(P, S, L, R, nr, zero);
    SameEntries(P, GrowHeap(P, L, R, nr, zero, S[R].lo.key));
  }

  /** The pages in use are the tree's, the two header pages and those waiting to be freed. */
  ghost predicate Space(keys: set<PageId>, inUse: set<PageId>, disposed: set<PageId>, pagesNum: int) {
    && pagesNum >= 2
    && inUse == keys + {0, 1} + disposed
    && disposed !! keys + {0, 1}
    && keys !! {0, 1}
    && (forall p :: p in inUse ==> 0 <= p < pagesNum)
  }

  lemma SpaceCanAllocate(keys: set<PageId>, inUse: set<PageId>, disposed: set<PageId>, n: int)
    requires Space(keys, inUse, disposed, n)
    ensures keys <= inUse && disposed !! keys && (forall p :: p in inUse ==> 0 <= p < n) && n >= 0
    ensures 1 !in disposed && disposed <= inUse
  {
  }

  lemma SpaceDrop(keys: set<PageId>, inUse: set<PageId>, disposed: set<PageId>, n: int, p: PageId)
    requires Space(keys, inUse, disposed, n) && p in keys
    ensures Space(keys - {p}, inUse - {p}, disposed, n) && Space(keys - {p}, inUse, disposed + {p}, n)
  {
  }

  lemma SpaceAdd(keys: set<PageId>, inUse: set<PageId>, disposed: set<PageId>, n: int, p: PageId, m: int)
    requires Space(keys, inUse, disposed, n) && p !in inUse && 0 <= p < m && n <= m
    ensures Space(keys + {p}, inUse + {p}, disposed, m)
  {
  }

  /** Where a pending right half belongs: right after its left half. */
  ghost predicate LinkSlot(P: Heap, S: Shapes, p: PageId, j: nat, L: PageId, R: PageId) {
    && InternalAt(P, p) && j < |P[p].children| && P[p].children[j].page == L
    && p != R && p != L && R in P && R in S && S[R].lo.At?
    && SortedChildren(P[p].children)
    && (0 < j ==> P[p].children[j].key < S[R].lo.key)
    && (j + 1 < |P[p].children| ==> S[R].lo.key < P[p].children[j + 1].key)
    && !Lists(P[p].children, R) && !Lists(P[p].children, p)
    && (forall i :: 0 <= i < |P[p].children| ==> P[p].children[i].page in P)
  }

  lemma FindLinkSlot(P: Heap, S: Shapes, root: PageId, L: PageId, R: PageId) returns (j: nat)
    requires TreeOk(P, S, root, Split(L, R)) && L != root
    ensures LinkSlot(P, S, P[L].parent, j, L, R)
    ensures S[P[L].parent].level > S[L].level && S[P[L].parent].level <= S[root].level
  {
    var pend := Split(L, R);
    j := ParentSlot(P, S, root, pend, L);
    var p := P[L].parent;
    assert NodeOk(P[L], S[L]) && NodeOk(P[R], S[R]);
    assert NodeOk(P[p], S[p]);
    forall i | 0 <= i < |P[p].children|
      ensures P[p].children[i].page in P && P[p].children[i].page != R && P[p].children[i].page != p
    {
      assert ChildOk(P, S, pend, p, i);
    }
  }

  lemma LinkGood(P: Heap, S: Shapes, root: PageId, p: PageId, j: nat, L: PageId, R: PageId, lm: int, im: int)
    requires Good(P, S, root, Split(L, R), INVALID_PAGE, lm, im)
    requires LinkSlot(P, S, p, j, L, R) && |P[p].children| < im
    ensures var Q := LinkHeap(P, p, j + 1, Child(S[R].lo.key, R));
      Good(Q, S, root, Settled, INVALID_PAGE, lm, im) && Entries(Q) == Entries(P)
  {
    LinkOk(P, S, root, p, j, L, R);
    SameEntries(P, LinkHeap(P, p, j + 1, Child(S[R].lo.key, R)));
  }

  /** The heap after the right half went into a full parent and the parent split at `m`. */
  ghost function FullLinkHeap(P: Heap, p: PageId, j: nat, c: Child, np: PageId): Heap
    requires InternalAt(P, p) && j < |P[p].children| && c.page in P && c.page != p
  {
    var m := |P[p].children| / 2;
    SplitInternalHeap(LinkHeap(P, p, j + 1, c), p, if j < m then m + 1 else m, np)
  }

  lemma FullLinkTree(P: Heap, S: Shapes, root: PageId, p: PageId, j: nat, L: PageId, R: PageId, np: PageId, k: int)
    requires TreeOk(P, S, root, Split(L, R)) && LinkSlot(P, S, p, j, L, R)
    requires |P[p].children| >= 6 && np !in P && np != INVALID_PAGE && k == P[p].children[|P[p].children| / 2].key
    ensures TreeOk(FullLinkHeap(P, p, j, Child(S[R].lo.key, R), np), SplitShapes(S, p, np, k), root, Split(p, np))
  {
    var c := Child(S[R].lo.key, R);
    var m := |P[p].children| / 2;
    var m' := if j < m then m + 1 else m;
    hide TreeOk;
    LinkOk(P, S, root, p, j, L, R);
    InsertAt(P[p].children, j + 1, c, m');
    SplitInternalOk(LinkHeap(P, p, j + 1, c), S, root, p, m', np);
  }

  lemma FullLinkCut(P: Heap, p: PageId, j: nat, c: Child, np: PageId)
    requires InternalAt(P, p) && j < |P[p].children| && c.page in P && c.page != p && np !in P
    ensures var Q := FullLinkHeap(P, p, j, c, np);
      && Entries(Q) == Entries(P)
      && Q.Keys == P.Keys + {np}
      && InternalAt(Q, np) && |Q[np].children| > 0 && Q[np].children[0].key == P[p].children[|P[p].children| / 2].key
  {
    var m := |P[p].children| / 2;
    InsertAt(P[p].children, j + 1, c, if j < m then m + 1 else m);
    SameEntries(P, FullLinkHeap(P, p, j, c, np));
  }

  lemma FullLinkGood(P: Heap, S: Shapes, root: PageId, p: PageId, j: nat, L: PageId, R: PageId, np: PageId, k: int, lm: int, im: int)
    requires Good(P, S, root, Split(L, R), INVALID_PAGE, lm, im)
    requires LinkSlot(P, S, p, j, L, R) && |P[p].children| == im && np !in P && np != INVALID_PAGE
    requires k == P[p].children[im / 2].key
    requires L != root
    ensures var Q := FullLinkHeap(P, p, j, Child(S[R].lo.key, R), np);
      && Good(Q, SplitShapes(S, p, np, k), root, Split(p, np), INVALID_PAGE, lm, im)
      && Entries(Q) == Entries(P)
      && Q.Keys == P.Keys + {np}
      && InternalAt(Q, np) && |Q[np].children| > 0 && Q[np].children[0].key == k
  {
    var c := Child(S[R].lo.key, R);
    FullLinkTree(P, S, root, p, j, L, R, np, k);
    FullLinkCut(P, p, j, c, np);
    FullLinkSizes(P, root, p, j, c, np, lm, im);
  }

  lemma FullLinkSizes(P: Heap, root: PageId, p: PageId, j: nat, c: Child, np: PageId, lm: int, im: int)
    requires im >= 6 && SizesOk(P, root, INVALID_PAGE, lm, im)
    requires InternalAt(P, p) && j < |P[p].children| == im && c.page in P && c.page != p && np !in P && np != INVALID_PAGE
    ensures SizesOk(FullLinkHeap(P, p, j, c, np), SizeRoot(root, Split(p, np)), INVALID_PAGE, lm, im)
  {
    var Q, r := FullLinkHeap(P, p, j, c, np), SizeRoot(root, Split(p, np));
    forall q | q in Q ensures SizeOk(Q[q], q == r, if q == INVALID_PAGE then 1 else 0, lm, im) {
      if q != np { assert P[q] == P[q]; }
    }
  }

  // A full leaf that takes one more entry.

  lemma InsertSorted(es: seq<Entry>, pos: nat, e: Entry)
    requires SortedEntries(es) && pos <= |es|
    requires forall i :: 0 <= i < pos ==> es[i].key < e.key
    requires forall i :: pos <= i < |es| ==> e.key < es[i].key
    ensures SortedEntries(Insert(es, pos, e))
  {
    var fs := Insert(es, pos, e);
    forall i, j | 0 <= i < j < |fs| ensures fs[i].key < fs[j].key {
      InsertAt(es, pos, e, i);
      InsertAt(es, pos, e, j);
    }
  }

  lemma InsertWithin(es: seq<Entry>, pos: nat, e: Entry, s: Shape)
    requires pos <= |es| && Within(e.key, s) && forall i :: 0 <= i < |es| ==> Within(es[i].key, s)
    ensures forall i :: 0 <= i < |es| + 1 ==> Within(Insert(es, pos, e)[i].key, s)
  {
    forall i | 0 <= i < |es| + 1 ensures Within(Insert(es, pos, e)[i].key, s) { InsertAt(es, pos, e, i); }
  }

  ghost function LeftHalf(es: seq<Entry>, pos: nat, e: Entry): seq<Entry>
    requires pos <= |es|
  {
    var m := |es| / 2;
    if pos < m then Insert(es[..m], pos, e) else es[..m]
  }

  ghost function RightHalf(es: seq<Entry>, pos: nat, e: Entry): seq<Entry>
    requires pos <= |es|
  {
    var m := |es| / 2;
    if pos < m then es[m..] else Insert(es[m..], pos - m, e)
  }

  lemma HalvesSplit(es: seq<Entry>, pos: nat, e: Entry)
    requires pos <= |es|
    ensures var m := if pos < |es| / 2 then |es| / 2 + 1 else |es| / 2;
      LeftHalf(es, pos, e) == Insert(es, pos, e)[..m] && RightHalf(es, pos, e) == Insert(es, pos, e)[m..]
  {
    var n := |es| / 2;
    if pos < n {
      assert Insert(es[..n], pos, e) == Insert(es, pos, e)[..n + 1];
    } else {
      assert Insert(es[n..], pos - n, e) == Insert(es, pos, e)[n..];
    }
  }

  lemma HalvesElems(es: seq<Entry>, pos: nat, e: Entry)
    requires pos <= |es|
    ensures Elems(LeftHalf(es, pos, e)) + Elems(RightHalf(es, pos, e)) == Elems(es) + {e}
  {
    HalvesSplit(es, pos, e);
    var fs := Insert(es, pos, e);
    var m := |LeftHalf(es, pos, e)|;
    forall f ensures f in fs[..m] || f in fs[m..] <==> f in Elems(es) + {e} {
      assert fs == fs[..m] + fs[m..];
      InsertElems(es, pos, e, f);
    }
  }

  ghost predicate InsertPoint(es: seq<Entry>, pos: nat, k: int) {
    && pos <= |es|
    && (forall i :: 0 <= i < pos ==> es[i].key < k)
    && (forall i :: pos <= i < |es| ==> k < es[i].key)
  }

  lemma HalvesOk(n: Node, s: Shape, pos: nat, e: Entry)
    requires n.Leaf? && NodeOk(n, s) && |n.entries| >= 4
    requires InsertPoint(n.entries, pos, e.key) && Within(e.key, s)
    ensures |RightHalf(n.entries, pos, e)| > 0
    ensures var k := RightHalf(n.entries, pos, e)[0].key;
      && Above(k, s.lo) && Below(k, s.hi)
      && NodeOk(Leaf(0, 0, 0, LeftHalf(n.entries, pos, e)), s.(hi := At(k)))
      && NodeOk(Leaf(0, 0, 0, RightHalf(n.entries, pos, e)), s.(lo := At(k)))
  {
    var es := n.entries;
    var fs := Insert(es, pos, e);
    InsertSorted(es, pos, e);
    InsertWithin(es, pos, e, s);
    HalvesSplit(es, pos, e);
    var m := |LeftHalf(es, pos, e)|;
    SliceOk(fs, m, s);
  }

  lemma SliceOk(fs: seq<Entry>, m: nat, s: Shape)
    requires SortedEntries(fs) && 0 < m < |fs| && s.level == 0
    requires forall i :: 0 <= i < |fs| ==> Within(fs[i].key, s)
    ensures var k := fs[m].key;
      && Above(k, s.lo) && Below(k, s.hi)
      && NodeOk(Leaf(0, 0, 0, fs[..m]), s.(hi := At(k)))
      && NodeOk(Leaf(0, 0, 0, fs[m..]), s.(lo := At(k)))
  {
    assert fs[0].key < fs[m].key;
  }

  lemma LeafSplitGood(P: Heap, S: Shapes, root: PageId, L: PageId, R: PageId, pos: nat, e: Entry, lm: int, im: int)
    requires Good(P, S, root, Settled, INVALID_PAGE, lm, im) && LeafAt(P, L) && R !in P && R != INVALID_PAGE
    requires |P[L].entries| == lm && InsertPoint(P[L].entries, pos, e.key) && Within(e.key, S[L])
    requires P[L].next != INVALID_PAGE ==> LeafAt(P, P[L].next) && P[L].next != L
    ensures var le, re := LeftHalf(P[L].entries, pos, e), RightHalf(P[L].entries, pos, e);
      && |re| > 0
      && Good(SplitLeafHeap(P, L, R, le, re), SplitShapes(S, L, R, re[0].key), root, Split(L, R), INVALID_PAGE, lm, im)
      && Entries(SplitLeafHeap(P, L, R, le, re)) == Entries(P) + {e}
  {
    var le, re := LeftHalf(P[L].entries, pos, e), RightHalf(P[L].entries, pos, e);
    assert NodeOk(P[L], S[L]);
    HalvesOk(P[L], S[L], pos, e);
    SplitLeafOk(P, S, root, L, R, re[0].key, le, re);
    HalvesElems(P[L].entries, pos, e);
    SplitLeafEntries(P, L, R, le, re, e);
    LeafSplitSizes(P, root, L, R, le, re, lm, im);
  }

  lemma LeafSplitSizes(P: Heap, root: PageId, L: PageId, R: PageId, le: seq<Entry>, re: seq<Entry>, lm: int, im: int)
    requires SizesOk(P, root, INVALID_PAGE, lm, im) && LeafAt(P, L) && R !in P && R != INVALID_PAGE && root in P && INVALID_PAGE !in P
    requires P[L].next != INVALID_PAGE ==> LeafAt(P, P[L].next) && P[L].next != L
    requires lm / 2 <= |le| <= lm && lm / 2 <= |re| <= lm
    ensures SizesOk(SplitLeafHeap(P, L, R, le, re), SizeRoot(root, Split(L, R)), INVALID_PAGE, lm, im)
  {
    var Q, r := SplitLeafHeap(P, L, R, le, re), SizeRoot(root, Split(L, R));
    forall q | q in Q ensures SizeOk(Q[q], q == r, if q == INVALID_PAGE then 1 else 0, lm, im) {
      if q != R { assert P[q] == P[q]; }
    }
  }

  // A leaf with room.

  lemma NoSuchKey(P: Heap, S: Shapes, root: PageId, p: PageId, k: int)
    requires TreeOk(P, S, root, Settled) && LeafAt(P, p) && Within(k, S[p])
    requires forall i :: 0 <= i < |P[p].entries| ==> P[p].entries[i].key != k
    ensures forall e :: e in Entries(P) ==> e.key != k
  {
    forall e | e in Entries(P) ensures e.key != k {
      if e.key == k {
        var q := EntryAt(P, e);
        EntryLeaf(P, S, root, p, q, e);
      }
    }
  }

  lemma LeafInsertGood(P: Heap, S: Shapes, root: PageId, p: PageId, pos: nat, e: Entry, lm: int, im: int)
    requires Good(P, S, root, Settled, INVALID_PAGE, lm, im) && LeafAt(P, p) && |P[p].entries| < lm
    requires InsertPoint(P[p].entries, pos, e.key) && Within(e.key, S[p])
    ensures var Q := P[p := P[p].(entries := Insert(P[p].entries, pos, e))];
      Good(Q, S, root, Settled, INVALID_PAGE, lm, im) && Entries(Q) == Entries(P) + {e}
  {
    assert NodeOk(P[p], S[p]);
    InsertSorted(P[p].entries, pos, e);
    InsertWithin(P[p].entries, pos, e, S[p]);
    LeafUpdateOk(P, S, root, p, Insert(P[p].entries, pos, e));
    UpdateAddsEntry(P, p, pos, e);
  }

  /** A page that is full enough is no longer an exception. */
  lemma Relax(P: Heap, S: Shapes, root: PageId, f: PageId, lm: int, im: int)
    requires Good(P, S, root, Settled, f, lm, im) && f in P && SizeOk(P[f], f == root, 0, lm, im)
    ensures Good(P, S, root, Settled, INVALID_PAGE, lm, im)
  {
    forall q | q in P ensures SizeOk(P[q], q == root, if q == INVALID_PAGE then 1 else 0, lm, im) {
      assert P[q] == P[q];
    }
  }

  lemma RemoveSorted(es: seq<Entry>, i: nat)
    requires SortedEntries(es) && i < |es|
    ensures SortedEntries(Remove(es, i))
  {
    var fs := Remove(es, i);
    forall x, y | 0 <= x < y < |fs| ensures fs[x].key < fs[y].key {
      RemoveAt(es, i, x);
      RemoveAt(es, i, y);
    }
  }

  lemma LeafRemoveGood(P: Heap, S: Shapes, root: PageId, p: PageId, i: nat, lm: int, im: int)
    requires Good(P, S, root, Settled, INVALID_PAGE, lm, im) && LeafAt(P, p) && i < |P[p].entries|
    ensures var Q := P[p := P[p].(entries := Remove(P[p].entries, i))];
      Good(Q, S, root, Settled, p, lm, im) && Entries(Q) == Entries(P) - {P[p].entries[i]}
  {
    var es := P[p].entries;
    assert NodeOk(P[p], S[p]);
    RemoveSorted(es, i);
    forall x | 0 <= x < |es| - 1 ensures Within(Remove(es, i)[x].key, S[p]) { RemoveAt(es, i, x); }
    LeafUpdateOk(P, S, root, p, Remove(es, i));
    UpdateDropsEntry(P, S, root, p, i);
    var Q := P[p := P[p].(entries := Remove(es, i))];
    forall q | q in Q ensures SizeOk(Q[q], q == root, if q == p then 1 else 0, lm, im) {
      assert P[q] == P[q];
    }
  }

  // The index as a set of (attribute value, record id) pairs.

  ghost function Pairs(E: set<Entry>): set<(int, RecordId)> {
    set e | e in E :: (KeyAttr(e.key), e.rid)
  }

  /** Every stored value is the record id inside its key, and not the reserved largest one. */
  ghost predicate RidsOk(E: set<Entry>) {
    forall e :: e in E ==> e.rid == KeyRid(e.key) && e.rid != MAX_RID
  }

  lemma PairIn(E: set<Entry>, attr: int, rid: RecordId)
    requires RidsOk(E) && ValidRid(rid)
    ensures (attr, rid) in Pairs(E) <==> Entry(MakeKey(attr, rid), rid) in E
    ensures (attr, rid) in Pairs(E) <==> exists e :: e in E && e.key == MakeKey(attr, rid)
  {
    KeyParts(attr, rid);
    if (attr, rid) in Pairs(E) {
      var e :| e in E && (KeyAttr(e.key), e.rid) == (attr, rid);
      KeyOfParts(e.key);
      assert e == Entry(MakeKey(attr, rid), rid);
    }
    if e :| e in E && e.key == MakeKey(attr, rid) {
      assert e == Entry(MakeKey(attr, rid), rid);
    }
  }

  lemma PairsAdd(E: set<Entry>, attr: int, rid: RecordId)
    requires RidsOk(E) && ValidRid(rid) && rid != MAX_RID
    ensures var F := E + {Entry(MakeKey(attr, rid), rid)}; RidsOk(F) && Pairs(F) == Pairs(E) + {(attr, rid)}
  {
    KeyParts(attr, rid);
    var e := Entry(MakeKey(attr, rid), rid);
    forall x ensures x in Pairs(E + {e}) <==> x in Pairs(E) + {(attr, rid)} {
      if x == (attr, rid) { assert e in E + {e}; }
    }
  }

  lemma PairsDrop(E: set<Entry>, attr: int, rid: RecordId, e: Entry)
    requires RidsOk(E) && ValidRid(rid) && e in E && e.key == MakeKey(attr, rid)
    ensures RidsOk(E - {e}) && Pairs(E - {e}) == Pairs(E) - {(attr, rid)}
  {
    KeyParts(attr, rid);
    forall x ensures x in Pairs(E - {e}) <==> x in Pairs(E) - {(attr, rid)} {
      if x in Pairs(E) {
        var f :| f in E && (KeyAttr(f.key), f.rid) == x;
        KeyOfParts(f.key);
        KeyOfParts(e.key);
        assert f != e <==> x != (attr, rid);
        if f != e { assert f in E - {e}; }
      }
    }
  }

  lemma SingleLeafGood(p: PageId, e: Entry, lm: int, im: int)
    requires p != INVALID_PAGE && lm >= 4 && im >= 6
    ensures var P := map[p := Leaf(INVALID_PAGE, INVALID_PAGE, INVALID_PAGE, [e])];
      Good(P, map[p := Shape(0, Open, Open)], p, Settled, INVALID_PAGE, lm, im) && Entries(P) == {e}
  {
    var P: Heap := map[p := Leaf(INVALID_PAGE, INVALID_PAGE, INVALID_PAGE, [e])];
    assert P[p].entries[0] == e;
    EntryIn(P, p, e);
  }
}
