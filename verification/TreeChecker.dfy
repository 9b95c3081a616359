/** The index's own consistency check: what it looks for on whatever pages it is given, that every tree that the
    operations leave behind passes it, and what passes it all the same. */
module TreeChecker {
  import opened Keys
  import opened TreePages
  import opened TreeEntries
  import opened TreeOrder
  import opened TreeMeaning

  // What the check needs to come to an end, with every read within a page.

  /** How many items a page must have for the check to read its first and last key. */
  function LeastItems(n: Node): nat { if n.Leaf? then 1 else 2 }

  ghost predicate PageReadable(P: Heap, root: PageId, rank: map<PageId, nat>, p: PageId)
    requires p in P && rank.Keys == P.Keys
  {
    && (P[p].parent in P ==> InternalAt(P, P[p].parent))
    && (p != root || P[p].parent != INVALID_PAGE ==> Size(P[p]) >= LeastItems(P[p]))
    && match P[p]
       case Leaf(_, _, next, _) => next in P ==> LeafAt(P, next) && rank[next] < rank[p]
       case Internal(_, cs) => forall i :: 0 <= i < |cs| && cs[i].page in P ==> rank[cs[i].page] < rank[p]
  }

  /** No page lies below itself, and the chain of leaves does not turn back. */
  ghost predicate Readable(P: Heap, root: PageId, rank: map<PageId, nat>) {
    && root in P && INVALID_PAGE !in P && rank.Keys == P.Keys
    && forall p {:trigger PageReadable(P, root, rank, p)} :: p in P ==> PageReadable(P, root, rank, p)
  }

  // What the check looks for.

  /** The first slot of a page, or -1. */
  function SlotOf(cs: seq<Child>, page: PageId, from: nat): (i: int)
    requires from <= |cs|
    ensures i == -1 || (from <= i < |cs| && cs[i].page == page)
    ensures forall x :: from <= x < (if i == -1 then |cs| else i) ==> cs[x].page != page
    decreases |cs| - from
  {
    if from == |cs| then -1 else if cs[from].page == page then from else SlotOf(cs, page, from + 1)
  }

  /** The least key that counts, the one of slot 0 being left out. */
  function FirstKey(n: Node): int
    requires Size(n) >= LeastItems(n)
  {
    if n.Leaf? then n.entries[0].key else n.children[1].key
  }

  function LastKey(n: Node): int
    requires Size(n) >= LeastItems(n)
  {
    if n.Leaf? then n.entries[|n.entries| - 1].key else n.children[|n.children| - 1].key
  }

  /** The keys of a page lie between the separators around its slot in its parent. */
  ghost predicate Fits(P: Heap, p: PageId)
    requires p in P && Size(P[p]) >= LeastItems(P[p])
  {
    InternalAt(P, P[p].parent) &&
    var cs := P[P[p].parent].children;
    var i := SlotOf(cs, p, 0);
    i != -1 && (i > 0 ==> cs[i].key <= FirstKey(P[p])) && (i + 1 < |cs| ==> LastKey(P[p]) < cs[i + 1].key)
  }

  /** A page is consistent: it is not too small for a root, its keys ascend, its children name it as their
      parent, and it fits its own parent. */
  ghost predicate Consistent(P: Heap, p: PageId) {
    p in P &&
    (if P[p].Leaf? then SortedEntries(P[p].entries) else SortedChildren(P[p].children)) &&
    (P[p].Internal? ==> forall i :: 0 <= i < |P[p].children| && P[p].children[i].page in P ==> P[P[p].children[i].page].parent == p) &&
    Size(P[p]) >= LeastItems(P[p]) && (P[p].parent != INVALID_PAGE ==> Fits(P, p))
  }

  /** Every page below `p` is there, and consistent. */
  ghost predicate AllConsistent(P: Heap, p: PageId) {
    forall q {:trigger Reached(P, p, q)} :: Reached(P, p, q) ==> Consistent(P, q)
  }

  /** `c` is a chain of leaves, linked in both directions, whose keys ascend from leaf to leaf. */
  ghost predicate LinkedChain(P: Heap, c: seq<PageId>) {
    && c != [] && FilledLeaf(P, c[0]) && FilledLeaf(P, c[|c| - 1])
    && P[c[0]].prev == INVALID_PAGE && P[c[|c| - 1]].next == INVALID_PAGE
    && forall i {:trigger Follows(P, c, i)} :: 0 < i < |c| ==> Follows(P, c, i)
  }

  ghost predicate FilledLeaf(P: Heap, p: PageId) {
    LeafAt(P, p) && P[p].entries != []
  }

  ghost predicate Follows(P: Heap, c: seq<PageId>, i: nat)
    requires 0 < i < |c|
  {
    && FilledLeaf(P, c[i - 1]) && FilledLeaf(P, c[i])
    && P[c[i - 1]].next == c[i] && P[c[i]].prev == c[i - 1]
    && LastKey(P[c[i - 1]]) < FirstKey(P[c[i]])
  }

  /** Leaf `q` is the leftmost one below `p`. */
  ghost predicate Leftmost(P: Heap, p: PageId, q: PageId) {
    LeafAt(P, q) && exists slots {:trigger Path(P, p, slots, q)} :: Path(P, p, slots, q) && Zeros(slots)
  }

  ghost predicate ChainFrom(P: Heap, root: PageId, c: seq<PageId>) {
    LinkedChain(P, c) && Leftmost(P, root, c[0])
  }

  /** What the whole check looks for: every page below the root is consistent, and the leaves from the leftmost
      one on are linked and ascend. */
  ghost predicate Accepted(P: Heap, root: PageId) {
    root == INVALID_PAGE || (AllConsistent(P, root) && exists c :: ChainFrom(P, root, c))
  }

  // The check.

  method GetValueIndex(P: Heap, p: PageId, child: PageId) returns (index: int)
    requires InternalAt(P, p)
    ensures index == SlotOf(P[p].children, child, 0)
  {
    for i := 0 to |P[p].children|
      invariant forall x :: 0 <= x < i ==> P[p].children[x].page != child
    {
      if P[p].children[i].page == child {
        return i;
      }
    }
    index := -1;
  }

  method IsValidateHeader(P: Heap, p: PageId) returns (result: bool)
    requires p in P
    ensures result <==> (P[p].parent == INVALID_PAGE ==> Size(P[p]) >= LeastItems(P[p]))
  {
    if P[p].parent == INVALID_PAGE {
      if Size(P[p]) < 1 {
        return false;
      }
      if P[p].Internal? && Size(P[p]) < 2 {
        return false;
      }
    }
    result := true;
  }

  method IsValidateLeaf(P: Heap, p: PageId) returns (result: bool)
    requires LeafAt(P, p) && INVALID_PAGE !in P && (P[p].parent in P ==> InternalAt(P, P[p].parent))
    requires P[p].parent != INVALID_PAGE ==> P[p].entries != []
    ensures result <==> Consistent(P, p)
  {
    result := IsValidateHeader(P, p);
    if !result {
      return false;
    }
    var es := P[p].entries;
    for i := 1 to |es|
      invariant forall x, y :: 0 <= x < y < i ==> es[x].key < es[y].key
    {
      if es[i - 1].key >= es[i].key {
        return false;
      }
    }
    var parent := P[p].parent;
    if parent == INVALID_PAGE {
      return true;
    }
    if parent !in P {
      return false;
    }
    var index := GetValueIndex(P, parent, p);
    if index < 0 {
      return false;
    }
    if index != 0 {
      if es[0].key < P[parent].children[index].key {
        return false;
      }
    }
    if index < |P[parent].children| - 1 {
      if es[|es| - 1].key >= P[parent].children[index + 1].key {
        return false;
      }
    }
    result := true;
  }

  method IsValidateInternal(P: Heap, p: PageId) returns (result: bool)
    requires InternalAt(P, p) && INVALID_PAGE !in P && (P[p].parent in P ==> InternalAt(P, P[p].parent))
    requires P[p].parent != INVALID_PAGE ==> |P[p].children| >= 2
    ensures result <==> Consistent(P, p)
  {
    result := IsValidateHeader(P, p);
    if !result {
      return false;
    }
    var cs := P[p].children;
    for i := 2 to |cs|
      invariant forall x, y :: 1 <= x < y < i ==> cs[x].key < cs[y].key
    {
      if cs[i - 1].key >= cs[i].key {
        return false;
      }
    }
    var i := 0;
    while result && i < |cs|
      invariant 0 <= i <= |cs|
      invariant result ==> forall x :: 0 <= x < i && cs[x].page in P ==> P[cs[x].page].parent == p
      invariant !result ==> exists x :: 0 <= x < |cs| && cs[x].page in P && P[cs[x].page].parent != p
    {
      if cs[i].page in P && P[cs[i].page].parent != p {
        result := false;
      }
      i := i + 1;
    }
    if !result {
      return;
    }
    var parent := P[p].parent;
    if parent == INVALID_PAGE {
      return;
    }
    if parent !in P {
      return false;
    }
    var index := GetValueIndex(P, parent, p);
    if index < 0 {
      return false;
    }
    if index != 0 {
      if cs[1].key < P[parent].children[index].key {
        return false;
      }
    }
    if index < |P[parent].children| - 1 {
      if cs[|cs| - 1].key >= P[parent].children[index + 1].key {
        return false;
      }
    }
  }

  /** What lies below a page: the page itself, and what lies below its children. */
  lemma ReachedFrom(P: Heap, p: PageId, q: PageId)
    ensures Reached(P, p, q) <==>
      q == p || (InternalAt(P, p) && exists i {:trigger P[p].children[i]} :: 0 <= i < |P[p].children| && Reached(P, P[p].children[i].page, q))
  {
    if slots :| Path(P, p, slots, q) {
      if slots != [] {
        assert Path(P, P[p].children[slots[0]].page, slots[1..], q);
      }
    }
    if q == p {
      assert Path(P, p, [], q);
    }
    if InternalAt(P, p) {
      forall i, slots | 0 <= i < |P[p].children| && Path(P, P[p].children[i].page, slots, q) ensures Reached(P, p, q) {
        assert ([i] + slots)[1..] == slots;
        assert Path(P, p, [i] + slots, q);
      }
    }
  }

  method IsValidateNodeRecursive(P: Heap, ghost root: PageId, ghost rank: map<PageId, nat>, p: PageId) returns (result: bool)
    requires Readable(P, root, rank) && p in P
    ensures result <==> AllConsistent(P, p)
    decreases rank[p]
  {
    assert PageReadable(P, root, rank, p);
    ReachedFrom(P, p, p);
    if P[p].Leaf? {
      result := IsValidateLeaf(P, p);
      forall q | Reached(P, p, q) ensures q == p {
        ReachedFrom(P, p, q);
      }
      return;
    }
    result := IsValidateInternal(P, p);
    var i := 0;
    ghost var bad := p;
    while result && i < |P[p].children|
      invariant 0 <= i <= |P[p].children|
      invariant result ==> Consistent(P, p) && forall x :: 0 <= x < i ==> AllConsistent(P, P[p].children[x].page)
      invariant !result ==> Reached(P, p, bad) && !Consistent(P, bad)
    {
      var child := P[p].children[i].page;
      if child !in P {
        ReachedFrom(P, child, child);
        ReachedFrom(P, p, child);
        result, bad := false, child;
        break;
      }
      result := IsValidateNodeRecursive(P, root, rank, child);
      if !result {
        bad :| Reached(P, child, bad) && !Consistent(P, bad);
        ReachedFrom(P, p, bad);
      }
      i := i + 1;
    }
    if result {
      forall q | Reached(P, p, q) ensures Consistent(P, q) {
        ReachedFrom(P, p, q);
      }
    }
  }

  /** Slots that lead to the first child all the way. */
  predicate Zeros(slots: seq<nat>) {
    forall i :: 0 <= i < |slots| ==> slots[i] == 0
  }

  lemma {:induction false} OneLeftmost(P: Heap, p: PageId, a: seq<nat>, q: PageId, b: seq<nat>, r: PageId)
    requires Zeros(a) && Path(P, p, a, q) && LeafAt(P, q) && Zeros(b) && Path(P, p, b, r) && LeafAt(P, r)
    ensures q == r
    decreases |a|
  {
    if a != [] && b != [] {
      OneLeftmost(P, P[p].children[0].page, a[1..], q, b[1..], r);
    }
  }

  method LeftMostPage(P: Heap, root: PageId, ghost rank: map<PageId, nat>) returns (p: PageId)
    requires Readable(P, root, rank) && AllConsistent(P, root)
    ensures FilledLeaf(P, p) && Leftmost(P, root, p)
  {
    p := root;
    ghost var slots: seq<nat> := [];
    while P[p].Internal?
      invariant p in P && Zeros(slots) && Path(P, root, slots, p)
      decreases rank[p]
    {
      assert PageReadable(P, root, rank, p) && Reached(P, root, p);
      ghost var down := slots + [0];
      PathExtend(P, root, slots, p, 0, P[p].children[0].page);
      assert Path(P, root, down, P[p].children[0].page) && Reached(P, root, P[p].children[0].page);
      p, slots := P[p].children[0].page, down;
    }
    assert Reached(P, root, p);
  }

  method IsValidateLeafLink(P: Heap, root: PageId, ghost rank: map<PageId, nat>) returns (result: bool)
    requires Readable(P, root, rank) && AllConsistent(P, root)
    ensures result <==> exists c :: ChainFrom(P, root, c)
  {
    var p := LeftMostPage(P, root, rank);
    ghost var seen := [p];
    forall c | ChainFrom(P, root, c) ensures c[0] == p {
      OnlyLeftmost(P, root, c[0], p);
    }
    if P[p].prev != INVALID_PAGE {
      return false;
    }
    result := true;
    var prevPage, nextPage := p, P[p].next;
    var prevKey := P[p].entries[|P[p].entries| - 1].key;
    while result && nextPage != INVALID_PAGE
      invariant FilledLeaf(P, prevPage) && (result ==> nextPage == P[prevPage].next && prevKey == LastKey(P[prevPage]))
      invariant seen != [] && seen[0] == p && seen[|seen| - 1] == prevPage
      invariant result ==> forall i {:trigger Follows(P, seen, i)} :: 0 < i < |seen| ==> Follows(P, seen, i)
      invariant result ==> forall c :: ChainFrom(P, root, c) ==> seen <= c
      invariant !result ==> forall c :: !ChainFrom(P, root, c)
      decreases if result then rank[prevPage] + 1 else 0
    {
      assert PageReadable(P, root, rank, prevPage);
      GoesOn(P, root, seen);
      if nextPage !in P {
        return false;
      }
      assert PageReadable(P, root, rank, nextPage);
      ReachedFrom(P, root, root);
      if P[nextPage].prev != prevPage {
        result := false;
      }
      if prevKey >= P[nextPage].entries[0].key {
        result := false;
      }
      prevKey := P[nextPage].entries[|P[nextPage].entries| - 1].key;
      ghost var before := seen;
      seen := seen + [nextPage];
      prevPage, nextPage := nextPage, P[nextPage].next;
      if result {
        forall i {:trigger Follows(P, seen, i)} | 0 < i < |seen| ensures Follows(P, seen, i) {
          assert i < |before| ==> Follows(P, before, i);
        }
      }
    }
    if result {
      assert ChainFrom(P, root, seen);
    }
  }

  lemma OnlyLeftmost(P: Heap, p: PageId, q: PageId, r: PageId)
    requires Leftmost(P, p, q) && Leftmost(P, p, r)
    ensures q == r
  {
    var a :| Path(P, p, a, q) && Zeros(a);
    var b :| Path(P, p, b, r) && Zeros(b);
    OneLeftmost(P, p, a, q, b, r);
  }

  /** A chain that begins like this goes on with the next leaf of the last one. */
  lemma GoesOn(P: Heap, root: PageId, seen: seq<PageId>)
    requires seen != [] && FilledLeaf(P, seen[|seen| - 1]) && P[seen[|seen| - 1]].next != INVALID_PAGE
    ensures forall c :: ChainFrom(P, root, c) && seen <= c ==>
      |c| > |seen| && c[|seen|] == P[seen[|seen| - 1]].next && Follows(P, c, |seen|)
  {
    forall c | ChainFrom(P, root, c) && seen <= c
      ensures |c| > |seen| && c[|seen|] == P[seen[|seen| - 1]].next && Follows(P, c, |seen|)
    {
      assert |c| > |seen| ==> Follows(P, c, |seen|);
    }
  }

  /** The whole check: it answers true exactly when the pages are as it wants them. */
  method IsValidateTree(P: Heap, root: PageId, ghost rank: map<PageId, nat>) returns (result: bool)
    requires root != INVALID_PAGE ==> Readable(P, root, rank)
    ensures result <==> Accepted(P, root)
  {
    if root == INVALID_PAGE {
      return true;
    }
    result := IsValidateNodeRecursive(P, root, rank, root);
    if result {
      result := IsValidateLeafLink(P, root, rank);
    }
  }

  // Every tree that the operations leave behind is accepted.

  /** Leaves by how many come after them, internal pages above all leaves by their level. */
  ghost function RankOf(P: Heap, S: Shapes): (rank: map<PageId, nat>)
    requires P.Keys == S.Keys
    ensures rank.Keys == P.Keys
  {
    map p | p in P :: if P[p].Leaf? then |LeavesAfter(P, S, p)| else |P.Keys| + if S[p].level > 0 then S[p].level else 0
  }

  lemma SubsetSize(a: set<PageId>, b: set<PageId>)
    requires a <= b
    ensures |a| <= |b| && (a < b ==> |a| < |b|)
  {
    assert b == a + (b - a) && |b| == |a| + |b - a|;
    assert a < b ==> b - a != {};
  }

  lemma KeptReadable(P: Heap, S: Shapes, root: PageId, lm: int, im: int)
    requires Good(P, S, root, Settled, INVALID_PAGE, lm, im)
    ensures Readable(P, root, RankOf(P, S))
  {
    var rank := RankOf(P, S);
    forall p | p in P ensures PageReadable(P, root, rank, p) {
      assert SizeOk(P[p], p == root, 0, lm, im) && NodeOk(P[p], S[p]) && ParentOk(P, S, root, Settled, p);
      if p != root {
        var i := ParentSlot(P, S, root, Settled, p);
      }
      if P[p].Leaf? && P[p].next in P {
        NextIsAfter(P, S, root, p);
        SubsetSize(LeavesAfter(P, S, P[p].next), LeavesAfter(P, S, p));
      }
      if P[p].Internal? {
        forall i | 0 <= i < |P[p].children| && P[p].children[i].page in P ensures rank[P[p].children[i].page] < rank[p] {
          RankBelow(P, S, root, p, i);
        }
      }
    }
  }

  lemma RankBelow(P: Heap, S: Shapes, root: PageId, p: PageId, i: nat)
    requires TreeOk(P, S, root, Settled) && InternalAt(P, p) && i < |P[p].children|
    ensures var c := P[p].children[i].page; c in P && RankOf(P, S)[c] < RankOf(P, S)[p]
  {
    assert ChildOk(P, S, Settled, p, i) && NodeOk(P[p], S[p]);
    var c := P[p].children[i].page;
    assert NodeOk(P[c], S[c]);
    SubsetSize(LeavesAfter(P, S, c), P.Keys);
  }

  lemma KeptConsistent(P: Heap, S: Shapes, root: PageId, lm: int, im: int, p: PageId)
    requires Good(P, S, root, Settled, INVALID_PAGE, lm, im) && p in P
    ensures Consistent(P, p)
  {
    assert SizeOk(P[p], p == root, 0, lm, im) && NodeOk(P[p], S[p]) && ParentOk(P, S, root, Settled, p);
    if P[p].Internal? {
      forall i | 0 <= i < |P[p].children| && P[p].children[i].page in P ensures P[P[p].children[i].page].parent == p {
        assert ChildOk(P, S, Settled, p, i);
      }
    }
    if p != root {
      var x := ParentSlot(P, S, root, Settled, p);
      var i := SlotOf(P[P[p].parent].children, p, 0);
      assert ChildOk(P, S, Settled, P[p].parent, i);
    }
  }

  /** The leaf where the descent by first children ends. */
  lemma FirstLeaf(P: Heap, S: Shapes, root: PageId) returns (p: PageId)
    requires TreeOk(P, S, root, Settled)
    ensures Leftmost(P, root, p) && S[p].lo.Open?
  {
    p := root;
    var slots: seq<nat> := [];
    assert ParentOk(P, S, root, Settled, root);
    while P[p].Internal?
      invariant p in P && p in S && S[p].lo.Open? && Zeros(slots) && Path(P, root, slots, p)
      decreases S[p].level
    {
      assert NodeOk(P[p], S[p]) && ChildOk(P, S, Settled, p, 0);
      var down := slots + [0];
      PathExtend(P, root, slots, p, 0, P[p].children[0].page);
      p, slots := P[p].children[0].page, down;
      assert NodeOk(P[p], S[p]);
    }
  }

  lemma KeptChain(P: Heap, S: Shapes, root: PageId, lm: int, im: int) returns (c: seq<PageId>)
    requires Good(P, S, root, Settled, INVALID_PAGE, lm, im)
    ensures ChainFrom(P, root, c)
  {
    var p := FirstLeaf(P, S, root);
    assert PrevOk(P, S, p);
    c := Chain(P, S, root, p);
    ChainLinked(P, S, root, p);
    forall i | 0 <= i < |c| ensures FilledLeaf(P, c[i]) {
      LeafNotEmpty(P, S, root, c[i], lm, im);
    }
    forall i {:trigger Follows(P, c, i)} | 0 < i < |c| ensures Follows(P, c, i) {
      assert P[c[i - 1]].next == c[i];
      NextIsAfter(P, S, root, c[i - 1]);
      assert NodeOk(P[c[i - 1]], S[c[i - 1]]) && NodeOk(P[c[i]], S[c[i]]);
    }
  }

  /** The check accepts every tree that the operations leave behind. */
  lemma KeptAccepted(P: Heap, S: Shapes, root: PageId, lm: int, im: int)
    requires Good(P, S, root, Settled, INVALID_PAGE, lm, im)
    ensures Readable(P, root, RankOf(P, S)) && Accepted(P, root)
  {
    KeptReadable(P, S, root, lm, im);
    forall q | Reached(P, root, q) ensures Consistent(P, q) {
      var slots :| Path(P, root, slots, q);
      PathInTree(P, S, root, root, slots, q);
      KeptConsistent(P, S, root, lm, im, q);
    }
    var c := KeptChain(P, S, root, lm, im);
  }

  // What an accepted tree is known to be.

  /** The keys of an accepted chain ascend all the way, as far as its leaves belong to the tree. */
  lemma {:induction false} AcceptedAscends(P: Heap, c: seq<PageId>, i: nat, j: nat)
    requires LinkedChain(P, c) && (forall k :: 0 <= k < |c| ==> Consistent(P, c[k])) && i < j < |c|
    ensures FilledLeaf(P, c[i]) && FilledLeaf(P, c[j]) && LastKey(P[c[i]]) < FirstKey(P[c[j]])
  {
    assert Follows(P, c, j);
    if i + 1 < j {
      AcceptedAscends(P, c, i, j - 1);
      assert FirstKey(P[c[j - 1]]) <= LastKey(P[c[j - 1]]);
    }
  }

  /** Not every accepted tree is in order: here the chain of leaves ends with the first one, so that a scan
      never reaches the second. */
  lemma AcceptsShortChain() returns (P: Heap, rank: map<PageId, nat>)
    ensures Readable(P, 2, rank) && Accepted(P, 2)
    ensures forall S :: !TreeOk(P, S, 2, Settled)
  {
    P := map[
      2 := Internal(INVALID_PAGE, [Child(0, 3), Child(10, 4)]),
      3 := Leaf(2, INVALID_PAGE, INVALID_PAGE, [Entry(1, MIN_RID)]),
      4 := Leaf(2, 3, INVALID_PAGE, [Entry(10, MIN_RID)])];
    rank := map[2 := 1, 3 := 0, 4 := 0];
    assert P[2].children[0].page == 3 && P[2].children[1].page == 4;
    forall q | Reached(P, 2, q) ensures Consistent(P, q) {
      ReachedFrom(P, 2, q);
      ReachedFrom(P, 3, q);
      ReachedFrom(P, 4, q);
    }
    assert Path(P, 2, [0], 3) && Zeros([0]) by {
      assert Path(P, 3, [], 3) && [0][1..] == [];
    }
    assert ChainFrom(P, 2, [3]);
    forall S ensures !TreeOk(P, S, 2, Settled) {
      assert !(ChildOk(P, S, Settled, 2, 0) && NextOk(P, S, 3));
    }
  }
}
