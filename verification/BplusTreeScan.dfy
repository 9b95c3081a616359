/** Range scans: two cursors over the leaf chain. */
module BplusTreeScan {
  import opened ReturnCodes
  import opened Keys
  import opened TreePages
  import opened TreeEntries
  import opened TreeOrder
  import opened BplusTree

  class BplusTreeScanner {
    const tree: BplusTreeHandler
    var inited: bool
    var leftFrame: PageId
    var rightFrame: PageId
    var iterIndex: int
    var endIndex: int

    constructor (tree: BplusTreeHandler)
      ensures this.tree == tree && !inited && Pins() == 0 && (tree.Stable() ==> Valid())
    {
      this.tree := tree;
      inited, leftFrame, rightFrame, iterIndex, endIndex := false, INVALID_PAGE, INVALID_PAGE, -1, -1;
    }

    /** The pins this scanner holds on the probed page. */
    ghost function Pins(): nat
      reads this
    {
      (if leftFrame == INVALID_PAGE then 0 else tree.Hit(leftFrame)) +
      (if rightFrame == INVALID_PAGE then 0 else tree.Hit(rightFrame))
    }

    ghost predicate Valid()
      reads this, tree
    {
      && tree.Stable()
      && tree.probePins >= Pins()
      && (!inited ==> leftFrame == INVALID_PAGE && rightFrame == INVALID_PAGE && endIndex == -1)
      && (leftFrame != INVALID_PAGE ==> LeafAt(tree.pages, leftFrame))
      && (rightFrame != INVALID_PAGE ==> LeafAt(tree.pages, rightFrame))
      && (endIndex != -1 ==> CursorsOk())
    }

    ghost predicate CursorsOk()
      reads this, tree
    {
      && LeafAt(tree.pages, leftFrame) && LeafAt(tree.pages, rightFrame)
      && 0 <= iterIndex < |tree.pages[leftFrame].entries|
      && 0 <= endIndex < |tree.pages[rightFrame].entries|
      && LeftKeyNow() <= RightKeyNow()
    }

    ghost function LeftKeyNow(): int
      reads this, tree
      requires LeafAt(tree.pages, leftFrame) && 0 <= iterIndex < |tree.pages[leftFrame].entries|
    {
      tree.pages[leftFrame].entries[iterIndex].key
    }

    ghost function RightKeyNow(): int
      reads this, tree
      requires LeafAt(tree.pages, rightFrame) && 0 <= endIndex < |tree.pages[rightFrame].entries|
    {
      tree.pages[rightFrame].entries[endIndex].key
    }

    /** The entries still to be returned. */
    ghost function Rest(): set<Entry>
      reads this, tree
      requires Valid()
    {
      if endIndex == -1 then {}
      else Span(tree.pages, LeftKeyNow(), RightKeyNow())
    }

    /** Returns the least entry still to be returned, each exactly once, then reports the end. */
    method NextEntry() returns (re: Re, rid: RecordId, ghost e: Entry)
      requires Valid()
      modifies `leftFrame, `iterIndex, `endIndex, tree`probePins
      ensures Valid() && tree.probePins - Pins() == old(tree.probePins - Pins())
      ensures re == if old(Rest()) == {} then RecordEof else Success
      ensures re == RecordEof ==> Rest() == {}
      ensures re == Success ==>
        && e in old(Rest()) && rid == e.rid
        && (forall x :: x in old(Rest()) ==> e.key <= x.key)
        && Rest() == old(Rest()) - {e}
    {
      if endIndex == -1 {
        return RecordEof, MIN_RID, Entry(0, MIN_RID);
      }
      var es := tree.pages[leftFrame].entries;
      e := es[iterIndex];
      rid, re := es[iterIndex].rid, Success;
      ghost var last := RightKeyNow();
      Filled(tree.pages, tree.shapes, tree.rootPageId, tree.leafMax, tree.internalMax);
      SpanHead(tree.pages, tree.shapes, tree.rootPageId, leftFrame, iterIndex, last);
      if leftFrame == rightFrame && iterIndex == endIndex {
        SpanOne(tree.pages, tree.shapes, tree.rootPageId, e);
        endIndex := -1;
      } else {
        StepOk(tree.pages, tree.shapes, tree.rootPageId, leftFrame, iterIndex, rightFrame, endIndex);
        if iterIndex < |es| - 1 {
          iterIndex := iterIndex + 1;
        } else {
          var next := tree.pages[leftFrame].next;
          tree.UnpinPage(leftFrame);
          tree.GetPage(next);
          leftFrame, iterIndex := next, 0;
        }
      }
    }

    /** Puts the left cursor on the first entry at or above the left bound. */
    method SeekLeft(left: Option<UserKey>, inclusive: bool) returns (re: Re, exhausted: bool)
      requires tree.Stable() && leftFrame == INVALID_PAGE
      modifies `leftFrame, `iterIndex, tree`probePins
      ensures re == if tree.rootPageId == INVALID_PAGE then Empty else Success
      ensures re == Empty ==> leftFrame == INVALID_PAGE && tree.probePins == old(tree.probePins)
      ensures re == Success ==>
        && LeafAt(tree.pages, leftFrame) && tree.probePins == old(tree.probePins) + tree.Hit(leftFrame)
        && (exhausted ==> forall e :: e in Entries(tree.pages) ==> !FromLeft(e.key, left, inclusive))
        && (!exhausted ==> FirstFrom(tree.pages, leftFrame, iterIndex, left, inclusive))
    {
      exhausted := false;
      ghost var P, S, root := tree.pages, tree.shapes, tree.rootPageId;
      var frame;
      if left.None? {
        re, frame := tree.FindLeafInternal(First);
        if re == Success {
          leftFrame, iterIndex := frame, 0;
          FirstFromAll(P, S, root, frame, inclusive, tree.leafMax, tree.internalMax);
        }
        return;
      }
      var leftKey := LeftKey(left.value, inclusive);
      re, frame := tree.FindLeafInternal(OfKey(leftKey));
      if re != Success {
        return;
      }
      assert NodeOk(P[frame], S[frame]);
      var leftIndex, _ := tree.LeafLookUp(frame, leftKey);
      Filled(P, S, root, tree.leafMax, tree.internalMax);
      if leftIndex >= |tree.pages[frame].entries| {
        FirstInNext(P, S, root, frame, leftKey);
        var next := tree.pages[frame].next;
        if next == INVALID_PAGE {
          leftFrame := frame;
          return Success, true;
        }
        tree.UnpinPage(frame);
        tree.GetPage(next);
        leftFrame, iterIndex := next, 0;
      } else {
        FirstInLeaf(P, S, root, frame, leftIndex, leftKey);
        leftFrame, iterIndex := frame, leftIndex;
      }
    }

    /** Puts the right cursor on the last entry at or below the right bound. */
    method SeekRight(right: Option<UserKey>, inclusive: bool) returns (exhausted: bool)
      requires tree.Stable() && tree.rootPageId != INVALID_PAGE && rightFrame == INVALID_PAGE && endIndex == -1
      modifies `rightFrame, `endIndex, tree`probePins
      ensures LeafAt(tree.pages, rightFrame) && tree.probePins == old(tree.probePins) + tree.Hit(rightFrame)
      ensures exhausted ==> endIndex == -1 && forall e :: e in Entries(tree.pages) ==> !ToRight(e.key, right, inclusive)
      ensures !exhausted ==> LastUpTo(tree.pages, rightFrame, endIndex, right, inclusive)
    {
      hide Entries;
      hide SizesOk;
      hide RightKey;
      exhausted := false;
      ghost var P, S, root := tree.pages, tree.shapes, tree.rootPageId;
      if right.None? {
        var _, frame := tree.FindLeafInternal(Last);
        rightFrame, endIndex := frame, |tree.pages[frame].entries| - 1;
        LastUpToAll(P, S, root, frame, inclusive, tree.leafMax, tree.internalMax);
        return;
      }
      var rightKey := RightKey(right.value, inclusive);
      var _, frame := tree.FindLeafInternal(OfKey(rightKey));
      assert NodeOk(P[frame], S[frame]);
      var rightIndex, _ := tree.LeafLookUp(frame, rightKey);
      Filled(P, S, root, tree.leafMax, tree.internalMax);
      if rightIndex > 0 {
        LastInLeaf(P, S, root, frame, rightIndex - 1, rightKey);
        rightFrame, endIndex := frame, rightIndex - 1;
      } else {
        LastInPrev(P, S, root, frame, rightKey);
        var prev := tree.pages[frame].prev;
        if prev == INVALID_PAGE {
          rightFrame := frame;
          return true;
        }
        tree.UnpinPage(frame);
        tree.GetPage(prev);
        rightFrame, endIndex := prev, |tree.pages[prev].entries| - 1;
      }
    }

    /** Starts a scan of the pairs whose attribute value lies between the bounds. */
    method Open(left: Option<UserKey>, leftInclusive: bool, right: Option<UserKey>, rightInclusive: bool) returns (re: Re)
      requires Valid() && RidsOk(Entries(tree.pages))
      modifies this, tree`probePins
      ensures Valid() && tree.probePins - Pins() == old(tree.probePins - Pins())
      ensures re == if old(inited) then InternalError
                    else if Refused(left, leftInclusive, right, rightInclusive) then InvalidArgument
                    else if tree.rootPageId == INVALID_PAGE then Empty
                    else Success
      ensures re == InternalError ==> Rest() == old(Rest())
      ensures re != InternalError ==> Rest() == if re == Success then InRange(tree.pages, left, leftInclusive, right, rightInclusive) else {}
    {
      if inited {
        return InternalError;
      }
      inited := true;
      if left.Some? && right.Some? {
        if left.value.attr > right.value.attr || (left.value.attr == right.value.attr && (!leftInclusive || !rightInclusive)) {
          return InvalidArgument;
        }
      }
      var exhausted;
      re, exhausted := SeekLeft(left, leftInclusive);
      if re != Success {
        return;
      }
      RangeKeys(tree.pages, left, leftInclusive, right, rightInclusive);
      if exhausted {
        return;
      }
      SeekRightAndCompare(right, rightInclusive, left, leftInclusive);
    }

    /** Places the right cursor and empties the scan when it fell before the left one. */
    method SeekRightAndCompare(right: Option<UserKey>, rightInclusive: bool, ghost left: Option<UserKey>, ghost leftInclusive: bool)
      requires tree.Stable() && tree.rootPageId != INVALID_PAGE && RidsOk(Entries(tree.pages))
      requires rightFrame == INVALID_PAGE && endIndex == -1 && !Refused(left, leftInclusive, right, rightInclusive)
      requires FirstFrom(tree.pages, leftFrame, iterIndex, left, leftInclusive)
      modifies `rightFrame, `endIndex, tree`probePins
      ensures LeafAt(tree.pages, rightFrame) && tree.probePins == old(tree.probePins) + tree.Hit(rightFrame)
      ensures endIndex != -1 ==> CursorsOk()
      ensures (set e | e in Entries(tree.pages) && FromLeft(e.key, left, leftInclusive) && ToRight(e.key, right, rightInclusive))
              == if endIndex == -1 then {} else Span(tree.pages, LeftKeyNow(), RightKeyNow())
    {
      var exhausted := SeekRight(right, rightInclusive);
      if exhausted {
        return;
      }
      Filled(tree.pages, tree.shapes, tree.rootPageId, tree.leafMax, tree.internalMax);
      CursorsSpan(tree.pages, tree.shapes, tree.rootPageId, leftFrame, iterIndex, rightFrame, endIndex,
                  left, leftInclusive, right, rightInclusive);
      if leftFrame == rightFrame && iterIndex > endIndex {
        endIndex := -1;
      } else if tree.pages[leftFrame].prev == rightFrame {
        endIndex := -1;
      }
    }

    method Close()
      requires Valid()
      modifies this, tree`probePins
      ensures !inited && endIndex == -1 && leftFrame == INVALID_PAGE && rightFrame == INVALID_PAGE
      ensures Valid() && Pins() == 0 && tree.probePins == old(tree.probePins - Pins())
    {
      if leftFrame != INVALID_PAGE {
        tree.UnpinPage(leftFrame);
        leftFrame := INVALID_PAGE;
      }
      if rightFrame != INVALID_PAGE {
        tree.UnpinPage(rightFrame);
        rightFrame := INVALID_PAGE;
      }
      endIndex, inited := -1, false;
    }
  }

  /** The entries whose attribute value lies between the bounds. */
  ghost function InRange(P: Heap, l: Option<UserKey>, li: bool, r: Option<UserKey>, ri: bool): set<Entry> {
    set e | e in Entries(P) && AboveLeft(KeyAttr(e.key), l, li) && BelowRight(KeyAttr(e.key), r, ri)
  }

  lemma RangeKeys(P: Heap, l: Option<UserKey>, li: bool, r: Option<UserKey>, ri: bool)
    requires RidsOk(Entries(P))
    ensures InRange(P, l, li, r, ri) == set e | e in Entries(P) && FromLeft(e.key, l, li) && ToRight(e.key, r, ri)
  {
    forall e | e in Entries(P)
      ensures AboveLeft(KeyAttr(e.key), l, li) <==> FromLeft(e.key, l, li)
      ensures BelowRight(KeyAttr(e.key), r, ri) <==> ToRight(e.key, r, ri)
    {
      KeyOfParts(e.key);
      if l.Some? { LeftKeyMeans(e.key, l.value, li); KeyParts(l.value.attr, MAX_RID); }
      if r.Some? { RightKeyMeans(e.key, r.value, ri); KeyParts(r.value.attr, MAX_RID); }
    }
  }

  /** Every entry is at or above the left bound or at or below the right one. */
  lemma NoGap(P: Heap, l: Option<UserKey>, li: bool, r: Option<UserKey>, ri: bool, e: Entry)
    requires RidsOk(Entries(P)) && e in Entries(P) && !Refused(l, li, r, ri)
    ensures FromLeft(e.key, l, li) || ToRight(e.key, r, ri)
  {
    if l.Some? && r.Some? {
      AcceptedOrder(l.value, li, r.value, ri);
    }
  }

  /** Where the two seeks leave the cursors: around exactly the range, or crossed on neighbouring slots. */
  lemma CursorsSpan(P: Heap, S: Shapes, root: PageId, p: PageId, i: nat, q: PageId, j: nat,
                    l: Option<UserKey>, li: bool, r: Option<UserKey>, ri: bool)
    requires TreeOk(P, S, root, Settled) && AllFilled(P) && RidsOk(Entries(P)) && !Refused(l, li, r, ri)
    requires FirstFrom(P, p, i, l, li) && LastUpTo(P, q, j, r, ri)
    ensures var k, m := P[p].entries[i].key, P[q].entries[j].key;
      && (set e | e in Entries(P) && FromLeft(e.key, l, li) && ToRight(e.key, r, ri)) == Span(P, k, m)
      && (k <= m <==> !(p == q && i > j) && P[p].prev != q)
  {
    var k, m := P[p].entries[i].key, P[q].entries[j].key;
    EntryIn(P, p, P[p].entries[i]);
    EntryIn(P, q, P[q].entries[j]);
    assert NodeOk(P[p], S[p]) && NodeOk(P[q], S[q]) && PrevOk(P, S, p);
    if k > m {
      forall e | e in Entries(P) ensures !(m < e.key < k) { NoGap(P, l, li, r, ri, e); }
      if p != q { AdjacentLeaves(P, S, root, p, i, q, j); }
    }
  }

  /** The keys a scan with these bounds starts from and runs to. */
  ghost predicate FromLeft(k: int, l: Option<UserKey>, inclusive: bool) {
    l.Some? ==> LeftKey(l.value, inclusive) <= k
  }

  ghost predicate ToRight(k: int, r: Option<UserKey>, inclusive: bool) {
    r.Some? ==> k < RightKey(r.value, inclusive)
  }

  ghost predicate FirstFrom(P: Heap, p: PageId, i: int, l: Option<UserKey>, inclusive: bool) {
    && LeafAt(P, p) && 0 <= i < |P[p].entries| && FromLeft(P[p].entries[i].key, l, inclusive)
    && forall e :: e in Entries(P) && FromLeft(e.key, l, inclusive) ==> P[p].entries[i].key <= e.key
  }

  ghost predicate LastUpTo(P: Heap, p: PageId, i: int, r: Option<UserKey>, inclusive: bool) {
    && LeafAt(P, p) && 0 <= i < |P[p].entries| && ToRight(P[p].entries[i].key, r, inclusive)
    && forall e :: e in Entries(P) && ToRight(e.key, r, inclusive) ==> e.key <= P[p].entries[i].key
  }

  lemma FirstFromAll(P: Heap, S: Shapes, root: PageId, p: PageId, inclusive: bool, lm: int, im: int)
    requires Good(P, S, root, Settled, INVALID_PAGE, lm, im) && LeafAt(P, p) && S[p].lo.Open?
    ensures FirstFrom(P, p, 0, None, inclusive)
  {
    LeafNotEmpty(P, S, root, p, lm, im);
    forall e | e in Entries(P) ensures P[p].entries[0].key <= e.key { FirstOfAll(P, S, root, p, e); }
  }

  lemma LastUpToAll(P: Heap, S: Shapes, root: PageId, p: PageId, inclusive: bool, lm: int, im: int)
    requires Good(P, S, root, Settled, INVALID_PAGE, lm, im) && LeafAt(P, p) && S[p].hi.Open?
    ensures LastUpTo(P, p, |P[p].entries| - 1, None, inclusive)
  {
    LeafNotEmpty(P, S, root, p, lm, im);
    forall e | e in Entries(P) ensures e.key <= P[p].entries[|P[p].entries| - 1].key { LastOfAll(P, S, root, p, e); }
  }

  ghost function Span(P: Heap, first: int, last: int): set<Entry> {
    set e | e in Entries(P) && first <= e.key <= last
  }

  lemma SpanHead(P: Heap, S: Shapes, root: PageId, p: PageId, i: nat, last: int)
    requires TreeOk(P, S, root, Settled) && LeafAt(P, p) && i < |P[p].entries| && P[p].entries[i].key <= last
    ensures P[p].entries[i] in Span(P, P[p].entries[i].key, last)
  {
    EntryIn(P, p, P[p].entries[i]);
  }

  lemma SpanOne(P: Heap, S: Shapes, root: PageId, e: Entry)
    requires TreeOk(P, S, root, Settled) && e in Entries(P)
    ensures Span(P, e.key, e.key) == {e}
  {
    forall x | x in Span(P, e.key, e.key) ensures x == e { KeyUnique(P, S, root, x, e); }
  }

  /** The cursor after slot `i` of leaf `p`. */
  ghost function StepPage(P: Heap, p: PageId, i: nat): PageId
    requires LeafAt(P, p) && i < |P[p].entries|
  {
    if i < |P[p].entries| - 1 then p else P[p].next
  }

  ghost function StepSlot(P: Heap, p: PageId, i: nat): nat
    requires LeafAt(P, p) && i < |P[p].entries|
  {
    if i < |P[p].entries| - 1 then i + 1 else 0
  }

  ghost predicate AllFilled(P: Heap) {
    forall x :: LeafAt(P, x) ==> |P[x].entries| > 0
  }

  lemma Filled(P: Heap, S: Shapes, root: PageId, lm: int, im: int)
    requires Good(P, S, root, Settled, INVALID_PAGE, lm, im)
    ensures AllFilled(P)
  {
    forall x | LeafAt(P, x) ensures |P[x].entries| > 0 { LeafNotEmpty(P, S, root, x, lm, im); }
  }

  lemma StepFinds(P: Heap, S: Shapes, root: PageId, p: PageId, i: nat, q: PageId, j: nat)
    requires TreeOk(P, S, root, Settled) && AllFilled(P) && LeafAt(P, p) && LeafAt(P, q)
    requires i < |P[p].entries| && j < |P[q].entries| && P[p].entries[i].key < P[q].entries[j].key
    ensures LeafAt(P, StepPage(P, p, i)) && StepSlot(P, p, i) < |P[StepPage(P, p, i)].entries|
    ensures var k := P[StepPage(P, p, i)].entries[StepSlot(P, p, i)].key;
      P[p].entries[i].key < k && forall x :: x in Entries(P) && P[p].entries[i].key < x.key ==> k <= x.key
  {
    assert NodeOk(P[p], S[p]);
    EntryIn(P, q, P[q].entries[j]);
    if i < |P[p].entries| - 1 {
      forall x | x in Entries(P) && P[p].entries[i].key < x.key ensures P[p].entries[i + 1].key <= x.key {
        SlotGap(P, S, root, p, i, x);
      }
    } else {
      forall x | x in Entries(P) && P[p].entries[i].key < x.key
        ensures LeafAt(P, P[p].next) && P[p].entries[i].key < P[P[p].next].entries[0].key <= x.key
      {
        if x in P[p].entries { var y :| 0 <= y < |P[p].entries| && P[p].entries[y] == x; }
        BeyondLeaf(P, S, root, p, x);
        assert NodeOk(P[P[p].next], S[P[p].next]);
      }
    }
  }

  lemma StepOk(P: Heap, S: Shapes, root: PageId, p: PageId, i: nat, q: PageId, j: nat)
    requires TreeOk(P, S, root, Settled) && AllFilled(P) && LeafAt(P, p) && LeafAt(P, q)
    requires i < |P[p].entries| && j < |P[q].entries| && P[p].entries[i].key <= P[q].entries[j].key
    requires !(p == q && i == j)
    ensures LeafAt(P, StepPage(P, p, i)) && StepSlot(P, p, i) < |P[StepPage(P, p, i)].entries|
    ensures var k := P[StepPage(P, p, i)].entries[StepSlot(P, p, i)].key;
      k <= P[q].entries[j].key
      && Span(P, k, P[q].entries[j].key) == Span(P, P[p].entries[i].key, P[q].entries[j].key) - {P[p].entries[i]}
  {
    var e, f := P[p].entries[i], P[q].entries[j];
    EntryIn(P, p, e);
    EntryIn(P, q, f);
    assert NodeOk(P[p], S[p]) && NodeOk(P[q], S[q]);
    if e.key == f.key {
      KeyUnique(P, S, root, e, f);
      EntryLeaf(P, S, root, p, q, f);
    }
    StepFinds(P, S, root, p, i, q, j);
    forall x | x in Span(P, e.key, f.key) && x.key == e.key ensures x == e { KeyUnique(P, S, root, x, e); }
  }

  /** The pairs whose attribute value lies between the bounds. */
  ghost function RangeOf(pairs: set<(int, RecordId)>, l: Option<UserKey>, li: bool, r: Option<UserKey>, ri: bool): set<(int, RecordId)> {
    set p | p in pairs && AboveLeft(p.0, l, li) && BelowRight(p.0, r, ri)
  }

  predicate PairLess(p: (int, RecordId), q: (int, RecordId)) {
    p.0 < q.0 || (p.0 == q.0 && RidLess(p.1, q.1))
  }

  /** `listed` is everything in `pairs`, each pair once and in order; `rids` are its record ids. */
  ghost predicate Listed(pairs: set<(int, RecordId)>, listed: seq<(int, RecordId)>, rids: seq<RecordId>) {
    && (forall p :: p in listed <==> p in pairs)
    && (forall i, j :: 0 <= i < j < |listed| ==> PairLess(listed[i], listed[j]))
    && |rids| == |listed| && (forall i :: 0 <= i < |rids| ==> rids[i] == listed[i].1)
  }

  /** Reads a scan to its end. */
  method Drain(scanner: BplusTreeScanner) returns (rids: seq<RecordId>, ghost found: seq<Entry>)
    requires scanner.Valid()
    modifies scanner, scanner.tree`probePins
    ensures scanner.Valid() && scanner.tree.probePins - scanner.Pins() == old(scanner.tree.probePins - scanner.Pins())
    ensures Collected(old(scanner.Rest()), {}, found, rids)
  {
    hide BplusTreeHandler.Mid;
    rids, found := [], [];
    ghost var range := scanner.Rest();
    while true
      invariant scanner.Valid() && scanner.tree.probePins - scanner.Pins() == old(scanner.tree.probePins - scanner.Pins())
      invariant Collected(range, scanner.Rest(), found, rids)
      decreases scanner.Rest()
    {
      ghost var rest := scanner.Rest();
      var re, rid, e := scanner.NextEntry();
      if re != Success {
        return;
      }
      NextIsLeast(scanner.tree, rest, e);
      CollectOne(range, rest, found, rids, e);
      rids, found := rids + [rid], found + [e];
    }
  }

  /** A whole scan: opened, read to its end and closed. */
  method Scan(tree: BplusTreeHandler, left: Option<UserKey>, leftInclusive: bool, right: Option<UserKey>, rightInclusive: bool)
    returns (re: Re, rids: seq<RecordId>, ghost listed: seq<(int, RecordId)>)
    requires tree.Valid()
    modifies tree`probePins
    ensures tree.Valid()
    ensures re == if Refused(left, leftInclusive, right, rightInclusive) then InvalidArgument
                  else if tree.rootPageId == INVALID_PAGE then Empty else Success
    ensures re != Success ==> rids == [] && listed == []
    ensures re == Success ==> Listed(RangeOf(tree.Contents(), left, leftInclusive, right, rightInclusive), listed, rids)
  {
    hide Collected;
    hide InRange;
    rids, listed := [], [];
    var scanner := new BplusTreeScanner(tree);
    re := scanner.Open(left, leftInclusive, right, rightInclusive);
    if re == Success {
      ghost var range, found := scanner.Rest(), [];
      rids, found := Drain(scanner);
      listed := PairsOf(found);
      RangeListed(tree.pages, left, leftInclusive, right, rightInclusive, range, found, rids);
    }
    scanner.Close();
  }

  /** All record ids stored under one attribute value, in order. */
  method GetEntry(tree: BplusTreeHandler, key: UserKey) returns (re: Re, rids: seq<RecordId>)
    requires tree.Valid()
    modifies tree`probePins
    ensures tree.Valid()
    ensures re == if tree.rootPageId == INVALID_PAGE then Empty else Success
    ensures forall i, j :: 0 <= i < j < |rids| ==> RidLess(rids[i], rids[j])
    ensures forall r :: r in rids <==> !key.over && (key.attr, r) in tree.Contents()
  {
    hide BplusTreeHandler.Valid;
    hide BplusTreeHandler.Contents;
    ghost var listed;
    re, rids, listed := Scan(tree, Some(key), true, Some(key), true);
    if re == Success {
      OneValueListed(tree.Contents(), key, listed, rids);
    } else {
      EmptyTree(tree);
    }
  }

  lemma EmptyTree(tree: BplusTreeHandler)
    requires tree.Valid() && tree.rootPageId == INVALID_PAGE
    ensures tree.Contents() == {}
  {
    assert Entries(tree.pages) == {};
  }

  /** `found` is the ascending list of everything in `range` that is no longer in `rest`. */
  ghost predicate Collected(range: set<Entry>, rest: set<Entry>, found: seq<Entry>, rids: seq<RecordId>) {
    && rest <= range
    && (forall e :: e in found <==> e in range - rest)
    && (forall i, j :: 0 <= i < j < |found| ==> found[i].key < found[j].key)
    && (forall i, e :: 0 <= i < |found| && e in rest ==> found[i].key < e.key)
    && |rids| == |found| && (forall i :: 0 <= i < |found| ==> rids[i] == found[i].rid)
  }

  lemma LeastOnly(P: Heap, S: Shapes, root: PageId, rest: set<Entry>, e: Entry)
    requires TreeOk(P, S, root, Settled) && rest <= Entries(P) && e in rest
    requires forall x :: x in rest ==> e.key <= x.key
    ensures forall x :: x in rest && x != e ==> e.key < x.key
  {
    forall x | x in rest && x != e ensures e.key < x.key {
      if x.key == e.key { KeyUnique(P, S, root, x, e); }
    }
  }

  lemma NextIsLeast(tree: BplusTreeHandler, rest: set<Entry>, e: Entry)
    requires tree.Stable() && rest <= Entries(tree.pages) && e in rest
    requires forall x :: x in rest ==> e.key <= x.key
    ensures forall x :: x in rest && x != e ==> e.key < x.key
  {
    var p := EntryAt(tree.pages, e);
    LeastOnly(tree.pages, tree.shapes, tree.rootPageId, rest, e);
  }

  lemma CollectOne(range: set<Entry>, rest: set<Entry>, found: seq<Entry>, rids: seq<RecordId>, e: Entry)
    requires Collected(range, rest, found, rids) && e in rest
    requires forall x :: x in rest && x != e ==> e.key < x.key
    ensures Collected(range, rest - {e}, found + [e], rids + [e.rid])
  {
  }

  ghost function PairsOf(found: seq<Entry>): seq<(int, RecordId)> {
    seq(|found|, i requires 0 <= i < |found| => (KeyAttr(found[i].key), found[i].rid))
  }

  lemma RangeListed(P: Heap, l: Option<UserKey>, li: bool, r: Option<UserKey>, ri: bool,
                    range: set<Entry>, found: seq<Entry>, rids: seq<RecordId>)
    requires RidsOk(Entries(P)) && range == InRange(P, l, li, r, ri)
    requires Collected(range, {}, found, rids)
    ensures Listed(RangeOf(Pairs(Entries(P)), l, li, r, ri), PairsOf(found), rids)
  {
    var listed := PairsOf(found);
    forall i, j | 0 <= i < j < |listed| ensures PairLess(listed[i], listed[j]) {
      var e, f := found[i], found[j];
      assert e in found && f in found;
      KeyOfParts(e.key);
      KeyOfParts(f.key);
      KeyOrder(KeyAttr(e.key), e.rid, KeyAttr(f.key), f.rid);
    }
    forall p ensures p in listed <==> p in RangeOf(Pairs(Entries(P)), l, li, r, ri) {
      if p in listed {
        var i :| 0 <= i < |listed| && listed[i] == p;
        assert found[i] in found;
      }
      if p in RangeOf(Pairs(Entries(P)), l, li, r, ri) {
        var e :| e in Entries(P) && (KeyAttr(e.key), e.rid) == p;
        assert e in range && e in found;
        var i :| 0 <= i < |found| && found[i] == e;
        assert listed[i] == p;
      }
    }
  }

  lemma OneValueListed(pairs: set<(int, RecordId)>, key: UserKey, listed: seq<(int, RecordId)>, rids: seq<RecordId>)
    requires Listed(RangeOf(pairs, Some(key), true, Some(key), true), listed, rids)
    ensures forall i, j :: 0 <= i < j < |rids| ==> RidLess(rids[i], rids[j])
    ensures forall r :: r in rids <==> !key.over && (key.attr, r) in pairs
  {
    forall i | 0 <= i < |rids| ensures !key.over && listed[i] == (key.attr, rids[i]) && listed[i] in pairs {
      assert listed[i] in listed;
    }
    forall r | r in rids ensures !key.over && (key.attr, r) in pairs {
      var i :| 0 <= i < |rids| && rids[i] == r;
      assert listed[i] in pairs;
    }
    forall r | !key.over && (key.attr, r) in pairs ensures r in rids {
      assert (key.attr, r) in listed;
      var i :| 0 <= i < |listed| && listed[i] == (key.attr, r);
      assert rids[i] == r;
    }
  }
}
