/** The index handler: descent, insertion with splits, deletion with merging. */
module BplusTree {
  import opened ReturnCodes
  import opened Keys
  import opened TreePages
  import opened TreeSteps
  import opened TreeEntries
  import opened TreeDelete
  import opened LowerBound

  const HEADER_PAGE: PageId := 1

  /** The key of slot 0 in a root created by a split: all bytes zero. */
  const ZERO_KEY := 0

  /** How a descent picks a child. */
  datatype ChildGetter = OfKey(key: int) | First | Last

  ghost predicate Leads(g: ChildGetter, s: Shape) {
    match g
    case OfKey(k) => Within(k, s)
    case First => s.lo.Open?
    case Last => s.hi.Open?
  }

  function EntryKeys(es: seq<Entry>): (ks: seq<int>)
    ensures |ks| == |es| && forall i :: 0 <= i < |es| ==> ks[i] == es[i].key
  {
    seq(|es|, i requires 0 <= i < |es| => es[i].key)
  }

  /** The keys of the slots but slot 0. */
  function Separators(cs: seq<Child>): (ks: seq<int>)
    requires cs != []
    ensures |ks| == |cs| - 1 && forall i :: 0 <= i < |ks| ==> ks[i] == cs[i + 1].key
  {
    seq(|cs| - 1, i requires 0 <= i < |cs| - 1 => cs[i + 1].key)
  }

  /** The index over its pages. Some of the writes below leave a page without a dirty mark
      (b_plus_tree.cpp:1186-1188, 1005-1054, 1251-1253), so the pages here are never evicted. */
  class BplusTreeHandler {
    const leafMax: int
    const internalMax: int
    var pages: Heap
    var rootPageId: PageId
    var headerRootPageId: PageId
    var pagesNum: int
    var inUse: set<PageId>
    var disposed: set<PageId>
    var held: set<PageId>
    ghost const probe: PageId
    ghost var probePins: nat
    ghost var shapes: Shapes

    /** The pages in use are accounted for, and only a page that someone else holds waits to be freed. */
    ghost predicate SpaceOk()
      reads this
    {
      Space(pages.Keys, inUse, disposed, pagesNum) && disposed <= held
    }

    /** Everything but the occupancy of page `under` and the place of a pending split. */
    ghost predicate Mid(pend: Pending, under: PageId)
      reads this
    {
      && SpaceOk()
      && headerRootPageId == rootPageId
      && Good(pages, shapes, rootPageId, pend, under, leafMax, internalMax)
    }

    ghost predicate Stable()
      reads this
    {
      if rootPageId == INVALID_PAGE then
        && leafMax >= 4 && internalMax >= 6
        && SpaceOk()
        && headerRootPageId == INVALID_PAGE
        && pages == map[] && shapes == map[]
      else
        Mid(Settled, INVALID_PAGE)
    }

    /** Between calls: no page is left pinned and every stored record id matches its key. */
    ghost predicate Valid()
      reads this
    {
      Stable() && probePins == 0 && RidsOk(Entries(pages))
    }

    ghost function Contents(): set<(int, RecordId)>
      reads `pages
    {
      Pairs(Entries(pages))
    }

    constructor Create(leafMax: int, internalMax: int, held: set<PageId>, ghost probe: PageId)
      requires leafMax >= 4 && internalMax >= 6
      ensures Valid() && Contents() == {}
      ensures this.leafMax == leafMax && this.internalMax == internalMax && this.held == held && this.probe == probe
    {
      this.leafMax, this.internalMax := leafMax, internalMax;
      pages, shapes := map[], map[];
      rootPageId, headerRootPageId := INVALID_PAGE, INVALID_PAGE;
      pagesNum, inUse, disposed := 2, {0, HEADER_PAGE}, {};
      this.held, this.probe := held, probe;
      probePins := 0;
    }

    // Page access

    ghost function Hit(p: PageId): nat {
      if p == probe then 1 else 0
    }

    ghost predicate Pinned(p: PageId)
      reads `probePins
    {
      p == probe ==> probePins > 0
    }

    method GetPage(p: PageId)
      modifies `probePins
      ensures probePins == old(probePins) + Hit(p)
    {
      probePins := probePins + Hit(p);
    }

    method UnpinPage(p: PageId)
      requires Pinned(p) && p !in disposed
      modifies `probePins
      ensures probePins == old(probePins) - Hit(p)
    {
      probePins := probePins - Hit(p);
    }

    method AllocatePage() returns (p: PageId)
      requires pagesNum >= 0 && forall q :: q in inUse ==> 0 <= q < pagesNum
      modifies `inUse, `pagesNum, `probePins
      ensures p !in old(inUse) && 0 <= p < pagesNum && pagesNum >= old(pagesNum)
      ensures forall q :: 0 <= q < p ==> q in old(inUse)
      ensures inUse == old(inUse) + {p}
      ensures probePins == old(probePins) + Hit(p)
    {
      p := 0;
      while p < pagesNum && p in inUse
        invariant 0 <= p <= pagesNum && forall q :: 0 <= q < p ==> q in inUse
      {
        p := p + 1;
      }
      if p == pagesNum {
        pagesNum := pagesNum + 1;
      }
      inUse := inUse + {p};
      GetPage(p);
    }

    method DisposePage(p: PageId)
      requires p == probe ==> probePins == 0
      modifies `inUse, `disposed
      ensures if p in held then inUse == old(inUse) && disposed == old(disposed) + {p}
              else inUse == old(inUse) - {p} && disposed == old(disposed)
    {
      if p in held {
        disposed := disposed + {p};
      } else {
        inUse := inUse - {p};
      }
    }

    /** Whoever held a page gives back the last pin on it; a page that waited for this is freed. */
    method ReleasePage(p: PageId)
      requires Valid() && p in held
      modifies `held, `inUse, `disposed
      ensures Valid() && held == old(held) - {p} && disposed == old(disposed) - {p}
      ensures inUse == if p in old(disposed) then old(inUse) - {p} else old(inUse)
    {
      held := held - {p};
      if p in disposed {
        disposed, inUse := disposed - {p}, inUse - {p};
      }
    }

    /** Someone else pins a page of the file. */
    method HoldPage(p: PageId)
      requires Valid() && p in inUse
      modifies `held
      ensures Valid() && held == old(held) + {p}
    {
      held := held + {p};
    }

    // Node handlers

    method LeafLookUp(p: PageId, key: int) returns (index: nat, found: bool)
      requires LeafAt(pages, p) && Pinned(p)
      requires SortedEntries(pages[p].entries)
      ensures var es := pages[p].entries;
        && index <= |es|
        && (forall i :: 0 <= i < index ==> es[i].key < key)
        && (forall i :: index <= i < |es| ==> key <= es[i].key)
        && (found <==> exists i :: 0 <= i < |es| && es[i].key == key)
        && (found ==> index < |es| && es[index].key == key)
    {
      var es := pages[p].entries;
      index, found := FindLowerBound(EntryKeys(es), key);
      if found {
        assert es[index].key == key;
      }
    }

    method LeafInsert(p: PageId, index: nat, key: int, rid: RecordId)
      requires LeafAt(pages, p) && Pinned(p) && index <= |pages[p].entries|
      modifies `pages
      ensures pages == old(pages)[p := old(pages[p]).(entries := Insert(old(pages[p].entries), index, Entry(key, rid)))]
    {
      pages := pages[p := pages[p].(entries := Insert(pages[p].entries, index, Entry(key, rid)))];
    }

    method LeafRemove(p: PageId, key: int) returns (removed: nat, ghost index: nat)
      requires LeafAt(pages, p) && Pinned(p)
      requires SortedEntries(pages[p].entries)
      modifies `pages
      ensures removed == 0 || removed == 1
      ensures removed == 0 ==> pages == old(pages) && forall i :: 0 <= i < |pages[p].entries| ==> pages[p].entries[i].key != key
      ensures removed == 1 ==>
        && index < |old(pages[p].entries)| && old(pages[p].entries)[index].key == key
        && pages == old(pages)[p := old(pages[p]).(entries := Remove(old(pages[p].entries), index))]
    {
      var i, found := LeafLookUp(p, key);
      index := i;
      if !found {
        return 0, index;
      }
      pages := pages[p := pages[p].(entries := Remove(pages[p].entries, i))];
      removed := 1;
    }

    method InternalLookUp(p: PageId, key: int) returns (ret: nat, insertPosition: nat)
      requires InternalAt(pages, p) && Pinned(p)
      requires SortedChildren(pages[p].children)
      ensures pages[p].children == [] ==> ret == 0 && insertPosition == 1
      ensures pages[p].children != [] ==>
        var cs := pages[p].children;
        && 1 <= insertPosition <= |cs|
        && (forall i :: 1 <= i < insertPosition ==> cs[i].key < key)
        && (forall i :: insertPosition <= i < |cs| ==> key <= cs[i].key)
        && ret < |cs|
        && (0 < ret ==> cs[ret].key <= key)
        && (ret + 1 < |cs| ==> key < cs[ret + 1].key)
    {
      var cs := pages[p].children;
      if |cs| == 0 {
        return 0, 1;
      }
      var ks := Separators(cs);
      var iter, found := FindLowerBound(ks, key);
      assert forall i :: 1 <= i < iter + 1 ==> cs[i].key == ks[i - 1];
      assert forall i :: iter + 1 <= i < |cs| ==> cs[i].key == ks[i - 1];
      insertPosition := iter + 1;
      if insertPosition >= |cs| || key < cs[insertPosition].key {
        ret := insertPosition - 1;
      } else {
        ret := insertPosition;
      }
    }

    // Descent

    method FindLeafInternal(getter: ChildGetter) returns (re: Re, frame: PageId)
      requires Stable()
      modifies `probePins
      ensures re == if rootPageId == INVALID_PAGE then Empty else Success
      ensures re == Empty ==> probePins == old(probePins)
      ensures re == Success ==> LeafAt(pages, frame) && Leads(getter, shapes[frame]) && probePins == old(probePins) + Hit(frame)
    {
      if rootPageId == INVALID_PAGE {
        return Empty, INVALID_PAGE;
      }
      frame := rootPageId;
      GetPage(frame);
      assert ParentOk(pages, shapes, rootPageId, Settled, rootPageId);
      while pages[frame].Internal?
        invariant frame in pages && Leads(getter, shapes[frame])
        invariant probePins == old(probePins) + Hit(frame)
        decreases if frame in shapes then shapes[frame].level else 0
      {
        assert NodeOk(pages[frame], shapes[frame]);
        var slot := 0;
        match getter {
          case OfKey(k) =>
            var s, _ := InternalLookUp(frame, k);
            slot := s;
          case First =>
          case Last =>
            slot := |pages[frame].children| - 1;
        }
        assert ChildOk(pages, shapes, Settled, frame, slot);
        var child := pages[frame].children[slot].page;
        assert NodeOk(pages[child], shapes[child]);
        UnpinPage(frame);
        GetPage(child);
        frame := child;
      }
      re := Success;
    }

    // Insertion

    method CopyFrom(p: PageId, items: seq<Child>)
      requires InternalAt(pages, p) && Pinned(p)
      requires forall i :: 0 <= i < |items| ==> items[i].page in pages && items[i].page !in disposed
      modifies `pages, `probePins
      ensures pages == Reparent(old(pages)[p := old(pages[p]).(children := old(pages[p].children) + items)], items, p)
      ensures probePins == old(probePins)
    {
      pages := pages[p := pages[p].(children := pages[p].children + items)];
      ghost var P := pages;
      assert pages == Reparent(P, items[..0], p);
      for i := 0 to |items|
        invariant pages == Reparent(P, items[..i], p)
        invariant probePins == old(probePins)
      {
        var child := items[i].page;
        ReparentOne(P, items, i, p);
        GetPage(child);
        pages := pages[child := pages[child].(parent := p)];
        UnpinPage(child);
      }
      assert items[..|items|] == items;
    }

    ghost predicate CanAllocate()
      reads this
    {
      && pagesNum >= 0
      && pages.Keys <= inUse
      && (forall q :: q in inUse ==> 0 <= q < pagesNum)
    }

    method SplitInternal(p: PageId) returns (np: PageId)
      requires InternalAt(pages, p) && Pinned(p) && CanAllocate()
      requires !Lists(pages[p].children, p)
      requires forall i :: 0 <= i < |pages[p].children| ==> pages[p].children[i].page in pages && pages[p].children[i].page !in disposed
      modifies `pages, `probePins, `inUse, `pagesNum
      ensures np !in old(inUse) && 0 <= np < pagesNum && old(pagesNum) <= pagesNum
      ensures inUse == old(inUse) + {np}
      ensures pages == SplitInternalHeap(old(pages), p, |old(pages[p].children)| / 2, np)
      ensures probePins == old(probePins) + Hit(np)
    {
      np := AllocatePage();
      pages := pages[np := Internal(pages[p].parent, [])];
      var cs := pages[p].children;
      var moveIndex := |cs| / 2;
      var moved := cs[moveIndex..];
      assert forall i :: 0 <= i < |moved| ==> moved[i] == cs[moveIndex + i];
      CopyFrom(np, moved);
      pages := pages[p := pages[p].(children := cs[..moveIndex])];
      assert [] + moved == moved;
      SuffixNotListed(cs, moveIndex, p);
      SplitByCopy(old(pages), p, moveIndex, np);
    }

    method InternalInsert(p: PageId, key: int, child: PageId, ghost j: nat)
      requires InternalAt(pages, p) && Pinned(p)
      requires SortedChildren(pages[p].children)
      requires j < |pages[p].children|
      requires 0 < j ==> pages[p].children[j].key < key
      requires j + 1 < |pages[p].children| ==> key < pages[p].children[j + 1].key
      modifies `pages
      ensures pages == old(pages)[p := old(pages[p]).(children := Insert(old(pages[p].children), j + 1, Child(key, child)))]
    {
      var _, pos := InternalLookUp(p, key);
      assert pos == j + 1;
      pages := pages[p := pages[p].(children := Insert(pages[p].children, pos, Child(key, child)))];
    }

    method SetParentPageId(q: PageId, p: PageId)
      requires q in pages && Pinned(q)
      modifies `pages
      ensures pages == old(pages)[q := old(pages[q]).(parent := p)]
    {
      pages := pages[q := pages[q].(parent := p)];
    }

    method UpdateRootPageId()
      requires HEADER_PAGE !in disposed
      modifies `headerRootPageId, `probePins
      ensures headerRootPageId == rootPageId
      ensures probePins == old(probePins)
    {
      GetPage(HEADER_PAGE);
      headerRootPageId := rootPageId;
      UnpinPage(HEADER_PAGE);
    }

    method CreateNewRoot(L: PageId, R: PageId, key: int)
      requires L in pages && R in pages && L != R && Pinned(L) && Pinned(R) && CanAllocate()
      requires L !in disposed && R !in disposed && HEADER_PAGE !in disposed && disposed <= inUse
      modifies `pages, `rootPageId, `headerRootPageId, `pagesNum, `inUse, `probePins
      ensures rootPageId !in old(inUse) && 0 <= rootPageId < pagesNum && old(pagesNum) <= pagesNum
      ensures inUse == old(inUse) + {rootPageId}
      ensures headerRootPageId == rootPageId
      ensures pages == GrowHeap(old(pages), L, R, rootPageId, ZERO_KEY, key)
      ensures probePins == old(probePins) - Hit(L) - Hit(R)
    {
      var nr := AllocatePage();
      SetParentPageId(L, nr);
      SetParentPageId(R, nr);
      pages := pages[nr := Internal(INVALID_PAGE, [Child(ZERO_KEY, L), Child(key, R)])];
      UnpinPage(L);
      UnpinPage(R);
      rootPageId := nr;
      UpdateRootPageId();
      UnpinPage(nr);
    }

    method SplitAndInsert(p: PageId, R: PageId, key: int, ghost j: nat, ghost L: PageId) returns (np: PageId)
      requires LinkSlot(pages, shapes, p, j, L, R) && key == shapes[R].lo.key && |pages[p].children| >= 2
      requires Pinned(p) && Pinned(R) && CanAllocate() && disposed !! pages.Keys
      modifies `pages, `probePins, `inUse, `pagesNum
      ensures np !in old(inUse) && 0 <= np < pagesNum && old(pagesNum) <= pagesNum
      ensures inUse == old(inUse) + {np}
      ensures pages == FullLinkHeap(old(pages), p, j, Child(key, R), np)
      ensures probePins == old(probePins) + Hit(np)
    {
      hide Lists;
      ghost var P := pages;
      ghost var m := |P[p].children| / 2;
      np := SplitInternal(p);
      SuffixNotListed(P[p].children, m, p);
      assert pages[np].children == P[p].children[m..];
      assert pages[p].children == P[p].children[..m];
      hide Lists;
      if key > pages[np].children[0].key {
        InternalInsert(np, key, R, j - m);
        SetParentPageId(R, np);
        InsertRightOfSplit(P, p, j, Child(key, R), m, np);
      } else {
        InternalInsert(p, key, R, j);
        SetParentPageId(R, p);
        InsertLeftOfSplit(P, p, j, Child(key, R), m, np);
      }
    }

    method LinkIntoParent(p: PageId, L: PageId, R: PageId, key: int, ghost j: nat)
      requires Mid(Split(L, R), INVALID_PAGE) && key == shapes[R].lo.key
      requires LinkSlot(pages, shapes, p, j, L, R) && |pages[p].children| < internalMax
      requires Pinned(L) && Pinned(R) && Pinned(p)
      modifies `pages, `probePins
      ensures Mid(Settled, INVALID_PAGE)
      ensures Entries(pages) == old(Entries(pages))
      ensures probePins == old(probePins) - Hit(L) - Hit(R) - Hit(p)
    {
      hide TreeOk;
      hide SizesOk;
      ghost var P := pages;
      InternalInsert(p, key, R, j);
      SetParentPageId(R, p);
      UnpinPage(L);
      UnpinPage(R);
      UnpinPage(p);
      LinkGood(P, shapes, rootPageId, p, j, L, R, leafMax, internalMax);
    }

    method SplitParent(p: PageId, L: PageId, R: PageId, key: int, ghost j: nat) returns (np: PageId, ghost k: int)
      requires Mid(Split(L, R), INVALID_PAGE) && key == shapes[R].lo.key
      requires LinkSlot(pages, shapes, p, j, L, R) && |pages[p].children| == internalMax && L != rootPageId
      requires Pinned(R) && Pinned(p)
      modifies `pages, `probePins, `inUse, `pagesNum, `shapes
      ensures Mid(Split(p, np), INVALID_PAGE)
      ensures InternalAt(pages, np) && |pages[np].children| > 0 && pages[np].children[0].key == k
      ensures p in old(shapes) && shapes == SplitShapes(old(shapes), p, np, k)
      ensures Entries(pages) == old(Entries(pages))
      ensures probePins == old(probePins) + Hit(np)
    {
      ghost var P, S := pages, shapes;
      k := P[p].children[internalMax / 2].key;
      SpaceCanAllocate(P.Keys, inUse, disposed, pagesNum);
      np := SplitAndInsert(p, R, key, j, L);
      shapes := SplitShapes(S, p, np, k);
      FullLinkGood(P, S, rootPageId, p, j, L, R, np, k, leafMax, internalMax);
      SpaceAdd(P.Keys, old(inUse), disposed, old(pagesNum), np, pagesNum);
    }

    /** The halves of the root get a new root. */
    method GrowRoot(L: PageId, R: PageId, key: int)
      requires Mid(Split(L, R), INVALID_PAGE) && key == shapes[R].lo.key && L == rootPageId
      requires Pinned(L) && Pinned(R)
      modifies `pages, `rootPageId, `headerRootPageId, `pagesNum, `inUse, `probePins, `shapes
      ensures Mid(Settled, INVALID_PAGE)
      ensures Entries(pages) == old(Entries(pages))
      ensures probePins == old(probePins) - Hit(L) - Hit(R)
    {
      ghost var P, S := pages, shapes;
      SpaceCanAllocate(P.Keys, inUse, disposed, pagesNum);
      CreateNewRoot(L, R, key);
      shapes := GrowShapes(shapes, L, rootPageId);
      GrowGood(P, S, L, R, rootPageId, ZERO_KEY, leafMax, internalMax);
      SpaceAdd(P.Keys, old(inUse), disposed, old(pagesNum), rootPageId, pagesNum);
    }

    method InsertEntryIntoParent(L: PageId, R: PageId, key: int)
      requires Mid(Split(L, R), INVALID_PAGE) && key == shapes[R].lo.key
      requires Pinned(L) && Pinned(R)
      modifies `pages, `rootPageId, `headerRootPageId, `pagesNum, `inUse, `probePins, `shapes
      ensures Mid(Settled, INVALID_PAGE)
      ensures Entries(pages) == old(Entries(pages))
      ensures probePins == old(probePins) - Hit(L) - Hit(R)
      decreases shapes[rootPageId].level - shapes[L].level
    {
      hide Lists;
      var parent := pages[L].parent;
      ghost var P, S := pages, shapes;
      assert ParentOk(P, S, rootPageId, Split(L, R), L);
      if parent == INVALID_PAGE {
        GrowRoot(L, R, key);
        return;
      }
      ghost var j := FindLinkSlot(P, S, rootPageId, L, R);
      GetPage(parent);
      if |pages[parent].children| < internalMax {
        LinkIntoParent(parent, L, R, key, j);
      } else {
        var np, k := SplitParent(parent, L, R, key, j);
        UnpinPage(L);
        UnpinPage(R);
        InsertEntryIntoParent(parent, np, pages[np].children[0].key);
      }
    }

    method SplitLeaf(p: PageId) returns (np: PageId)
      requires LeafAt(pages, p) && Pinned(p) && CanAllocate()
      modifies `pages, `probePins, `inUse, `pagesNum
      ensures np !in old(inUse) && 0 <= np < pagesNum && old(pagesNum) <= pagesNum
      ensures inUse == old(inUse) + {np}
      ensures var n := old(pages[p]); var m := |n.entries| / 2;
        pages == old(pages)[p := n.(entries := n.entries[..m])][np := Leaf(n.parent, INVALID_PAGE, INVALID_PAGE, n.entries[m..])]
      ensures probePins == old(probePins) + Hit(np)
    {
      np := AllocatePage();
      var es := pages[p].entries;
      var moveIndex := |es| / 2;
      pages := pages[np := Leaf(pages[p].parent, INVALID_PAGE, INVALID_PAGE, [])];
      pages := pages[np := pages[np].(entries := pages[np].entries + es[moveIndex..])];
      assert [] + es[moveIndex..] == es[moveIndex..];
      pages := pages[p := pages[p].(entries := es[..moveIndex])];
    }

    method SplitLeafAndInsert(p: PageId, pos: nat, key: int, rid: RecordId) returns (np: PageId)
      requires LeafAt(pages, p) && Pinned(p) && CanAllocate() && disposed !! pages.Keys
      requires pages[p].next != INVALID_PAGE ==> LeafAt(pages, pages[p].next) && pages[p].next != p
      requires pos <= |pages[p].entries|
      modifies `pages, `probePins, `inUse, `pagesNum
      ensures np !in old(inUse) && 0 <= np < pagesNum && old(pagesNum) <= pagesNum
      ensures inUse == old(inUse) + {np}
      ensures var es, e := old(pages[p].entries), Entry(key, rid);
        pages == SplitLeafHeap(old(pages), p, np, LeftHalf(es, pos, e), RightHalf(es, pos, e))
      ensures probePins == old(probePins) + Hit(np)
    {
      np := SplitLeaf(p);
      var next := pages[p].next;
      pages := pages[np := pages[np].(prev := p, next := next)];
      pages := pages[p := pages[p].(next := np)];
      if next != INVALID_PAGE {
        GetPage(next);
        pages := pages[next := pages[next].(prev := np)];
        UnpinPage(next);
      }
      if pos < |pages[p].entries| {
        LeafInsert(p, pos, key, rid);
      } else {
        LeafInsert(np, pos - |pages[p].entries|, key, rid);
      }
    }

    method SplitFullLeaf(p: PageId, pos: nat, key: int, rid: RecordId) returns (np: PageId)
      requires Mid(Settled, INVALID_PAGE) && LeafAt(pages, p) && Within(key, shapes[p]) && Pinned(p)
      requires |pages[p].entries| == leafMax && InsertPoint(pages[p].entries, pos, key)
      modifies `pages, `pagesNum, `inUse, `probePins, `shapes
      ensures Mid(Split(p, np), INVALID_PAGE)
      ensures LeafAt(pages, np) && |pages[np].entries| > 0 && pages[np].entries[0].key == shapes[np].lo.key
      ensures Entries(pages) == old(Entries(pages)) + {Entry(key, rid)}
      ensures probePins == old(probePins) + Hit(np)
    {
      ghost var P, S, e := pages, shapes, Entry(key, rid);
      LeafNextOk(P, S, rootPageId, p);
      SpaceCanAllocate(P.Keys, inUse, disposed, pagesNum);
      np := SplitLeafAndInsert(p, pos, key, rid);
      LeafSplitGood(P, S, rootPageId, p, np, pos, e, leafMax, internalMax);
      shapes := SplitShapes(S, p, np, RightHalf(P[p].entries, pos, e)[0].key);
      SpaceAdd(P.Keys, old(inUse), disposed, old(pagesNum), np, pagesNum);
    }

    method InsertEntryIntoLeafNode(p: PageId, key: int, rid: RecordId) returns (re: Re)
      requires Mid(Settled, INVALID_PAGE) && LeafAt(pages, p) && Within(key, shapes[p]) && Pinned(p)
      modifies `pages, `rootPageId, `headerRootPageId, `pagesNum, `inUse, `probePins, `shapes
      ensures Mid(Settled, INVALID_PAGE)
      ensures re == RecordDuplicateKey || re == Success
      ensures re == RecordDuplicateKey ==>
        && (exists e :: e in old(Entries(pages)) && e.key == key)
        && Entries(pages) == old(Entries(pages)) && probePins == old(probePins) && rootPageId == old(rootPageId)
        && p in pages
      ensures re == Success ==>
        && (forall e :: e in old(Entries(pages)) ==> e.key != key)
        && Entries(pages) == old(Entries(pages)) + {Entry(key, rid)} && probePins == old(probePins) - Hit(p)
    {
      ghost var P, S := pages, shapes;
      var e := Entry(key, rid);
      assert NodeOk(P[p], S[p]);
      var pos, exists_ := LeafLookUp(p, key);
      if exists_ {
        EntryIn(P, p, P[p].entries[pos]);
        return RecordDuplicateKey;
      }
      NoSuchKey(P, S, rootPageId, p, key);
      if |pages[p].entries| < leafMax {
        LeafInsert(p, pos, key, rid);
        UnpinPage(p);
        LeafInsertGood(P, S, rootPageId, p, pos, e, leafMax, internalMax);
      } else {
        var np := SplitFullLeaf(p, pos, key, rid);
        InsertEntryIntoParent(p, np, pages[np].entries[0].key);
      }
      re := Success;
    }

    // Deletion

    method SetKeyAt(p: PageId, index: nat, key: int)
      requires InternalAt(pages, p) && Pinned(p) && index < |pages[p].children|
      modifies `pages
      ensures var n := old(pages[p]);
        pages == old(pages)[p := n.(children := n.children[index := Child(key, n.children[index].page)])]
    {
      var cs := pages[p].children;
      pages := pages[p := pages[p].(children := cs[index := Child(key, cs[index].page)])];
    }

    /** One entry of the right leaf `from` goes to the end of `to`. */
    method LeafMoveFirstToEnd(from: PageId, to: PageId)
      requires LeafAt(pages, from) && LeafAt(pages, to) && from != to && Pinned(from) && Pinned(to)
      requires |pages[from].entries| > 0
      modifies `pages
      ensures var a, b := old(pages[from]), old(pages[to]);
        pages == old(pages)[to := b.(entries := b.entries + [a.entries[0]])][from := a.(entries := a.entries[1..])]
    {
      pages := pages[to := pages[to].(entries := pages[to].entries + [pages[from].entries[0]])];
      pages := pages[from := pages[from].(entries := pages[from].entries[1..])];
    }

    /** One entry of the left leaf `from` goes to the front of `to`. */
    method LeafMoveLastToFront(from: PageId, to: PageId)
      requires LeafAt(pages, from) && LeafAt(pages, to) && from != to && Pinned(from) && Pinned(to)
      requires |pages[from].entries| > 0
      modifies `pages
      ensures var a, b := old(pages[from]), old(pages[to]); var n := |a.entries| - 1;
        pages == old(pages)[to := b.(entries := [a.entries[n]] + b.entries)][from := a.(entries := a.entries[..n])]
    {
      var n := |pages[from].entries| - 1;
      pages := pages[to := pages[to].(entries := [pages[from].entries[n]] + pages[to].entries)];
      pages := pages[from := pages[from].(entries := pages[from].entries[..n])];
    }

    method ShiftLeafItem(nb: PageId, f: PageId, p: PageId, index: nat)
      requires NextTo(pages, p, index, nb, f)
      requires LeafAt(pages, nb) && LeafAt(pages, f) && |pages[nb].entries| > 1
      requires Pinned(nb) && Pinned(f) && Pinned(p) && {nb, f, p} !! disposed
      modifies `pages, `probePins
      ensures pages == BorrowLeafHeap(old(pages), p, index, nb, f)
      ensures probePins == old(probePins) - Hit(nb) - Hit(f) - Hit(p)
    {
      if index == 0 {
        LeafMoveFirstToEnd(nb, f);
        SetKeyAt(p, index + 1, pages[nb].entries[0].key);
      } else {
        LeafMoveLastToFront(nb, f);
        SetKeyAt(p, index, pages[f].entries[0].key);
      }
      UnpinPage(p);
      UnpinPage(nb);
      UnpinPage(f);
    }

    method InternalMoveFirstToEnd(from: PageId, to: PageId)
      requires InternalAt(pages, from) && InternalAt(pages, to) && from != to && Pinned(from) && Pinned(to)
      requires |pages[from].children| > 0
      requires var c := pages[from].children[0].page; c in pages && c !in disposed && c != from && c != to
      modifies `pages, `probePins
      ensures var a, b := old(pages[from]), old(pages[to]); var c := a.children[0];
        pages == Reparent(old(pages)[to := b.(children := b.children + [c])][from := a.(children := a.children[1..])], [c], to)
      ensures probePins == old(probePins)
    {
      var c := pages[from].children[0];
      ghost var a, b := pages[from], pages[to];
      CopyFrom(to, [c]);
      assert !Lists([c], from);
      pages := pages[from := pages[from].(children := pages[from].children[1..])];
      ghost var Z := Reparent(old(pages)[to := b.(children := b.children + [c])][from := a.(children := a.children[1..])], [c], to);
      assert pages.Keys == Z.Keys;
      assert forall q :: q in Z ==> pages[q] == Z[q];
    }

    method InternalMoveLastToFront(from: PageId, to: PageId)
      requires InternalAt(pages, from) && InternalAt(pages, to) && from != to && Pinned(from) && Pinned(to)
      requires |pages[from].children| > 0
      requires var c := pages[from].children[|pages[from].children| - 1].page;
        c in pages && c !in disposed && c != from && c != to
      modifies `pages, `probePins
      ensures var a, b := old(pages[from]), old(pages[to]); var n := |a.children| - 1; var c := a.children[n];
        pages == Reparent(old(pages)[to := b.(children := [c] + b.children)][from := a.(children := a.children[..n])], [c], to)
      ensures probePins == old(probePins)
    {
      var n := |pages[from].children| - 1;
      var c := pages[from].children[n];
      ghost var a, b := pages[from], pages[to];
      GetPage(c.page);
      SetParentPageId(c.page, to);
      UnpinPage(c.page);
      pages := pages[to := pages[to].(children := [c] + pages[to].children)];
      pages := pages[from := pages[from].(children := pages[from].children[..n])];
      ghost var Z := Reparent(old(pages)[to := b.(children := [c] + b.children)][from := a.(children := a.children[..n])], [c], to);
      assert pages.Keys == Z.Keys;
      assert [c][0] == c;
      assert forall q :: q in Z ==> pages[q] == Z[q];
    }

    method ShiftChild(nb: PageId, f: PageId, p: PageId, index: nat)
      requires NextTo(pages, p, index, nb, f)
      requires if index == 0 then Family(pages, p, f, nb) else Family(pages, p, nb, f)
      requires InternalAt(pages, nb) && InternalAt(pages, f) && |pages[nb].children| > 1
      requires Pinned(nb) && Pinned(f) && Pinned(p) && disposed !! pages.Keys
      modifies `pages, `probePins
      ensures pages == BorrowChildHeap(old(pages), p, index, nb, f)
      ensures probePins == old(probePins) - Hit(nb) - Hit(f) - Hit(p)
    {
      ghost var P := pages;
      if index == 0 {
        MoveFirstIsShift(P, p, f, nb);
        assert (P[f].children + P[nb].children)[|P[f].children|] == P[nb].children[0];
        InternalMoveFirstToEnd(nb, f);
        SetKeyAt(p, index + 1, pages[nb].children[0].key);
      } else {
        MoveLastIsShift(P, p, index, nb, f);
        assert (P[nb].children + P[f].children)[|P[nb].children| - 1] == P[nb].children[|P[nb].children| - 1];
        InternalMoveLastToFront(nb, f);
        SetKeyAt(p, index, pages[f].children[0].key);
      }
      UnpinPage(p);
      UnpinPage(nb);
      UnpinPage(f);
    }

    method RemoveChildAt(p: PageId, index: nat)
      requires InternalAt(pages, p) && Pinned(p) && index < |pages[p].children|
      modifies `pages
      ensures pages == UnlinkHeap(old(pages), p, index)
    {
      pages := pages[p := pages[p].(children := Remove(pages[p].children, index))];
    }

    /** The page `p` leaves the tree and its space is freed, now or when its last holder lets go. */
    method DropPage(p: PageId)
      requires p == probe ==> probePins == 0
      modifies `pages, `inUse, `disposed
      ensures pages == old(pages) - {p}
      ensures (p in held && inUse == old(inUse) && disposed == old(disposed) + {p}) || (inUse == old(inUse) - {p} && disposed == old(disposed))
    {
      pages := pages - {p};
      DisposePage(p);
    }

    method MergeLeaves(L: PageId, R: PageId, p: PageId, index: nat)
      requires Neighbours(pages, p, index, L, R) && LeafAt(pages, L) && LeafAt(pages, R)
      requires pages[R].next != INVALID_PAGE ==> LeafAt(pages, pages[R].next) && pages[R].next != L && pages[R].next != R
      requires Pinned(L) && Pinned(R) && Pinned(p) && disposed !! pages.Keys
      requires R == probe ==> probePins == 1
      modifies `pages, `probePins, `inUse, `disposed
      ensures pages == JoinLeafHeap(UnlinkHeap(old(pages), p, index), L, R)
      ensures probePins == old(probePins) - Hit(L) - Hit(R)
      ensures (R in held && inUse == old(inUse) && disposed == old(disposed) + {R}) || (inUse == old(inUse) - {R} && disposed == old(disposed))
    {
      RemoveChildAt(p, index);
      pages := pages[L := pages[L].(entries := pages[L].entries + pages[R].entries, next := pages[R].next)];
      var next := pages[R].next;
      if next != INVALID_PAGE {
        GetPage(next);
        pages := pages[next := pages[next].(prev := L)];
        UnpinPage(next);
      }
      UnpinPage(L);
      UnpinPage(R);
      DropPage(R);
    }

    method MergeInternals(L: PageId, R: PageId, p: PageId, index: nat)
      requires Neighbours(pages, p, index, L, R) && Family(pages, p, L, R)
      requires Pinned(L) && Pinned(R) && Pinned(p) && disposed !! pages.Keys
      requires R == probe ==> probePins == 1
      modifies `pages, `probePins, `inUse, `disposed
      ensures pages == JoinInternalHeap(UnlinkHeap(old(pages), p, index), L, R)
      ensures probePins == old(probePins) - Hit(L) - Hit(R)
      ensures (R in held && inUse == old(inUse) && disposed == old(disposed) + {R}) || (inUse == old(inUse) - {R} && disposed == old(disposed))
    {
      RemoveChildAt(p, index);
      ghost var U := pages;
      assert U[R].children == (U[L].children + U[R].children)[|U[L].children|..];
      CopyFrom(L, pages[R].children);
      UnpinPage(L);
      UnpinPage(R);
      DropPage(R);
      MergeIsJoin(U, L, R);
    }

    function MaxSize(n: Node): int { if n.Leaf? then leafMax else internalMax }
    function MinSize(n: Node): int { MaxSize(n) - MaxSize(n) / 2 }

    /** Whether a page is left as it is: when it is at least half full, or the root with enough items to stay it. */
    ghost predicate FullEnough(f: PageId)
      requires f in pages
      reads this
    {
      if f == rootPageId then Size(pages[f]) >= if pages[f].Leaf? then 1 else 2
      else 2 * Size(pages[f]) >= MaxSize(pages[f])
    }

    method RedistributeLeaf(nb: PageId, f: PageId, p: PageId, index: nat)
      requires Mid(Settled, f) && probePins == Hit(nb) + Hit(f) + Hit(p)
      requires NextTo(pages, p, index, nb, f)
      requires LeafAt(pages, f) && LeafAt(pages, nb) && f != rootPageId
      requires Size(pages[f]) < MinSize(pages[f]) && Size(pages[f]) + Size(pages[nb]) > leafMax
      modifies `pages, `probePins, `shapes
      ensures old(Size(pages[nb]) > Size(pages[f]))
      ensures Mid(Settled, INVALID_PAGE)
      ensures pages.Keys == old(pages.Keys) && f in pages && Size(pages[f]) == old(Size(pages[f])) + 1
      ensures Entries(pages) == old(Entries(pages)) && probePins == 0
    {
      hide TreeOk;
      hide SizesOk;
      ghost var P, S := pages, shapes;
      SpaceCanAllocate(P.Keys, inUse, disposed, pagesNum);
      BorrowLeafGood(P, S, rootPageId, p, index, nb, f, leafMax, internalMax);
      ShiftLeafItem(nb, f, p, index);
      shapes := BorrowLeafShapes(P, S, index, nb, f);
    }

    method RedistributeInternal(nb: PageId, f: PageId, p: PageId, index: nat)
      requires Mid(Settled, f) && probePins == Hit(nb) + Hit(f) + Hit(p)
      requires NextTo(pages, p, index, nb, f)
      requires InternalAt(pages, f) && InternalAt(pages, nb) && f != rootPageId
      requires Size(pages[f]) < MinSize(pages[f]) && Size(pages[f]) + Size(pages[nb]) > internalMax
      modifies `pages, `probePins, `shapes
      ensures old(Size(pages[nb]) > Size(pages[f]))
      ensures Mid(Settled, INVALID_PAGE)
      ensures pages.Keys == old(pages.Keys) && f in pages && Size(pages[f]) == old(Size(pages[f])) + 1
      ensures Entries(pages) == old(Entries(pages)) && probePins == 0
    {
      hide Good;
      hide Space;
      hide Entries;
      hide BorrowChildHeap;
      ghost var P, S := pages, shapes;
      SpaceCanAllocate(P.Keys, inUse, disposed, pagesNum);
      BorrowChildGood(P, S, rootPageId, p, index, nb, f, leafMax, internalMax);
      ShiftChild(nb, f, p, index);
      shapes := BorrowChildShapes(P, S, index, nb, f);
    }

    method CoalesceLeaf(nb: PageId, f: PageId, p: PageId, index: nat)
      requires Mid(Settled, f) && probePins == Hit(nb) + Hit(f) + Hit(p)
      requires NextTo(pages, p, index, nb, f)
      requires LeafAt(pages, f) && LeafAt(pages, nb) && Size(pages[f]) + Size(pages[nb]) <= leafMax
      modifies `pages, `probePins, `shapes, `inUse, `disposed
      ensures Mid(Settled, p) && p in pages
      ensures pages.Keys == old(pages.Keys) - {if index == 0 then nb else f} && (if index == 0 then nb else f) in old(pages.Keys)
      ensures MergedShapes(old(shapes), shapes, p)
      ensures Entries(pages) == old(Entries(pages)) && probePins == Hit(p)
    {
      ghost var P, S := pages, shapes;
      var L, R := if index == 0 then f else nb, if index == 0 then nb else f;
      var slot := if index == 0 then 1 else index;
      SpaceCanAllocate(P.Keys, inUse, disposed, pagesNum);
      CoalesceLeafGood(P, S, rootPageId, p, slot, L, R, f, leafMax, internalMax);
      MergeLeaves(L, R, p, slot);
      SpaceDrop(P.Keys, old(inUse), old(disposed), pagesNum, R);
      shapes := JoinShapes(S, L, R);
    }

    ghost predicate MergedShapes(S: Shapes, Z: Shapes, p: PageId)
      reads this
    {
      && p in S && rootPageId in S && p in Z && rootPageId in Z
      && Z[p].level == S[p].level && Z[rootPageId].level == S[rootPageId].level
    }

    method CoalesceInternal(nb: PageId, f: PageId, p: PageId, index: nat)
      requires Mid(Settled, f) && probePins == Hit(nb) + Hit(f) + Hit(p)
      requires NextTo(pages, p, index, nb, f)
      requires InternalAt(pages, f) && InternalAt(pages, nb) && Size(pages[f]) + Size(pages[nb]) <= internalMax
      modifies `pages, `probePins, `shapes, `inUse, `disposed
      ensures Mid(Settled, p) && p in pages
      ensures pages.Keys == old(pages.Keys) - {if index == 0 then nb else f} && (if index == 0 then nb else f) in old(pages.Keys)
      ensures MergedShapes(old(shapes), shapes, p)
      ensures Entries(pages) == old(Entries(pages)) && probePins == Hit(p)
    {
      ghost var P, S := pages, shapes;
      var L, R := if index == 0 then f else nb, if index == 0 then nb else f;
      var slot := if index == 0 then 1 else index;
      SpaceCanAllocate(P.Keys, inUse, disposed, pagesNum);
      FamilyOk(P, S, rootPageId, p, slot, L, R);
      CoalesceInternalGood(P, S, rootPageId, p, slot, L, R, f, leafMax, internalMax);
      MergeInternals(L, R, p, slot);
      SpaceDrop(P.Keys, old(inUse), old(disposed), pagesNum, R);
      shapes := JoinShapes(S, L, R);
    }

    method DropRoot(f: PageId)
      requires Mid(Settled, f) && f == rootPageId && probePins == Hit(f) && LeafAt(pages, f) && Size(pages[f]) == 0
      modifies `pages, `probePins, `shapes, `inUse, `disposed, `rootPageId, `headerRootPageId
      ensures Stable() && rootPageId == INVALID_PAGE
      ensures pages.Keys == old(pages.Keys) - {f} && f in old(pages.Keys)
      ensures Entries(pages) == old(Entries(pages)) && probePins == 0
    {
      ghost var P := pages;
      SpaceCanAllocate(P.Keys, inUse, disposed, pagesNum);
      EmptyRootAlone(P, shapes, f);
      rootPageId := INVALID_PAGE;
      UpdateRootPageId();
      UnpinPage(f);
      DropPage(f);
      SpaceDrop(P.Keys, old(inUse), old(disposed), pagesNum, f);
      shapes := map[];
    }

    /** The only child of the root becomes the root, and the old root is dropped. */
    method HandOver(f: PageId)
      requires InternalAt(pages, f) && |pages[f].children| == 1 && f == rootPageId && probePins == Hit(f)
      requires var c := pages[f].children[0].page; c in pages && c != f
      requires disposed !! pages.Keys && HEADER_PAGE !in disposed
      modifies `pages, `probePins, `inUse, `disposed, `rootPageId, `headerRootPageId
      ensures pages == CollapseHeap(old(pages), f) && rootPageId == old(pages[f]).children[0].page
      ensures headerRootPageId == rootPageId && probePins == 0
      ensures (f in held && inUse == old(inUse) && disposed == old(disposed) + {f}) || (inUse == old(inUse) - {f} && disposed == old(disposed))
    {
      var child := pages[f].children[0].page;
      GetPage(child);
      SetParentPageId(child, INVALID_PAGE);
      UnpinPage(child);
      rootPageId := child;
      UpdateRootPageId();
      UnpinPage(f);
      DropPage(f);
    }

    method ReplaceRoot(f: PageId)
      requires Mid(Settled, f) && f == rootPageId && probePins == Hit(f) && InternalAt(pages, f) && Size(pages[f]) == 1
      modifies `pages, `probePins, `shapes, `inUse, `disposed, `rootPageId, `headerRootPageId
      ensures Stable() && rootPageId == old(pages[f]).children[0].page
      ensures pages.Keys == old(pages.Keys) - {f} && f in old(pages.Keys)
      ensures Entries(pages) == old(Entries(pages)) && probePins == 0
    {
      hide TreeOk;
      hide SizesOk;
      ghost var P, S := pages, shapes;
      SpaceCanAllocate(P.Keys, inUse, disposed, pagesNum);
      CollapseGood(P, S, f, leafMax, internalMax);
      HandOver(f);
      SpaceDrop(P.Keys, old(inUse), old(disposed), pagesNum, f);
      shapes := S - {f};
    }

    method AdjustRoot(f: PageId)
      requires Mid(Settled, f) && f == rootPageId && probePins == Hit(f) && Size(pages[f]) <= 1
      modifies `pages, `probePins, `shapes, `inUse, `disposed, `rootPageId, `headerRootPageId
      ensures Stable()
      ensures pages.Keys <= old(pages.Keys) && (pages == old(pages) <==> old(FullEnough(f)))
      ensures Entries(pages) == old(Entries(pages)) && probePins == 0
      ensures rootPageId == if old(InternalAt(pages, f)) then old(pages[f]).children[0].page
                            else if old(Size(pages[f])) == 0 then INVALID_PAGE else f
    {
      assert SizeOk(pages[f], true, 1, leafMax, internalMax);
      if pages[f].Leaf? && Size(pages[f]) > 0 {
        SpaceCanAllocate(pages.Keys, inUse, disposed, pagesNum);
        UnpinPage(f);
        Relax(pages, shapes, f, f, leafMax, internalMax);
      } else if pages[f].Leaf? {
        DropRoot(f);
      } else {
        ReplaceRoot(f);
      }
    }

    method CoalesceOrRedistribute(f: PageId)
      requires Mid(Settled, f) && f in pages && probePins == Hit(f)
      modifies `pages, `probePins, `shapes, `inUse, `disposed, `rootPageId, `headerRootPageId
      ensures Stable()
      ensures pages.Keys <= old(pages.Keys) && (pages == old(pages) <==> old(FullEnough(f)))
      ensures Entries(pages) == old(Entries(pages)) && probePins == 0
      decreases shapes[rootPageId].level - shapes[f].level
    {
      ghost var P, S := pages, shapes;
      SpaceCanAllocate(P.Keys, inUse, disposed, pagesNum);
      assert SizeOk(P[f], f == rootPageId, 1, leafMax, internalMax);
      assert ParentOk(P, S, rootPageId, Settled, f);
      if Size(pages[f]) >= MinSize(pages[f]) {
        UnpinPage(f);
        Relax(P, S, rootPageId, f, leafMax, internalMax);
        return;
      }
      var parent := pages[f].parent;
      if parent == INVALID_PAGE {
        if Size(pages[f]) > 1 {
          UnpinPage(f);
          Relax(P, S, rootPageId, f, leafMax, internalMax);
        } else {
          AdjustRoot(f);
        }
        return;
      }
      GetPage(parent);
      var index, nb := FindNeighbour(f, parent);
      GetPage(nb);
      if Size(pages[f]) + Size(pages[nb]) > MaxSize(pages[f]) {
        if pages[f].Leaf? {
          RedistributeLeaf(nb, f, parent, index);
        } else {
          RedistributeInternal(nb, f, parent, index);
        }
      } else {
        if pages[f].Leaf? {
          CoalesceLeaf(nb, f, parent, index);
        } else {
          CoalesceInternal(nb, f, parent, index);
        }
        CoalesceOrRedistribute(parent);
      }
    }

    /** The page's slot in its parent, looked up by its last key, and the page next to it. */
    method FindNeighbour(f: PageId, p: PageId) returns (index: nat, nb: PageId)
      requires Mid(Settled, f) && f in pages && f != rootPageId && p == pages[f].parent && Pinned(p)
      ensures NextTo(pages, p, index, nb, f)
      ensures (LeafAt(pages, f) <==> LeafAt(pages, nb))
      ensures p in shapes && shapes[p].level == shapes[f].level + 1 <= shapes[rootPageId].level
    {
      ghost var x := ParentSlot(pages, shapes, rootPageId, Settled, f);
      assert SizeOk(pages[f], false, 1, leafMax, internalMax);
      assert SizeOk(pages[p], p == rootPageId, 0, leafMax, internalMax);
      var last := if pages[f].Leaf? then pages[f].entries[|pages[f].entries| - 1].key
                  else pages[f].children[|pages[f].children| - 1].key;
      var slot, _ := InternalLookUp(p, last);
      index := slot;
      LastKeyFinds(pages, shapes, rootPageId, f, index, last);
      if index == 0 {
        nb := pages[p].children[1].page;
        NeighboursOk(pages, shapes, rootPageId, p, 1);
      } else {
        nb := pages[p].children[index - 1].page;
        NeighboursOk(pages, shapes, rootPageId, p, index);
      }
    }

    method DeleteEntryInternal(leaf: PageId, key: int) returns (re: Re, ghost gone: Entry, ghost index: nat)
      requires Mid(Settled, INVALID_PAGE) && LeafAt(pages, leaf) && Within(key, shapes[leaf]) && probePins == Hit(leaf)
      modifies `pages, `probePins, `shapes, `inUse, `disposed, `rootPageId, `headerRootPageId
      ensures Stable() && probePins == 0
      ensures re == Success || re == RecordRecordNotExist
      ensures re == RecordRecordNotExist ==>
        Entries(pages) == old(Entries(pages)) && forall e :: e in Entries(pages) ==> e.key != key
      ensures re == Success ==>
        gone in old(Entries(pages)) && gone.key == key && Entries(pages) == old(Entries(pages)) - {gone}
      ensures re == Success ==>
        && index < |old(pages[leaf].entries)| && old(pages[leaf].entries)[index] == gone
        && (pages == old(pages)[leaf := old(pages[leaf]).(entries := Remove(old(pages[leaf].entries), index))] <==>
            if leaf == old(rootPageId) then |old(pages[leaf].entries)| > 1 else 2 * (|old(pages[leaf].entries)| - 1) >= leafMax)
    {
      ghost var P := pages;
      assert NodeOk(P[leaf], shapes[leaf]);
      SpaceCanAllocate(P.Keys, inUse, disposed, pagesNum);
      var removed;
      removed, index := LeafRemove(leaf, key);
      if removed == 0 {
        NoSuchKey(P, shapes, rootPageId, leaf, key);
        UnpinPage(leaf);
        return RecordRecordNotExist, Entry(0, MIN_RID), index;
      }
      gone := P[leaf].entries[index];
      EntryIn(P, leaf, gone);
      LeafRemoveGood(P, shapes, rootPageId, leaf, index, leafMax, internalMax);
      if Size(pages[leaf]) >= MinSize(pages[leaf]) {
        UnpinPage(leaf);
        Relax(pages, shapes, rootPageId, leaf, leafMax, internalMax);
      } else {
        CoalesceOrRedistribute(leaf);
      }
      re := Success;
    }

    method CreateNewTree(key: int, rid: RecordId)
      requires rootPageId == INVALID_PAGE && Stable()
      modifies `pages, `rootPageId, `headerRootPageId, `pagesNum, `inUse, `probePins, `shapes
      ensures Stable() && probePins == old(probePins)
      ensures Entries(pages) == {Entry(key, rid)}
    {
      hide TreeOk;
      hide SizesOk;
      var p := AllocatePage();
      pages := pages[p := Leaf(INVALID_PAGE, INVALID_PAGE, INVALID_PAGE, [])];
      LeafInsert(p, 0, key, rid);
      rootPageId := p;
      UnpinPage(p);
      UpdateRootPageId();
      shapes := map[p := Shape(0, Open, Open)];
      assert Insert([], 0, Entry(key, rid)) == [Entry(key, rid)];
      assert pages == map[p := Leaf(INVALID_PAGE, INVALID_PAGE, INVALID_PAGE, [Entry(key, rid)])];
      SingleLeafGood(p, Entry(key, rid), leafMax, internalMax);
    }

    /** Adds the pair (attr, rid), or reports that the index holds it already. */
    method InsertEntry(attr: int, rid: RecordId) returns (re: Re)
      requires Valid() && ValidRid(rid) && rid != MAX_RID
      modifies `pages, `rootPageId, `headerRootPageId, `pagesNum, `inUse, `probePins, `shapes
      ensures Valid()
      ensures re == if (attr, rid) in old(Contents()) then RecordDuplicateKey else Success
      ensures Contents() == old(Contents()) + {(attr, rid)}
    {
      hide MakeKey;
      hide Pairs;
      var key := MakeKey(attr, rid);
      ghost var E := Entries(pages);
      PairIn(E, attr, rid);
      PairsAdd(E, attr, rid);
      if rootPageId == INVALID_PAGE {
        CreateNewTree(key, rid);
        assert E + {Entry(key, rid)} == {Entry(key, rid)};
        return Success;
      }
      var _, leaf := FindLeafInternal(OfKey(key));
      re := InsertEntryIntoLeafNode(leaf, key, rid);
      if re != Success {
        SpaceCanAllocate(pages.Keys, inUse, disposed, pagesNum);
        UnpinPage(leaf);
      }
    }

    /** Removes the pair (attr, rid), or reports that the index does not hold it. */
    method DeleteEntry(attr: int, rid: RecordId) returns (re: Re)
      requires Valid() && ValidRid(rid)
      modifies `pages, `probePins, `shapes, `inUse, `disposed, `rootPageId, `headerRootPageId
      ensures Valid()
      ensures re == if (attr, rid) in old(Contents()) then Success
                    else if old(rootPageId) == INVALID_PAGE then Empty else RecordRecordNotExist
      ensures Contents() == old(Contents()) - {(attr, rid)}
    {
      hide Good;
      hide Space;
      var key := MakeKey(attr, rid);
      ghost var E := Entries(pages);
      PairIn(E, attr, rid);
      var found, leaf := FindLeafInternal(OfKey(key));
      if found != Success {
        return found;
      }
      ghost var gone, index;
      re, gone, index := DeleteEntryInternal(leaf, key);
      if re == Success {
        PairsDrop(E, attr, rid, gone);
      }
    }
  }
}
