/** Every run of an index agrees with a plain set of pairs (attribute value, record id). */
module BplusTreeRuns {
  import opened ReturnCodes
  import opened Keys
  import opened TreePages
  import opened TreeEntries
  import opened TreeOrder
  import opened TreeMeaning
  import opened BplusTree
  import opened BplusTreeScan

  type Pairing = set<(int, RecordId)>

  datatype Op =
    | Insert(attr: int, rid: RecordId)
    | Delete(attr: int, rid: RecordId)
    | Lookup(attr: int)
    | Range(left: Option<UserKey>, leftInclusive: bool, right: Option<UserKey>, rightInclusive: bool)
    | Hold(page: PageId)
    | Release(page: PageId)

  datatype Reply = Reply(re: Re, rids: seq<RecordId>)

  predicate OpOk(op: Op) {
    match op
    case Insert(_, rid) => ValidRid(rid) && rid != MAX_RID
    case Delete(_, rid) => ValidRid(rid)
    case _ => true
  }

  /** What an operation makes of the set. */
  ghost function PlainNext(s: Pairing, op: Op): Pairing {
    match op
    case Insert(attr, rid) => s + {(attr, rid)}
    case Delete(attr, rid) => s - {(attr, rid)}
    case _ => s
  }

  /** The pages that someone else has pinned. */
  ghost function HeldNext(held: set<PageId>, op: Op, reply: Reply): set<PageId> {
    match op
    case Hold(page) => if reply.re == Success then held + {page} else held
    case Release(page) => held - {page}
    case _ => held
  }

  ghost function HeldFinal(held: set<PageId>, ops: seq<Op>, replies: seq<Reply>): set<PageId>
    requires |ops| == |replies|
  {
    if ops == [] then held else
      HeldNext(HeldFinal(held, ops[..|ops| - 1], replies[..|ops| - 1]), ops[|ops| - 1], replies[|ops| - 1])
  }

  ghost function PlainFinal(s: Pairing, ops: seq<Op>): Pairing {
    if ops == [] then s else PlainNext(PlainFinal(s, ops[..|ops| - 1]), ops[|ops| - 1])
  }

  /** Whether a reply is the one that the set gives: a lookup lists the record ids of the value in order, and a
      scan those of the range, in the order of their pairs. Someone else can pin the pages that are in use. */
  ghost predicate PlainReply(s: Pairing, inUse: set<PageId>, op: Op, reply: Reply) {
    match op
    case Insert(attr, rid) => reply == Reply(if (attr, rid) in s then RecordDuplicateKey else Success, [])
    case Delete(attr, rid) => reply == Reply(if (attr, rid) in s then Success else if s == {} then Empty else RecordRecordNotExist, [])
    case Lookup(attr) =>
      && reply.re == (if s == {} then Empty else Success)
      && (forall i, j :: 0 <= i < j < |reply.rids| ==> RidLess(reply.rids[i], reply.rids[j]))
      && (forall rid :: rid in reply.rids <==> (attr, rid) in s)
    case Range(l, li, r, ri) =>
      if Refused(l, li, r, ri) then reply == Reply(InvalidArgument, [])
      else
        && reply.re == (if s == {} then Empty else Success)
        && InOrder(RangeOf(s, l, li, r, ri), reply.rids)
    case Hold(page) => reply == Reply(if page in inUse then Success else BufferPoolInvalidPageId, [])
    case Release(_) => reply == Reply(Success, [])
  }

  /** `rids` are the record ids of exactly these pairs, in their order. */
  ghost predicate InOrder(pairs: Pairing, rids: seq<RecordId>) {
    exists listed :: Listed(pairs, listed, rids)
  }

  /** There is no root exactly when the index holds nothing. */
  lemma EmptyIndex(tree: BplusTreeHandler)
    requires tree.Valid()
    ensures tree.rootPageId == INVALID_PAGE <==> tree.Contents() == {}
  {
    if tree.rootPageId == INVALID_PAGE {
      assert Entries(tree.pages) == {};
    } else {
      var p := SomeLeaf(tree.pages, tree.shapes, tree.rootPageId);
      LeafNotEmpty(tree.pages, tree.shapes, tree.rootPageId, p, tree.leafMax, tree.internalMax);
      var e := tree.pages[p].entries[0];
      EntryIn(tree.pages, p, e);
      assert (KeyAttr(e.key), e.rid) in tree.Contents();
    }
  }

  /** The allocated pages are the two header pages, the pages reached from the root, and those of the tree
      before that someone else still holds; without such holders, exactly the first two. */
  lemma NoPageLeak(tree: BplusTreeHandler, q: PageId)
    requires tree.Valid()
    ensures q in tree.pages <==> q != INVALID_PAGE && Reached(tree.pages, tree.rootPageId, q)
    ensures q in tree.inUse <==> q == 0 || q == HEADER_PAGE || q in tree.pages || q in tree.disposed
    ensures q in tree.disposed ==> q in tree.held && q !in tree.pages
    ensures tree.held == {} ==> tree.inUse == tree.pages.Keys + {0, HEADER_PAGE}
  {
    if q in tree.pages {
      var slots := Reachable(tree.pages, tree.shapes, tree.rootPageId, q);
      assert Reached(tree.pages, tree.rootPageId, q);
    }
    forall slots | Path(tree.pages, tree.rootPageId, slots, q) ensures q == INVALID_PAGE || q in tree.pages {
      if tree.rootPageId == INVALID_PAGE {
        assert !InternalAt(tree.pages, INVALID_PAGE);
      } else {
        PathInTree(tree.pages, tree.shapes, tree.rootPageId, tree.rootPageId, slots, q);
      }
    }
  }

  lemma SomeLeaf(P: Heap, S: Shapes, root: PageId) returns (p: PageId)
    requires TreeOk(P, S, root, Settled)
    ensures LeafAt(P, p)
  {
    p := root;
    assert ParentOk(P, S, root, Settled, root);
    while P[p].Internal?
      invariant p in P && p in S
      decreases S[p].level
    {
      assert NodeOk(P[p], S[p]);
      assert ChildOk(P, S, Settled, p, 0);
      p := P[p].children[0].page;
      assert NodeOk(P[p], S[p]);
    }
  }

  method Step(tree: BplusTreeHandler, op: Op) returns (reply: Reply)
    requires tree.Valid() && OpOk(op)
    modifies tree
    ensures tree.Valid() && tree.Contents() == PlainNext(old(tree.Contents()), op)
    ensures PlainReply(old(tree.Contents()), old(tree.inUse), op, reply)
    ensures tree.held == HeldNext(old(tree.held), op, reply)
  {
    hide BplusTreeHandler.Valid;
    hide BplusTreeHandler.Contents;
    EmptyIndex(tree);
    var re;
    var rids := [];
    ghost var listed := [];
    match op {
      case Insert(attr, rid) => re := tree.InsertEntry(attr, rid);
      case Delete(attr, rid) => re := tree.DeleteEntry(attr, rid);
      case Lookup(attr) => re, rids := GetEntry(tree, UserKey(attr, false));
      case Range(l, li, r, ri) =>
        re, rids, listed := Scan(tree, l, li, r, ri);
        if re == Empty {
          assert RangeOf(tree.Contents(), l, li, r, ri) == {};
        }
        assert re != InvalidArgument ==> Listed(RangeOf(tree.Contents(), l, li, r, ri), listed, rids);
      case Hold(page) =>
        re := BufferPoolInvalidPageId;
        if page in tree.inUse {
          tree.HoldPage(page);
          re := Success;
        }
      case Release(page) =>
        re := Success;
        if page in tree.held {
          tree.ReleasePage(page);
        }
    }
    reply := Reply(re, rids);
  }

  /** Any run of operations on a valid index is answered as by the set it holds, and leaves a valid index
      that holds what becomes of the set. */
  method Run(tree: BplusTreeHandler, ops: seq<Op>) returns (replies: seq<Reply>, ghost inUse: seq<set<PageId>>)
    requires tree.Valid() && forall i :: 0 <= i < |ops| ==> OpOk(ops[i])
    modifies tree
    ensures tree.Valid() && tree.Contents() == PlainFinal(old(tree.Contents()), ops)
    ensures |replies| == |ops| && |inUse| == |ops| + 1 && inUse[0] == old(tree.inUse) && inUse[|ops|] == tree.inUse
    ensures forall i :: 0 <= i < |ops| ==> PlainReply(PlainFinal(old(tree.Contents()), ops[..i]), inUse[i], ops[i], replies[i])
    ensures tree.held == HeldFinal(old(tree.held), ops, replies)
  {
    hide BplusTreeHandler.Valid;
    hide BplusTreeHandler.Contents;
    hide PlainReply;
    hide PlainNext;
    hide HeldNext;
    replies, inUse := [], [tree.inUse];
    for n := 0 to |ops|
      invariant |replies| == n && tree.Valid() && |inUse| == n + 1 && inUse[0] == old(tree.inUse) && inUse[n] == tree.inUse
      invariant tree.held == HeldFinal(old(tree.held), ops[..n], replies)
      invariant tree.Contents() == PlainFinal(old(tree.Contents()), ops[..n])
      invariant forall i :: 0 <= i < n ==> PlainReply(PlainFinal(old(tree.Contents()), ops[..i]), inUse[i], ops[i], replies[i])
    {
      ghost var before := replies;
      var reply := Step(tree, ops[n]);
      replies, inUse := replies + [reply], inUse + [tree.inUse];
      assert ops[..n + 1][..n] == ops[..n] && replies[..n] == before;
    }
    assert ops[..|ops|] == ops;
  }
}
