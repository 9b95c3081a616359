/** Every run of a buffer pool agrees with a plain list of pages, whatever is cached, evicted or
    written back on the way, and whichever pages its clients keep pinned. */
module BufferPoolRuns {
  import opened ReturnCodes
  import opened Keys
  import opened LruCache
  import opened FrameManager
  import opened PageHeader
  import opened CacheUse
  import opened BufferPool

  /** A client pins pages, reads and writes the pages it has pinned, gives its pins back, and takes pages and
      gives them up. */
  datatype Op =
    | Pin(page: int)
    | Read(page: int)
    | Write(page: int, content: Content)
    | Unpin(page: int)
    | Allocate
    | Dispose(page: int)
    | Sync

  datatype Reply = Data(content: Content) | Taken(page: int) | Done | Refused | Failed(re: Re)

  /** The data of the pages of a file, its header first; how often each page is pinned by clients; the pages
      given up while they were pinned; how many different pages can be pinned at once; and for each page that
      the file had at the last `Sync` what may be on disk: what was there then, or something written since. */
  datatype Plain = Plain(pages: seq<Content>, pins: map<int, nat>, waiting: set<int>, room: nat, disk: seq<set<Content>>)

  /** What is on disk is what the pages hold. */
  ghost function Synced(pages: seq<Content>): (disk: seq<set<Content>>)
    ensures |disk| == |pages| && forall p :: 0 <= p < |disk| ==> disk[p] == {pages[p]}
  {
    seq(|pages|, p requires 0 <= p < |pages| => {pages[p]})
  }

  /** On disk is a header of as many pages, and each of them may be what it is now. */
  ghost predicate DiskOk(pages: seq<Content>, disk: seq<set<Content>>) {
    && 0 < |disk| <= |pages|
    && (forall h :: h in disk[0] ==> HeaderOk(h) && h.pagesNum == |disk|)
    && (forall p {:trigger disk[p]} :: 0 < p < |disk| ==> pages[p] in disk[p])
  }

  ghost predicate Store(s: Plain) {
    && s.pages != [] && HeaderOk(s.pages[0]) && |s.pages| == s.pages[0].pagesNum
    && (forall p :: p in s.pins ==> s.pins[p] > 0 && 0 <= p < |s.pages|)
    && (forall p :: p in s.waiting ==> p in s.pins && p > 0 && Allocated(s.pages[0], p))
    && DiskOk(s.pages, s.disk)
  }

  function PinCount(s: Plain, page: int): nat {
    if page in s.pins then s.pins[page] else 0
  }

  /** The pages that take up room: the header has its own. */
  function InRoom(s: Plain): set<int> {
    s.pins.Keys - {0}
  }

  /** How looking for a page ends: a page that is pinned is there, any other needs room. */
  function PinOutcome(s: Plain, page: int): Re {
    if page == 0 || page in s.pins then Success
    else if |InRoom(s)| >= s.room then NoMem
    else if page < 0 then IoErrSeek else if page < |s.pages| then Success else IoErrRead
  }

  function WithPin(s: Plain, page: int): Plain {
    s.(pins := s.pins[page := PinCount(s, page) + 1])
  }

  function WithoutPin(s: Plain, page: int): Plain
    requires page in s.pins && s.pins[page] > 0
  {
    s.(pins := if s.pins[page] == 1 then s.pins - {page} else s.pins[page := s.pins[page] - 1])
  }

  function WithHeader(s: Plain, h: Content): Plain
    requires s.pages != []
  {
    s.(pages := s.pages[0 := h])
  }

  ghost function Written(s: Plain, p: int, c: Content): Plain
    requires 0 <= p < |s.pages|
  {
    s.(pages := s.pages[p := c], disk := if p < |s.disk| then s.disk[p := s.disk[p] + {c}] else s.disk)
  }

  /** What an operation replies. */
  ghost function PlainReply(s: Plain, op: Op): Reply
    requires Store(s)
  {
    match op
    case Pin(p) => if PinOutcome(s, p) == Success then Done else Failed(PinOutcome(s, p))
    case Read(p) => if p in s.pins then Data(s.pages[p]) else Refused
    case Write(p, _) => if p in s.pins && p != 0 then Done else Refused
    case Unpin(p) => if p in s.pins then Done else Refused
    case Allocate =>
      var p := NextPageOf(s.pages[0]);
      if p < |s.pages| then if PinOutcome(s, p) == Success then Taken(p) else Failed(PinOutcome(s, p))
      else if p >= MAX_PAGES then Failed(BufferPoolNoBuf)
      else if |InRoom(s)| >= s.room then Failed(NoMem) else Taken(p)
    case Dispose(p) =>
      if p <= 0 then Refused
      else if !Allocated(s.pages[0], p) then Failed(BufferPoolInvalidPageId)
      else if p in s.pins then Failed(LockedUnlock) else Done
    case Sync => Done
  }

  /** Giving a pin back; the last one of a page that waits gives the page up. */
  ghost function AfterUnpin(s: Plain, p: int): (t: Plain)
    requires Store(s)
    ensures Store(t)
  {
    if p !in s.pins then s
    else if s.pins[p] == 1 && p in s.waiting then
      GiveOk(s.pages[0], p);
      WithHeader(WithoutPin(s, p), GivePage(s.pages[0], p)).(waiting := s.waiting - {p})
    else WithoutPin(s, p)
  }

  /** Taking the first page that is not allocated, which may lie at the end of the file, and pinning it. */
  ghost function AfterAllocate(s: Plain): (t: Plain)
    requires Store(s)
    ensures Store(t)
  {
    var p := NextPageOf(s.pages[0]);
    if p >= MAX_PAGES then s
    else
      TakeOk(s.pages[0], p);
      if p < |s.pages| then
        var t := WithHeader(s, TakePage(s.pages[0], p));
        if PinOutcome(s, p) == Success then WithPin(t, p) else t
      else if |InRoom(s)| >= s.room then s
      else WithPin(s.(pages := s.pages[0 := TakePage(s.pages[0], p)] + [ZeroPage()]), p)
  }

  /** Giving a page up, or having it wait. */
  ghost function AfterDispose(s: Plain, p: int): (t: Plain)
    requires Store(s)
    ensures Store(t)
  {
    if p <= 0 || !Allocated(s.pages[0], p) then s
    else if p in s.pins then s.(waiting := s.waiting + {p})
    else
      GiveOk(s.pages[0], p);
      WithHeader(s, GivePage(s.pages[0], p))
  }

  /** What it makes of the file and its pins. */
  ghost function PlainNext(s: Plain, op: Op): (t: Plain)
    requires Store(s)
    ensures Store(t)
  {
    match op
    case Pin(p) => if PinOutcome(s, p) == Success then WithPin(s, p) else s
    case Write(p, c) => if p in s.pins && p != 0 then Written(s, p, c) else s
    case Unpin(p) => AfterUnpin(s, p)
    case Allocate => AfterAllocate(s)
    case Dispose(p) => AfterDispose(s, p)
    case Sync => s.(disk := Synced(s.pages))
    case Read(_) => s
  }

  /** The replies to a list of operations, one after the other. */
  ghost function PlainRun(s: Plain, ops: seq<Op>): seq<Reply>
    requires Store(s)
    decreases ops
  {
    if ops == [] then [] else [PlainReply(s, ops[0])] + PlainRun(PlainNext(s, ops[0]), ops[1..])
  }

  ghost function PlainFinal(s: Plain, ops: seq<Op>): (t: Plain)
    requires Store(s)
    ensures Store(t)
    decreases ops
  {
    if ops == [] then s else PlainFinal(PlainNext(s, ops[0]), ops[1..])
  }

  /** Whether a run gives the last pin of a page back. */
  ghost predicate LetsGo(s: Plain, ops: seq<Op>, page: int)
    requires Store(s)
    decreases ops
  {
    ops != [] &&
    ((ops[0] == Unpin(page) && PinCount(s, page) == 1) || LetsGo(PlainNext(s, ops[0]), ops[1..], page))
  }

  /** A page given up while it was pinned stays allocated, and is not handed out again, before its last pin is
      given back. */
  lemma {:induction false} WaitingPage(s: Plain, ops: seq<Op>, page: int)
    requires Store(s) && page in s.waiting && !LetsGo(s, ops, page)
    ensures page in PlainFinal(s, ops).waiting && Allocated(PlainFinal(s, ops).pages[0], page)
    ensures Taken(page) !in PlainRun(s, ops)
    decreases ops
  {
    if ops != [] {
      WaitingStep(s, ops[0], page);
      WaitingPage(PlainNext(s, ops[0]), ops[1..], page);
    }
  }

  lemma WaitingStep(s: Plain, op: Op, page: int)
    requires Store(s) && page in s.waiting
    ensures page in PlainNext(s, op).waiting || (op == Unpin(page) && PinCount(s, page) == 1)
    ensures PlainReply(s, op) != Taken(page)
  {
  }

  /** The data last written to a page, by an operation that could write it. */
  ghost function LastWritten(s: Plain, ops: seq<Op>, page: int): Option<Content>
    requires Store(s)
    decreases ops
  {
    if ops == [] then None
    else
      var later := LastWritten(PlainNext(s, ops[0]), ops[1..], page);
      if later.Some? then later
      else if ops[0].Write? && ops[0].page == page && PlainReply(s, ops[0]) == Done then Some(ops[0].content) else None
  }

  ghost function HeldData(s: Plain, ops: seq<Op>, page: int): Content
    requires Store(s) && page > 0
  {
    match LastWritten(s, ops, page)
    case Some(c) => c
    case None => if page < |s.pages| then s.pages[page] else ZeroPage()
  }

  /** A page holds the data last written to it, else what it held before, and a page added meanwhile
      zeros: giving a page up and taking it again does not clear it. */
  lemma {:induction false} PageHoldsLastWritten(s: Plain, ops: seq<Op>, page: int)
    requires Store(s) && page > 0
    ensures |s.pages| <= |PlainFinal(s, ops).pages|
    ensures page < |PlainFinal(s, ops).pages| ==> PlainFinal(s, ops).pages[page] == HeldData(s, ops, page)
    decreases ops
  {
    if ops != [] {
      hide PlainNext;
      hide PlainReply;
      PageStep(s, ops[0], page);
      PageHoldsLastWritten(PlainNext(s, ops[0]), ops[1..], page);
    }
  }

  lemma PageStep(s: Plain, op: Op, page: int)
    requires Store(s) && page > 0
    ensures |s.pages| <= |PlainNext(s, op).pages|
    ensures op.Write? && op.page == page && PlainReply(s, op) == Done ==>
      page < |s.pages| && PlainNext(s, op).pages[page] == op.content
    ensures !(op.Write? && op.page == page && PlainReply(s, op) == Done) && page < |PlainNext(s, op).pages| ==>
      PlainNext(s, op).pages[page] == if page < |s.pages| then s.pages[page] else ZeroPage()
  {
  }

  /** Without a `Sync`, what may be on disk for a page is what may have been there before, and what the run
      writes to the page: a page that is not written stays as the last `Sync` left it. */
  lemma {:induction false} DiskAfter(s: Plain, ops: seq<Op>, page: int)
    requires Store(s) && 0 <= page < |s.disk| && Sync !in ops
    ensures var t := PlainFinal(s, ops);
      && |t.disk| == |s.disk| && s.disk[page] <= t.disk[page]
      && (LastWritten(s, ops, page) == None ==> t.disk[page] == s.disk[page])
    decreases ops
  {
    if ops != [] {
      assert ops[0] in ops && forall op :: op in ops[1..] ==> op in ops;
      DiskStep(s, ops[0], page);
      hide PlainNext;
      hide PlainReply;
      DiskAfter(PlainNext(s, ops[0]), ops[1..], page);
    }
  }

  lemma DiskStep(s: Plain, op: Op, page: int)
    requires Store(s) && 0 <= page < |s.disk| && op != Sync
    ensures |PlainNext(s, op).disk| == |s.disk| && s.disk[page] <= PlainNext(s, op).disk[page]
    ensures !(op.Write? && op.page == page && PlainReply(s, op) == Done) ==> PlainNext(s, op).disk[page] == s.disk[page]
  {
  }

  /** The pages of the file hold the data of the list. */
  ghost predicate Pages(pool: DiskBufferPool, pages: seq<Content>)
    reads pool, pool.manager.lru, pool.manager.lru.entries.Values, pool.files
    reads if pool.headerFrame == null then {} else {pool.headerFrame}
  {
    && pool.headerFrame != null && pool.headerFrame.page.content.Header?
    && |pages| == pool.headerFrame.page.content.pagesNum
    && forall p {:trigger pages[p]} :: 0 <= p < |pages| ==> pool.PageAt(FrameId(pool.fd, p)) == Some(Page(p, pages[p]))
  }

  /** The pins of the pages are those of the clients; the header has one more. */
  ghost predicate Counts(pool: DiskBufferPool, s: Plain)
    reads pool, pool.manager.lru, pool.manager.lru.entries.Values
  {
    forall p {:trigger PinCount(s, p)} :: pool.PinsOf(FrameId(pool.fd, p)) == PinCount(s, p) + if p == 0 then 1 else 0
  }

  /** And the pages that wait to be given up are those of the list. */
  ghost predicate Pinned(pool: DiskBufferPool, s: Plain)
    reads pool, pool.manager.lru, pool.manager.lru.entries.Values
  {
    && pool.disposed == s.waiting
    && Counts(pool, s)
  }

  /** The clients have the frames of the pages they pinned. */
  ghost predicate Framed(pool: DiskBufferPool, held: map<int, Frame>, s: Plain)
    reads pool, pool.manager.lru
  {
    held.Keys == s.pins.Keys && InFrames(pool.manager.lru.entries, pool.fd, held)
  }

  ghost predicate InFrames(entries: map<FrameId, Frame>, fd: int, held: map<int, Frame>) {
    forall p {:trigger held[p]} :: p in held ==> FrameId(fd, p) in entries && entries[FrameId(fd, p)] == held[p]
  }

  /** The frames that are left for pages nobody has pinned. */
  ghost predicate Roomy(pool: DiskBufferPool, s: Plain)
    reads pool, pool.manager, pool.manager.lru, pool.manager.lru.entries.Values
  {
    |pool.PinnedPages()| + s.room == |pool.manager.frames| + |InRoom(s)|
  }

  ghost predicate DiskHas(files: map<FrameId, Page>, fd: int, disk: seq<set<Content>>) {
    forall p :: 0 <= p < |disk| ==> FrameId(fd, p) in files && files[FrameId(fd, p)].content in disk[p]
  }

  /** The file holds one of the contents that the list names. */
  ghost predicate OnDisk(pool: DiskBufferPool, s: Plain)
    reads pool, pool.files
  {
    DiskHas(pool.files.pages, pool.fd, s.disk)
  }

  /** Writing unpinned pages back keeps the file to what the list names. */
  lemma DiskKept(before: map<FrameId, Page>, after: map<FrameId, Page>, unpinned: imap<FrameId, Page>, fd: int, disk: seq<set<Content>>)
    requires DiskHas(before, fd, disk) && WroteBack(before, after, unpinned) && MayWrite(unpinned, fd, disk)
    ensures DiskHas(after, fd, disk)
  {
    forall p | 0 <= p < |disk| ensures FrameId(fd, p) in after && after[FrameId(fd, p)].content in disk[p] {
      var may := disk[p];
      assert FrameId(fd, p) in before && before[FrameId(fd, p)].content in may;
    }
  }

  /** What an unpinned page holds may be on disk, and the header is not unpinned. */
  ghost predicate MayWrite(unpinned: imap<FrameId, Page>, fd: int, disk: seq<set<Content>>) {
    forall p {:trigger disk[p]} :: 0 <= p < |disk| && FrameId(fd, p) in unpinned ==> unpinned[FrameId(fd, p)].content in disk[p]
  }

  lemma UnpinnedMayBe(pool: DiskBufferPool, held: map<int, Frame>, s: Plain)
    requires Holds(pool, held, s)
    ensures MayWrite(pool.UnpinnedPages(), pool.fd, s.disk)
    ensures forall p :: p in held ==> MayWrite(pool.UnpinnedBut(p), pool.fd, s.disk)
  {
    forall p {:trigger s.disk[p]} | 0 <= p < |s.disk|
      ensures pool.PageAt(FrameId(pool.fd, p)) == Some(Page(p, s.pages[p]))
      ensures p > 0 ==> s.pages[p] in s.disk[p]
    {
      assert 0 <= p < |s.pages|;
    }
    assert pool.PinsOf(FrameId(pool.fd, 0)) == PinCount(s, 0) + 1;
    assert 0 in held ==> PinCount(s, 0) > 0;
  }

  /** The pool holds the file, and the clients have the pages pinned that they should. */
  ghost predicate Holds(pool: DiskBufferPool, held: map<int, Frame>, s: Plain)
    reads pool, pool.manager, pool.manager.lru, pool.manager.lru.nodes, pool.manager.lru.searcher.Values
    reads pool.manager.pool, pool.manager.lru.entries.Values, pool.files
    reads if pool.headerFrame == null then {} else {pool.headerFrame}
  {
    pool.Valid() && Store(s) && Pages(pool, s.pages) && Pinned(pool, s) && Framed(pool, held, s) && Roomy(pool, s) && OnDisk(pool, s)
  }

  lemma RoomMeans(pool: DiskBufferPool, held: map<int, Frame>, s: Plain)
    requires Holds(pool, held, s)
    ensures pool.AllPinned() <==> |InRoom(s)| >= s.room
    ensures forall p :: pool.Outcome(p) == PinOutcome(s, p)
  {
    pool.RoomLeft();
    forall p ensures pool.Outcome(p) == PinOutcome(s, p) {
      var id := FrameId(pool.fd, p);
      assert pool.PinsOf(id) == PinCount(s, p) + if p == 0 then 1 else 0;
      if id in pool.manager.lru.entries {
        pool.CachedInFile(p);
        assert pool.AllPinned() ==> id !in pool.Unpinned();
      }
    }
  }

  /** Which pages take up room after a pin more. */
  lemma RoomTaken(s: Plain, page: int)
    ensures InRoom(WithPin(s, page)) == InRoom(s) + if page == 0 then {} else {page}
    ensures page == 0 || page in s.pins ==> InRoom(WithPin(s, page)) == InRoom(s)
  {
    assert WithPin(s, page).pins.Keys == s.pins.Keys + {page};
  }

  lemma SizeAdded<A>(a: set<A>, x: A)
    ensures |a + {x}| == |a| + if x in a then 0 else 1
  {
    if x in a {
      assert a + {x} == a;
    }
  }

  /** A pin more is counted. */
  lemma PinCounted(pool: DiskBufferPool, s: Plain, page: int)
    requires forall p {:trigger PinCount(s, p)} ::
      pool.PinsOf(FrameId(pool.fd, p)) == PinCount(s, p) + (if p == 0 then 1 else 0) + if p == page then 1 else 0
    ensures Counts(pool, WithPin(s, page))
  {
    var t := WithPin(s, page);
    forall p {:trigger PinCount(t, p)}
      ensures pool.PinsOf(FrameId(pool.fd, p)) == PinCount(t, p) + if p == 0 then 1 else 0
    {
      assert PinCount(t, p) == PinCount(s, p) + if p == page then 1 else 0;
    }
  }

  /** Looks for a page; nothing that the file holds changes, and no pinned page moves. */
  method LookFor(pool: DiskBufferPool, held: map<int, Frame>, page: int, ghost s: Plain) returns (r: Re, f: Frame?)
    requires Holds(pool, held, s)
    modifies pool, pool.manager, pool.manager.lru, pool.manager.lru.nodes, pool.manager.pool, pool.files, pool.manager.frames
    ensures pool.Valid() && Pages(pool, s.pages) && Framed(pool, held, s) && pool.disposed == s.waiting
    ensures r == PinOutcome(s, page) && OnDisk(pool, s)
    ensures r == Success ==>
      FrameId(pool.fd, page) in pool.manager.lru.entries && pool.manager.lru.entries[FrameId(pool.fd, page)] == f
    ensures forall i :: pool.PinsOf(i) == old(pool.PinsOf(i)) + if r == Success && i == FrameId(pool.fd, page) then 1 else 0
    ensures forall i :: 0 <= i < |pool.manager.lru.nodes| ==>
          pool.manager.lru.nodes[i] in old(pool.manager.lru.nodes) || fresh(pool.manager.lru.nodes[i])
  {
    hide LruCache.Valid;
    hide MemoryPool.Valid;
    hide DiskHas;
    hide WroteBack;
    hide MayWrite;
    hide DiskOk;
    hide Roomy;
    hide InRoom;
    RoomMeans(pool, held, s);
    UnpinnedMayBe(pool, held, s);
    ghost var before := pool.manager.lru.entries;
    ghost var victim;
    r, f, victim := pool.GetPage(page);
    DiskKept(old(pool.files.pages), pool.files.pages, old(pool.UnpinnedPages()), pool.fd, s.disk);
    assert pool.FrameOk(pool.HeaderId());
    forall p | 0 <= p < |s.pages| ensures pool.PageAt(FrameId(pool.fd, p)) == Some(Page(p, s.pages[p])) {
      assert old(pool.PageAt(FrameId(pool.fd, p))) == Some(Page(p, s.pages[p]));
    }
    forall p | p in held
      ensures FrameId(pool.fd, p) in pool.manager.lru.entries && pool.manager.lru.entries[FrameId(pool.fd, p)] == held[p]
    {
      assert old(pool.PinsOf(FrameId(pool.fd, p))) >= PinCount(s, p) > 0;
      assert pool.SameFrame(FrameId(pool.fd, p), before);
    }
  }

  /** Which pages are pinned after a pin more. */
  lemma PinnedMore(pool: DiskBufferPool, before: set<FrameId>, id: FrameId)
    requires forall i {:trigger pool.PinsOf(i)} :: pool.PinsOf(i) > 0 <==> i in before || i == id
    ensures pool.PinnedPages() == before + {id}
  {
    forall i ensures i in pool.PinnedPages() <==> i in before + {id} {
      assert pool.PinsOf(i) > 0 <==> i in before || i == id;
    }
  }

  /** A page of the file was found, and pinned. */
  lemma AddPin(pool: DiskBufferPool, held: map<int, Frame>, s: Plain, page: int, f: Frame, before: set<FrameId>)
    requires Framed(pool, held, s) && pool.disposed == s.waiting
    requires FrameId(pool.fd, page) in pool.manager.lru.entries && pool.manager.lru.entries[FrameId(pool.fd, page)] == f
    requires Counts(pool, WithPin(s, page))
    requires |before| + s.room == |pool.manager.frames| + |InRoom(s)|
    requires FrameId(pool.fd, page) in before <==> page == 0 || page in s.pins
    requires pool.PinnedPages() == before + {FrameId(pool.fd, page)}
    ensures Pinned(pool, WithPin(s, page)) && Framed(pool, held[page := f], WithPin(s, page)) && Roomy(pool, WithPin(s, page))
  {
    hide Counts;
    hide InRoom;
    RoomTaken(s, page);
    SizeAdded(before, FrameId(pool.fd, page));
    SizeAdded(InRoom(s), page);
    assert page in InRoom(s) <==> page != 0 && page in s.pins by {
      InRoomIs(s, page);
    }
  }

  lemma InRoomIs(s: Plain, page: int)
    ensures page in InRoom(s) <==> page != 0 && page in s.pins
  {
  }

  /** Pins a page of the file. */
  method PinPage(pool: DiskBufferPool, held: map<int, Frame>, page: int, ghost s: Plain)
    returns (reply: Reply, newHeld: map<int, Frame>)
    requires Holds(pool, held, s)
    modifies pool, pool.manager, pool.manager.lru, pool.manager.lru.nodes, pool.manager.pool, pool.files, pool.manager.frames
    ensures reply == PlainReply(s, Pin(page)) && Holds(pool, newHeld, PlainNext(s, Pin(page)))
    ensures forall i :: 0 <= i < |pool.manager.lru.nodes| ==>
          pool.manager.lru.nodes[i] in old(pool.manager.lru.nodes) || fresh(pool.manager.lru.nodes[i])
  {
    hide LruCache.Valid;
    hide MemoryPool.Valid;
    hide DiskHas;
    hide DiskOk;
    hide DiskBufferPool.Valid;
    hide Pages;
    hide Framed;
    hide Roomy;
    hide InRoom;
    ghost var before := pool.PinnedPages();
    ghost var id := FrameId(pool.fd, page);
    assert id in before <==> page == 0 || page in s.pins by {
      assert pool.PinsOf(id) == PinCount(s, page) + if page == 0 then 1 else 0;
    }
    assert |before| + s.room == |pool.manager.frames| + |InRoom(s)| by {
      RoomIs(pool, s);
    }
    var r, f := LookFor(pool, held, page, s);
    if r != Success {
      assert pool.PinnedPages() == before;
      RoomStays(pool, s, before);
      return Failed(r), held;
    }
    reply, newHeld := Done, held[page := f];
    PinnedMore(pool, before, id);
    PinCounted(pool, s, page);
    AddPin(pool, held, s, page, f, before);
    assert WithPin(s, page).disk == s.disk;
  }

  lemma RoomIs(pool: DiskBufferPool, s: Plain)
    requires Roomy(pool, s)
    ensures |pool.PinnedPages()| + s.room == |pool.manager.frames| + |InRoom(s)|
  {
  }

  lemma RoomStays(pool: DiskBufferPool, s: Plain, before: set<FrameId>)
    requires pool.PinnedPages() == before && |before| + s.room == |pool.manager.frames| + |InRoom(s)|
    ensures Roomy(pool, s)
  {
  }

  /** Reads a page that the client has pinned. */
  method ReadPage(pool: DiskBufferPool, held: map<int, Frame>, page: int, ghost s: Plain) returns (reply: Reply)
    requires Holds(pool, held, s)
    ensures reply == PlainReply(s, Read(page))
  {
    hide LruCache.Valid;
    hide MemoryPool.Valid;
    if page !in held {
      return Refused;
    }
    assert pool.PageAt(FrameId(pool.fd, page)) == Some(Page(page, s.pages[page]));
    reply := Data(held[page].page.content);
  }

  /** Changes the data of a pinned page in its frame. */
  method WriteHeld(pool: DiskBufferPool, held: map<int, Frame>, page: int, content: Content, ghost s: Plain)
    requires Holds(pool, held, s) && page in held && page != 0
    modifies pool.manager.frames
    ensures pool.Valid() && Pages(pool, s.pages[page := content])
    ensures forall i :: pool.PinsOf(i) == old(pool.PinsOf(i))
  {
    hide LruCache.Valid;
    hide MemoryPool.Valid;
    hide Roomy;
    hide InRoom;
    ghost var pages := s.pages[page := content];
    assert pool.FrameOk(FrameId(pool.fd, page));
    HeaderIs(pool, s.pages);
    pool.WritePage(held[page], page, content);
    forall p | 0 < p < |pages| ensures pool.PageAt(FrameId(pool.fd, p)) == Some(Page(p, pages[p])) {
      assert old(pool.PageAt(FrameId(pool.fd, p))) == Some(Page(p, s.pages[p]));
    }
    assert pool.FrameOk(pool.HeaderId());
    PagesAre(pool, pages);
  }

  lemma DiskGrows(files: map<FrameId, Page>, fd: int, s: Plain, page: int, content: Content)
    requires Store(s) && 0 < page < |s.pages| && DiskHas(files, fd, s.disk)
    ensures DiskHas(files, fd, Written(s, page, content).disk)
    ensures DiskOk(Written(s, page, content).pages, Written(s, page, content).disk)
  {
  }

  /** Changes the data of a page that the client has pinned, and marks it dirty. */
  method WriteData(pool: DiskBufferPool, held: map<int, Frame>, page: int, content: Content, ghost s: Plain) returns (reply: Reply)
    requires Holds(pool, held, s)
    modifies pool.manager.frames
    ensures reply == PlainReply(s, Write(page, content)) && Holds(pool, held, PlainNext(s, Write(page, content)))
  {
    hide LruCache.Valid;
    hide MemoryPool.Valid;
    hide DiskHas;
    hide DiskOk;
    hide DiskBufferPool.Valid;
    hide Pages;
    hide InFrames;
    hide Roomy;
    hide InRoom;
    if page !in held || page == 0 {
      return Refused;
    }
    ghost var before, t := pool.PinnedPages(), Written(s, page, content);
    RoomIs(pool, s);
    WriteHeld(pool, held, page, content, s);
    PinnedSame(pool, before);
    RoomStays(pool, s, before);
    DiskGrows(pool.files.pages, pool.fd, s, page, content);
    HoldsSame(pool, held, s, t);
    reply := Done;
  }

  lemma AllSynced(pool: DiskBufferPool, pages: seq<Content>)
    requires pool.Valid() && Pages(pool, pages) && pages != [] && pages[0].Header? && |pages| == pages[0].pagesNum
    requires forall i: FrameId :: i.fd == pool.fd && i in pool.files.pages ==> Some(pool.files.pages[i]) == pool.PageAt(i)
    ensures DiskHas(pool.files.pages, pool.fd, Synced(pages))
  {
    HeaderIs(pool, pages);
    forall p | 0 <= p < |pages| ensures FrameId(pool.fd, p) in pool.files.pages && pool.files.pages[FrameId(pool.fd, p)].content == pages[p] {
      assert pool.PageAt(FrameId(pool.fd, p)) == Some(Page(p, pages[p]));
    }
  }

  method Flush(pool: DiskBufferPool, held: map<int, Frame>, ghost s: Plain) returns (reply: Reply)
    requires Holds(pool, held, s)
    modifies pool.files, pool.manager.frames`dirty
    ensures reply == PlainReply(s, Sync) && Holds(pool, held, PlainNext(s, Sync))
  {
    hide DiskHas;
    hide DiskOk;
    hide InRoom;
    hide Roomy;
    hide Synced;
    hide InFrames;
    hide LruCache.Valid;
    hide MemoryPool.Valid;
    ghost var before := pool.PinnedPages();
    RoomIs(pool, s);
    pool.FlushAllPages();
    assert pool.FrameOk(pool.HeaderId());
    forall p | 0 <= p < |s.pages| ensures pool.PageAt(FrameId(pool.fd, p)) == Some(Page(p, s.pages[p])) {
      assert old(pool.PageAt(FrameId(pool.fd, p))) == Some(Page(p, s.pages[p]));
    }
    assert pool.PinnedPages() == before;
    RoomStays(pool, s, before);
    AllSynced(pool, s.pages);
    ghost var t := s.(disk := Synced(s.pages));
    RoomSame(pool, s, t);
    reply := Done;
  }

  /** The header is the first page. */
  lemma PagesAre(pool: DiskBufferPool, pages: seq<Content>)
    requires pool.Valid() && pages != [] && pool.headerFrame.page.content == pages[0] && |pages| == pages[0].pagesNum
    requires forall p {:trigger pages[p]} :: 0 < p < |pages| ==> pool.PageAt(FrameId(pool.fd, p)) == Some(Page(p, pages[p]))
    ensures Pages(pool, pages)
  {
    assert pool.FrameOk(pool.HeaderId());
  }

  /** Which pages are pinned after a pin less. */
  lemma PinnedLess(pool: DiskBufferPool, before: set<FrameId>, id: FrameId, last: bool)
    requires forall i {:trigger pool.PinsOf(i)} :: pool.PinsOf(i) > 0 <==> i in before && !(last && i == id)
    ensures pool.PinnedPages() == before - if last then {id} else {}
  {
    forall i ensures i in pool.PinnedPages() <==> i in before - if last then {id} else {} {
      assert pool.PinsOf(i) > 0 <==> i in before && !(last && i == id);
    }
  }

  lemma SizeDropped<A>(a: set<A>, x: A)
    ensures |a - {x}| == |a| - if x in a then 1 else 0
  {
    if x !in a {
      assert a - {x} == a;
    }
  }

  /** Which pages take up room after a pin less. */
  lemma RoomLess(s: Plain, page: int)
    requires page in s.pins && s.pins[page] > 0
    ensures InRoom(WithoutPin(s, page)) == InRoom(s) - if s.pins[page] == 1 then {page} else {}
  {
    assert WithoutPin(s, page).pins.Keys == s.pins.Keys - if s.pins[page] == 1 then {page} else {};
  }

  lemma PinUncounted(pool: DiskBufferPool, s: Plain, page: int)
    requires page in s.pins && s.pins[page] > 0
    requires forall p {:trigger PinCount(s, p)} ::
      pool.PinsOf(FrameId(pool.fd, p)) == PinCount(s, p) + (if p == 0 then 1 else 0) - if p == page then 1 else 0
    ensures Counts(pool, WithoutPin(s, page))
  {
    var t := WithoutPin(s, page);
    forall p {:trigger PinCount(t, p)}
      ensures pool.PinsOf(FrameId(pool.fd, p)) == PinCount(t, p) + if p == 0 then 1 else 0
    {
      assert PinCount(t, p) == PinCount(s, p) - if p == page then 1 else 0;
    }
  }

  /** The room after a pin less. */
  lemma RoomFreed(pool: DiskBufferPool, s: Plain, page: int, before: set<FrameId>)
    requires page in s.pins && s.pins[page] > 0
    requires |before| + s.room == |pool.manager.frames| + |InRoom(s)| && FrameId(pool.fd, page) in before
    requires pool.PinnedPages() == before - if s.pins[page] == 1 && page != 0 then {FrameId(pool.fd, page)} else {}
    ensures Roomy(pool, WithoutPin(s, page))
  {
    hide InRoom;
    RoomLess(s, page);
    InRoomIs(s, page);
    SizeDropped(before, FrameId(pool.fd, page));
    SizeDropped(InRoom(s), page);
  }

  /** What giving a pin back changes. */
  lemma UnpinMeans(s: Plain, page: int)
    requires Store(s) && page in s.pins
    ensures var t := PlainNext(s, Unpin(page)); var gone := page in s.waiting && s.pins[page] == 1;
      && t.pins == WithoutPin(s, page).pins && t.room == s.room && t.disk == s.disk
      && t.waiting == s.waiting - (if gone then {page} else {})
      && |t.pages| == |s.pages| && t.pages[0] == (if gone then GivePage(s.pages[0], page) else s.pages[0])
      && forall p :: 0 < p < |t.pages| ==> t.pages[p] == s.pages[p]
  {
  }

  /** Gives a pin back through the pool. */
  method LetGo(pool: DiskBufferPool, held: map<int, Frame>, page: int, ghost s: Plain)
    requires Holds(pool, held, s) && page in held
    modifies pool, pool.manager, pool.manager.lru, pool.manager.lru.nodes, pool.manager.pool, pool.files, pool.manager.frames
    ensures pool.Valid() && Pages(pool, PlainNext(s, Unpin(page)).pages)
    ensures pool.disposed == PlainNext(s, Unpin(page)).waiting && OnDisk(pool, s)
    ensures forall i :: pool.PinsOf(i) == old(pool.PinsOf(i)) - if i == FrameId(pool.fd, page) then 1 else 0
    ensures pool.manager.lru.entries == old(pool.manager.lru.entries) -
      if page in s.waiting && s.pins[page] == 1 then {FrameId(pool.fd, page)} else {}
    ensures forall i :: 0 <= i < |pool.manager.lru.nodes| ==> pool.manager.lru.nodes[i] in old(pool.manager.lru.nodes)
  {
    hide LruCache.Valid;
    hide MemoryPool.Valid;
    var f := held[page];
    assert f.pins == pool.PinsOf(FrameId(pool.fd, page)) == PinCount(s, page) + if page == 0 then 1 else 0;
    assert pool.FrameOk(pool.HeaderId()) && pool.PageAt(FrameId(pool.fd, 0)) == Some(Page(0, s.pages[0]));
    ghost var t := PlainNext(s, Unpin(page));
    UnpinMeans(s, page);
    UnpinnedMayBe(pool, held, s);
    hide PlainNext;
    hide DiskHas;
    hide WroteBack;
    hide MayWrite;
    hide DiskOk;
    pool.UnpinPage(f, page);
    DiskKept(old(pool.files.pages), pool.files.pages, old(pool.UnpinnedBut(page)), pool.fd, s.disk);
    forall p | 0 < p < |t.pages| ensures pool.PageAt(FrameId(pool.fd, p)) == Some(Page(p, t.pages[p])) {
      assert old(pool.PageAt(FrameId(pool.fd, p))) == Some(Page(p, s.pages[p]));
    }
    PagesAre(pool, t.pages);
  }

  /** The frames that are still held, the page perhaps having left its own. */
  lemma FramesLeft(before: map<FrameId, Frame>, after: map<FrameId, Frame>, fd: int, held: map<int, Frame>, page: int, last: bool)
    requires InFrames(before, fd, held)
    requires after == before || (last && after == before - {FrameId(fd, page)})
    ensures InFrames(after, fd, if last then held - {page} else held)
  {
  }

  /** Gives a pin back, and counts it. */
  method CountDown(pool: DiskBufferPool, held: map<int, Frame>, page: int, ghost s: Plain)
    requires Holds(pool, held, s) && page in held
    modifies pool, pool.manager, pool.manager.lru, pool.manager.lru.nodes, pool.manager.pool, pool.files, pool.manager.frames
    ensures pool.Valid() && Pages(pool, PlainNext(s, Unpin(page)).pages)
    ensures pool.disposed == PlainNext(s, Unpin(page)).waiting
    ensures Counts(pool, WithoutPin(s, page)) && Roomy(pool, WithoutPin(s, page)) && OnDisk(pool, s)
    ensures pool.manager.lru.entries == old(pool.manager.lru.entries) -
      if page in s.waiting && s.pins[page] == 1 then {FrameId(pool.fd, page)} else {}
    ensures forall i :: 0 <= i < |pool.manager.lru.nodes| ==> pool.manager.lru.nodes[i] in old(pool.manager.lru.nodes)
  {
    hide LruCache.Valid;
    hide MemoryPool.Valid;
    hide DiskBufferPool.Valid;
    hide Pages;
    hide Framed;
    hide Roomy;
    hide InRoom;
    hide PlainNext;
    hide DiskHas;
    ghost var before := pool.PinnedPages();
    ghost var id := FrameId(pool.fd, page);
    assert page in s.pins && s.pins[page] > 0 by {
      HeldIs(pool, held, s, page);
    }
    assert pool.PinsOf(id) == PinCount(s, page) + if page == 0 then 1 else 0;
    RoomIs(pool, s);
    LetGo(pool, held, page, s);
    PinnedLess(pool, before, id, s.pins[page] == 1 && page != 0);
    PinUncounted(pool, s, page);
    RoomFreed(pool, s, page, before);
  }

  lemma HeldIs(pool: DiskBufferPool, held: map<int, Frame>, s: Plain, page: int)
    requires Holds(pool, held, s)
    ensures page in held <==> page in s.pins
    ensures page in held ==> s.pins[page] > 0 && held[page].pins == s.pins[page] + if page == 0 then 1 else 0
  {
    if page in held {
      assert pool.PinsOf(FrameId(pool.fd, page)) == PinCount(s, page) + if page == 0 then 1 else 0;
    }
  }

  /** What holds after the pin is given back. */
  lemma HoldsLess(pool: DiskBufferPool, held: map<int, Frame>, s: Plain, page: int)
    requires Store(s) && page in s.pins
    requires pool.Valid() && Pages(pool, PlainNext(s, Unpin(page)).pages) && pool.disposed == PlainNext(s, Unpin(page)).waiting
    requires Counts(pool, WithoutPin(s, page)) && Roomy(pool, WithoutPin(s, page))
    requires OnDisk(pool, s)
    requires held.Keys == WithoutPin(s, page).pins.Keys && InFrames(pool.manager.lru.entries, pool.fd, held)
    ensures Holds(pool, held, PlainNext(s, Unpin(page)))
  {
    hide DiskHas;
    hide LruCache.Valid;
    hide MemoryPool.Valid;
    hide DiskBufferPool.Valid;
    hide Pages;
    UnpinMeans(s, page);
    hide PlainNext;
    RoomSame(pool, WithoutPin(s, page), PlainNext(s, Unpin(page)));
  }

  /** Gives a pin back; the last one of a page that waits gives the page up. */
  method UnpinPage(pool: DiskBufferPool, held: map<int, Frame>, page: int, ghost s: Plain)
    returns (reply: Reply, newHeld: map<int, Frame>)
    requires Holds(pool, held, s)
    modifies pool, pool.manager, pool.manager.lru, pool.manager.lru.nodes, pool.manager.pool, pool.files, pool.manager.frames
    ensures reply == PlainReply(s, Unpin(page)) && Holds(pool, newHeld, PlainNext(s, Unpin(page)))
    ensures forall i :: 0 <= i < |pool.manager.lru.nodes| ==> pool.manager.lru.nodes[i] in old(pool.manager.lru.nodes)
  {
    hide DiskHas;
    hide DiskBufferPool.Valid;
    hide Pages;
    hide Roomy;
    hide Counts;
    hide InFrames;
    HeldIs(pool, held, s, page);
    if page !in held {
      return Refused, held;
    }
    var last := held[page].pins == if page == 0 then 2 else 1;
    ghost var frames := pool.manager.lru.entries;
    CountDown(pool, held, page, s);
    reply, newHeld := Done, if last then held - {page} else held;
    FramesLeft(frames, pool.manager.lru.entries, pool.fd, held, page, last);
    assert newHeld.Keys == WithoutPin(s, page).pins.Keys;
    HoldsLess(pool, newHeld, s, page);
  }

  /** Room and pins do not depend on the data of the pages. */
  lemma RoomSame(pool: DiskBufferPool, s: Plain, t: Plain)
    requires Roomy(pool, s) && Counts(pool, s) && s.pins == t.pins && s.room == t.room
    ensures Roomy(pool, t) && Counts(pool, t)
  {
    forall p {:trigger PinCount(t, p)}
      ensures pool.PinsOf(FrameId(pool.fd, p)) == PinCount(t, p) + if p == 0 then 1 else 0
    {
      assert PinCount(t, p) == PinCount(s, p);
    }
  }

  /** What giving a page up changes. */
  lemma DisposeMeans(s: Plain, page: int)
    requires Store(s) && page > 0 && Allocated(s.pages[0], page)
    ensures var t := PlainNext(s, Dispose(page)); var kept := page in s.pins;
      && t.pins == s.pins && t.room == s.room && t.disk == s.disk && t.waiting == s.waiting + (if kept then {page} else {})
      && |t.pages| == |s.pages| && t.pages[0] == (if kept then s.pages[0] else GivePage(s.pages[0], page))
      && forall p :: 0 < p < |t.pages| ==> t.pages[p] == s.pages[p]
  {
  }

  /** Gives a page up through the pool. */
  method GiveUp(pool: DiskBufferPool, held: map<int, Frame>, page: int, ghost s: Plain) returns (r: Re)
    requires Holds(pool, held, s) && page > 0 && Allocated(s.pages[0], page)
    modifies pool, pool.manager, pool.manager.lru, pool.manager.lru.nodes, pool.manager.pool, pool.files, pool.manager.frames
    ensures pool.Valid() && Pages(pool, PlainNext(s, Dispose(page)).pages)
    ensures pool.disposed == PlainNext(s, Dispose(page)).waiting && OnDisk(pool, s)
    ensures r == if page in s.pins then LockedUnlock else Success
    ensures forall i :: pool.PinsOf(i) == old(pool.PinsOf(i))
    ensures pool.manager.lru.entries == old(pool.manager.lru.entries) - if page in s.pins then {} else {FrameId(pool.fd, page)}
    ensures forall i :: 0 <= i < |pool.manager.lru.nodes| ==> pool.manager.lru.nodes[i] in old(pool.manager.lru.nodes)
  {
    hide Roomy;
    hide InRoom;
    hide LruCache.Valid;
    hide MemoryPool.Valid;
    assert pool.PinsOf(FrameId(pool.fd, page)) == PinCount(s, page);
    HeaderIs(pool, s.pages);
    UnpinnedMayBe(pool, held, s);
    ghost var t := PlainNext(s, Dispose(page));
    DisposeMeans(s, page);
    assert page !in s.pins ==> page !in pool.disposed;
    hide PlainNext;
    hide Counts;
    hide Framed;
    hide Roomy;
    hide Store;
    hide DiskHas;
    hide WroteBack;
    hide MayWrite;
    hide DiskOk;
    r := pool.DisposePage(page);
    DiskKept(old(pool.files.pages), pool.files.pages, old(pool.UnpinnedPages()), pool.fd, s.disk);
    assert page !in s.pins ==> pool.disposed - {page} == pool.disposed;
    forall p | 0 < p < |t.pages| ensures pool.PageAt(FrameId(pool.fd, p)) == Some(Page(p, t.pages[p])) {
      assert old(pool.PageAt(FrameId(pool.fd, p))) == Some(Page(p, s.pages[p]));
    }
    PagesAre(pool, t.pages);
  }

  lemma FramesKept(before: map<FrameId, Frame>, after: map<FrameId, Frame>, fd: int, held: map<int, Frame>, page: int)
    requires InFrames(before, fd, held)
    requires after == before || (page !in held && after == before - {FrameId(fd, page)})
    ensures InFrames(after, fd, held)
  {
  }

  /** The pins stay as they are. */
  lemma PinnedSame(pool: DiskBufferPool, before: set<FrameId>)
    requires forall i {:trigger pool.PinsOf(i)} :: pool.PinsOf(i) > 0 <==> i in before
    ensures pool.PinnedPages() == before
  {
    forall i ensures i in pool.PinnedPages() <==> i in before {
      assert pool.PinsOf(i) > 0 <==> i in before;
    }
  }

  /** What holds after a step that pinned nothing and gave no pin back. */
  lemma HoldsSame(pool: DiskBufferPool, held: map<int, Frame>, s: Plain, t: Plain)
    requires Store(t) && t.pins == s.pins && t.room == s.room
    requires pool.Valid() && Pages(pool, t.pages) && pool.disposed == t.waiting
    requires Counts(pool, s) && Roomy(pool, s) && OnDisk(pool, t)
    requires held.Keys == s.pins.Keys && InFrames(pool.manager.lru.entries, pool.fd, held)
    ensures Holds(pool, held, t)
  {
    hide DiskHas;
    hide DiskBufferPool.Valid;
    hide Pages;
    RoomSame(pool, s, t);
  }

  /** Gives an allocated page up. */
  method GiveAllocated(pool: DiskBufferPool, held: map<int, Frame>, page: int, ghost s: Plain) returns (r: Re)
    requires Holds(pool, held, s) && page > 0 && Allocated(s.pages[0], page)
    modifies pool, pool.manager, pool.manager.lru, pool.manager.lru.nodes, pool.manager.pool, pool.files, pool.manager.frames
    ensures r == (if page in s.pins then LockedUnlock else Success) && Holds(pool, held, PlainNext(s, Dispose(page)))
    ensures forall i :: 0 <= i < |pool.manager.lru.nodes| ==> pool.manager.lru.nodes[i] in old(pool.manager.lru.nodes)
  {
    hide DiskHas;
    hide Roomy;
    hide InRoom;
    hide DiskBufferPool.Valid;
    hide Pages;
    hide Roomy;
    hide InFrames;
    ghost var t := PlainNext(s, Dispose(page));
    DisposeMeans(s, page);
    ghost var before, frames := pool.PinnedPages(), pool.manager.lru.entries;
    RoomIs(pool, s);
    r := GiveUp(pool, held, page, s);
    hide PlainNext;
    PinnedSame(pool, before);
    FramesKept(frames, pool.manager.lru.entries, pool.fd, held, page);
    RoomStays(pool, s, before);
    HoldsSame(pool, held, s, t);
  }

  method Check(pool: DiskBufferPool, held: map<int, Frame>, page: nat, ghost s: Plain) returns (r: Re)
    requires Holds(pool, held, s)
    ensures r == if Allocated(s.pages[0], page) then Success else BufferPoolInvalidPageId
  {
    HeaderIs(pool, s.pages);
    r := pool.CheckPageId(page);
  }

  /** Gives a page up: at once, or at its last unpin. */
  method Give(pool: DiskBufferPool, held: map<int, Frame>, page: int, ghost s: Plain) returns (reply: Reply)
    requires Holds(pool, held, s)
    modifies pool, pool.manager, pool.manager.lru, pool.manager.lru.nodes, pool.manager.pool, pool.files, pool.manager.frames
    ensures reply == PlainReply(s, Dispose(page)) && Holds(pool, held, PlainNext(s, Dispose(page)))
    ensures forall i :: 0 <= i < |pool.manager.lru.nodes| ==> pool.manager.lru.nodes[i] in old(pool.manager.lru.nodes)
  {
    hide DiskBufferPool.Valid;
    hide Pages;
    hide Pinned;
    hide Framed;
    hide Roomy;
    if page <= 0 {
      return Refused;
    }
    var r := Check(pool, held, page, s);
    if r != Success {
      return Failed(r);
    }
    r := GiveAllocated(pool, held, page, s);
    reply := if r == Success then Done else Failed(r);
  }

  lemma HeaderIs(pool: DiskBufferPool, pages: seq<Content>)
    requires pool.Valid() && Pages(pool, pages) && pages != []
    ensures pool.headerFrame.page.content == pages[0]
  {
    assert pool.FrameOk(pool.HeaderId()) && pool.PageAt(FrameId(pool.fd, 0)) == Some(Page(0, pages[0]));
  }

  /** The pages that the clients hold frames of are pinned. */
  lemma HeldPinned(pool: DiskBufferPool, held: map<int, Frame>, s: Plain)
    requires Holds(pool, held, s)
    ensures forall p :: p in held ==> pool.PinsOf(FrameId(pool.fd, p)) > 0
  {
    forall p | p in held ensures pool.PinsOf(FrameId(pool.fd, p)) > 0 {
      assert PinCount(s, p) > 0;
    }
  }

  lemma FramesStay(pool: DiskBufferPool, before: map<FrameId, Frame>, held: map<int, Frame>)
    requires InFrames(before, pool.fd, held)
    requires forall p :: p in held ==> pool.SameFrame(FrameId(pool.fd, p), before)
    ensures InFrames(pool.manager.lru.entries, pool.fd, held)
  {
    forall p | p in held
      ensures FrameId(pool.fd, p) in pool.manager.lru.entries && pool.manager.lru.entries[FrameId(pool.fd, p)] == held[p]
    {
      assert pool.SameFrame(FrameId(pool.fd, p), before);
    }
  }

  /** How taking a page ends. */
  ghost function TakeOutcome(s: Plain): Re
    requires Store(s)
  {
    var p := NextPageOf(s.pages[0]);
    if p < |s.pages| then PinOutcome(s, p)
    else if p >= MAX_PAGES then BufferPoolNoBuf
    else if |InRoom(s)| >= s.room then NoMem else Success
  }

  /** What taking a page changes. */
  lemma AllocateMeans(s: Plain)
    requires Store(s)
    ensures var t := PlainNext(s, Allocate); var p := NextPageOf(s.pages[0]); var ok := TakeOutcome(s) == Success;
      && PlainReply(s, Allocate) == (if ok then Taken(p) else Failed(TakeOutcome(s)))
      && 0 < p <= |s.pages| && t.pins == (if ok then WithPin(s, p) else s).pins && t.room == s.room && t.waiting == s.waiting && t.disk == s.disk
      && |t.pages| == |s.pages| + (if ok && p == |s.pages| then 1 else 0)
      && t.pages[0] == (if ok || p < |s.pages| then TakePage(s.pages[0], p) else s.pages[0])
      && (forall q :: 0 < q < |s.pages| ==> t.pages[q] == s.pages[q])
      && (ok && p == |s.pages| ==> t.pages[p] == ZeroPage())
  {
  }

  /** Takes a page through the pool. */
  method TakePinned(pool: DiskBufferPool, held: map<int, Frame>, ghost s: Plain) returns (r: Re, f: Frame?, ghost page: int)
    requires Holds(pool, held, s)
    modifies pool, pool.manager, pool.manager.lru, pool.manager.lru.nodes, pool.manager.pool, pool.files, pool.manager.frames
    ensures pool.Valid() && page == NextPageOf(s.pages[0]) && r == TakeOutcome(s)
    ensures Pages(pool, PlainNext(s, Allocate).pages) && pool.disposed == s.waiting
    ensures InFrames(pool.manager.lru.entries, pool.fd, held) && OnDisk(pool, s)
    ensures r == Success ==>
      FrameId(pool.fd, page) in pool.manager.lru.entries && pool.manager.lru.entries[FrameId(pool.fd, page)] == f
    ensures r == Success ==> f != null && f.page.pageId == page
    ensures forall i :: pool.PinsOf(i) == old(pool.PinsOf(i)) + if r == Success && i == FrameId(pool.fd, page) then 1 else 0
    ensures forall i :: 0 <= i < |pool.manager.lru.nodes| ==>
          pool.manager.lru.nodes[i] in old(pool.manager.lru.nodes) || fresh(pool.manager.lru.nodes[i])
  {
    hide Roomy;
    hide InRoom;
    hide LruCache.Valid;
    hide MemoryPool.Valid;
    RoomMeans(pool, held, s);
    HeaderIs(pool, s.pages);
    HeldPinned(pool, held, s);
    UnpinnedMayBe(pool, held, s);
    ghost var t, before := PlainNext(s, Allocate), pool.manager.lru.entries;
    AllocateMeans(s);
    hide PlainNext;
    hide Counts;
    hide InFrames;
    hide InRoom;
    hide PinOutcome;
    hide DiskHas;
    hide WroteBack;
    hide MayWrite;
    hide DiskOk;
    ghost var victim;
    r, f, page, victim := pool.AllocatePage();
    DiskKept(old(pool.files.pages), pool.files.pages, old(pool.UnpinnedPages()), pool.fd, s.disk);
    OneNextPage(s.pages[0], page);
    forall p | 0 < p < |t.pages| ensures pool.PageAt(FrameId(pool.fd, p)) == Some(Page(p, t.pages[p])) {
      assert p < |s.pages| ==> old(pool.PageAt(FrameId(pool.fd, p))) == Some(Page(p, s.pages[p]));
    }
    PagesAre(pool, t.pages);
    forall p | p in held ensures pool.SameFrame(FrameId(pool.fd, p), before) {
      assert old(pool.PinsOf(FrameId(pool.fd, p))) > 0;
    }
    FramesStay(pool, before, held);
    if r == Success {
      assert pool.FrameOk(FrameId(pool.fd, page));
    }
  }

  lemma PinnedAre(pool: DiskBufferPool, s: Plain)
    requires Counts(pool, s)
    ensures forall p :: FrameId(pool.fd, p) in pool.PinnedPages() <==> p == 0 || PinCount(s, p) > 0
  {
    forall p ensures FrameId(pool.fd, p) in pool.PinnedPages() <==> p == 0 || PinCount(s, p) > 0 {
      assert pool.PinsOf(FrameId(pool.fd, p)) == PinCount(s, p) + if p == 0 then 1 else 0;
    }
  }

  /** Takes a page and pins it. */
  method Take(pool: DiskBufferPool, held: map<int, Frame>, ghost s: Plain) returns (reply: Reply, newHeld: map<int, Frame>)
    requires Holds(pool, held, s)
    modifies pool, pool.manager, pool.manager.lru, pool.manager.lru.nodes, pool.manager.pool, pool.files, pool.manager.frames
    ensures reply == PlainReply(s, Allocate) && Holds(pool, newHeld, PlainNext(s, Allocate))
    ensures forall i :: 0 <= i < |pool.manager.lru.nodes| ==>
          pool.manager.lru.nodes[i] in old(pool.manager.lru.nodes) || fresh(pool.manager.lru.nodes[i])
  {
    hide DiskHas;
    hide LruCache.Valid;
    hide MemoryPool.Valid;
    hide DiskBufferPool.Valid;
    hide Pages;
    hide InFrames;
    hide Roomy;
    hide InRoom;
    ghost var before, t := pool.PinnedPages(), PlainNext(s, Allocate);
    AllocateMeans(s);
    PinnedAre(pool, s);
    RoomIs(pool, s);
    hide PlainNext;
    var r: Re, f: Frame?;
    ghost var page;
    r, f, page := TakePinned(pool, held, s);
    if r != Success {
      PinnedSame(pool, before);
      RoomStays(pool, s, before);
      HoldsSame(pool, held, s, t);
      return Failed(r), held;
    }
    reply, newHeld := Taken(f.page.pageId), held[f.page.pageId := f];
    TakenPin(pool, held, s, page, f, before);
  }

  /** What holds after a page was taken and pinned. */
  lemma TakenPin(pool: DiskBufferPool, held: map<int, Frame>, s: Plain, page: int, f: Frame, before: set<FrameId>)
    requires Store(s) && page == NextPageOf(s.pages[0]) && TakeOutcome(s) == Success
    requires pool.Valid() && Pages(pool, PlainNext(s, Allocate).pages) && pool.disposed == s.waiting
    requires Framed(pool, held, s) && OnDisk(pool, s)
    requires FrameId(pool.fd, page) in pool.manager.lru.entries && pool.manager.lru.entries[FrameId(pool.fd, page)] == f
    requires forall p {:trigger PinCount(s, p)} ::
      pool.PinsOf(FrameId(pool.fd, p)) == PinCount(s, p) + (if p == 0 then 1 else 0) + if p == page then 1 else 0
    requires |before| + s.room == |pool.manager.frames| + |InRoom(s)|
    requires FrameId(pool.fd, page) in before <==> page == 0 || PinCount(s, page) > 0
    requires forall i {:trigger pool.PinsOf(i)} :: pool.PinsOf(i) > 0 <==> i in before || i == FrameId(pool.fd, page)
    ensures Holds(pool, held[page := f], PlainNext(s, Allocate))
  {
    hide DiskHas;
    hide DiskBufferPool.Valid;
    hide Pages;
    hide InFrames;
    hide InRoom;
    AllocateMeans(s);
    PinnedMore(pool, before, FrameId(pool.fd, page));
    PinCounted(pool, s, page);
    AddPin(pool, held, s, page, f, before);
    hide Roomy;
    ghost var t := PlainNext(s, Allocate);
    hide PlainNext;
    hide Counts;
    HoldsSame(pool, held[page := f], WithPin(s, page), t);
  }

  method Step(pool: DiskBufferPool, held: map<int, Frame>, op: Op, ghost s: Plain) returns (reply: Reply, newHeld: map<int, Frame>)
    requires Holds(pool, held, s)
    modifies pool, pool.manager, pool.manager.lru, pool.manager.lru.nodes, pool.manager.pool, pool.files, pool.manager.frames
    ensures reply == PlainReply(s, op) && Holds(pool, newHeld, PlainNext(s, op))
    ensures forall i :: 0 <= i < |pool.manager.lru.nodes| ==>
          pool.manager.lru.nodes[i] in old(pool.manager.lru.nodes) || fresh(pool.manager.lru.nodes[i])
  {
    hide DiskHas;
    hide DiskBufferPool.Valid;
    hide Pages;
    hide Pinned;
    hide Framed;
    hide Roomy;
    newHeld := held;
    match op {
      case Pin(p) => reply, newHeld := PinPage(pool, held, p, s);
      case Read(p) => reply := ReadPage(pool, held, p, s);
      case Write(p, c) => reply := WriteData(pool, held, p, c, s);
      case Unpin(p) => reply, newHeld := UnpinPage(pool, held, p, s);
      case Allocate => reply, newHeld := Take(pool, held, s);
      case Dispose(p) => reply := Give(pool, held, p, s);
      case Sync => reply := Flush(pool, held, s);
    }
  }

  /** Any run of operations on the pool replies what the plain list replies, and ends holding what it holds,
      with the same pages pinned and the same pages waiting to be given up. */
  method Run(pool: DiskBufferPool, held: map<int, Frame>, ops: seq<Op>, ghost s: Plain)
    returns (replies: seq<Reply>, newHeld: map<int, Frame>)
    requires Store(s) && Holds(pool, held, s)
    modifies pool, pool.manager, pool.manager.lru, pool.manager.lru.nodes, pool.manager.pool, pool.files, pool.manager.frames
    ensures replies == PlainRun(s, ops) && Holds(pool, newHeld, PlainFinal(s, ops))
  {
    hide DiskHas;
    hide DiskBufferPool.Valid;
    hide Pages;
    hide Pinned;
    hide Framed;
    hide Roomy;
    replies, newHeld := [], held;
    ghost var t := s;
    {
      hide Holds;
      hide PlainReply;
      hide PlainNext;
      for n := 0 to |ops|
        invariant Store(t) && Holds(pool, newHeld, t)
        invariant replies + PlainRun(t, ops[n..]) == PlainRun(s, ops)
        invariant PlainFinal(t, ops[n..]) == PlainFinal(s, ops)
        invariant forall i :: 0 <= i < |pool.manager.lru.nodes| ==>
          pool.manager.lru.nodes[i] in old(pool.manager.lru.nodes) || fresh(pool.manager.lru.nodes[i])
      {
        assert ops[n..][0] == ops[n] && ops[n..][1..] == ops[n + 1..];
        var reply;
        reply, newHeld := Step(pool, newHeld, ops[n], t);
        replies := replies + [reply];
        t := PlainNext(t, ops[n]);
      }
      assert replies == PlainRun(s, ops) && t == PlainFinal(s, ops);
    }
  }

  /** What was flushed is there again for a pool that starts with an empty cache; nothing is pinned there,
      and no page waits. */
  method Restart(pool: DiskBufferPool, held: map<int, Frame>, poolNum: nat, ghost s: Plain)
    returns (reopened: DiskBufferPool, ghost room: nat)
    requires Holds(pool, held, s) && poolNum > 0
    modifies pool.files, pool.manager.frames`dirty
    ensures fresh(reopened) && Holds(reopened, map[], Plain(s.pages, map[], {}, room, Synced(s.pages)))
  {
    hide LruCache.Valid;
    hide MemoryPool.Valid;
    pool.FlushAllPages();
    var m := new FrameManager(poolNum);
    m.FrameCount();
    forall p | 0 <= p < |s.pages|
      ensures FrameId(pool.fd, p) in pool.files.pages && pool.files.pages[FrameId(pool.fd, p)] == Page(p, s.pages[p])
    {
      assert pool.PageAt(FrameId(pool.fd, p)) == Some(Page(p, s.pages[p]));
    }
    reopened, room := OpenFresh(m, pool, s.pages);
  }

  /** What the file holds, page by page. */
  ghost function Found(files: map<FrameId, Page>, fd: int, disk: seq<set<Content>>): (found: seq<Content>)
    requires DiskHas(files, fd, disk)
    ensures |found| == |disk| && forall p :: 0 <= p < |found| ==> found[p] == files[FrameId(fd, p)].content && found[p] in disk[p]
  {
    seq(|disk|, p requires 0 <= p < |disk| => files[FrameId(fd, p)].content)
  }

  /** Without a flush the file is in order exactly when no page was added since the last one: the stored header
      does not count such a page, which is in the file already. */
  lemma Unflushed(pool: DiskBufferPool, held: map<int, Frame>, s: Plain)
    requires Holds(pool, held, s)
    ensures pool.files.FileOk(pool.fd) <==> |s.disk| == |s.pages|
    ensures var found := Found(pool.files.pages, pool.fd, s.disk); HeaderOk(found[0]) && found[0].pagesNum == |found|
  {
    HeaderIs(pool, s.pages);
    var found := Found(pool.files.pages, pool.fd, s.disk);
    assert found[0] in s.disk[0];
    assert FrameId(pool.fd, |s.disk|) in pool.files.pages <==> |s.disk| < |s.pages|;
  }

  /** A restart without a flush finds, for each page, what the last `Sync` wrote, or something written since. */
  method RestartUnflushed(pool: DiskBufferPool, held: map<int, Frame>, poolNum: nat, ghost s: Plain)
    returns (reopened: DiskBufferPool, ghost room: nat, ghost found: seq<Content>)
    requires Holds(pool, held, s) && poolNum > 0 && |s.disk| == |s.pages|
    modifies pool.files
    ensures fresh(reopened) && Holds(reopened, map[], Plain(found, map[], {}, room, Synced(found)))
    ensures |found| == |s.disk| && forall p :: 0 <= p < |found| ==> found[p] in s.disk[p]
  {
    hide LruCache.Valid;
    hide MemoryPool.Valid;
    Unflushed(pool, held, s);
    found := Found(pool.files.pages, pool.fd, s.disk);
    var m := new FrameManager(poolNum);
    m.FrameCount();
    forall p | 0 <= p < |found| ensures pool.files.pages[FrameId(pool.fd, p)] == Page(p, found[p]) {
      assert pool.StoredOk(FrameId(pool.fd, p));
    }
    reopened, room := OpenFresh(m, pool, found);
  }

  /** An empty cache can only write back what is on disk. */
  lemma NothingElse(pool: DiskBufferPool, pages: seq<Content>)
    requires pool.manager.lru.entries == map[]
    requires forall p :: 0 <= p < |pages| ==>
      FrameId(pool.fd, p) in pool.files.pages && pool.files.pages[FrameId(pool.fd, p)] == Page(p, pages[p])
    ensures DiskHas(pool.files.pages, pool.fd, Synced(pages)) && MayWrite(pool.UnpinnedPages(), pool.fd, Synced(pages))
  {
    forall p {:trigger Synced(pages)[p]} | 0 <= p < |pages| ensures pool.PageAt(FrameId(pool.fd, p)) == Some(Page(p, pages[p])) {
      assert 0 <= p < |pages|;
    }
  }

  method OpenFresh(m: FrameManager, pool: DiskBufferPool, ghost pages: seq<Content>)
    returns (reopened: DiskBufferPool, ghost room: nat)
    requires Store(Plain(pages, map[], {}, 0, Synced(pages))) && m.Valid() && m.lru.entries == map[] && |m.pool.free| > 1
    requires pool.Coherent(None) && pool.files.FileOk(pool.fd)
    requires |m.frames| == |m.pool.free|
    requires forall p :: 0 <= p < |pages| ==>
      FrameId(pool.fd, p) in pool.files.pages && pool.files.pages[FrameId(pool.fd, p)] == Page(p, pages[p])
    modifies m, m.lru, m.lru.nodes, m.pool, m.frames, pool.files
    ensures fresh(reopened) && Holds(reopened, map[], Plain(pages, map[], {}, room, Synced(pages)))
  {
    hide LruCache.Valid;
    hide MemoryPool.Valid;
    hide DiskOk;
    hide HeaderOk;
    hide DiskHas;
    hide Synced;
    hide WroteBack;
    hide MayWrite;
    reopened := new DiskBufferPool(m, pool.files, pool.fd);
    forall i | i in reopened.files.pages ensures reopened.StoredOk(i) {
      assert pool.StoredOk(i);
    }
    label before:
    NothingElse(reopened, pages);
    var r := reopened.OpenFile();
    DiskKept(old@before(pool.files.pages), pool.files.pages, old@before(reopened.UnpinnedPages()), pool.fd, Synced(pages));
    forall p | 0 < p < |pages| ensures reopened.PageAt(FrameId(pool.fd, p)) == Some(Page(p, pages[p])) {
      assert old@before(reopened.PageAt(FrameId(pool.fd, p))) == Some(Page(p, pages[p]));
    }
    assert reopened.FrameOk(reopened.HeaderId());
    assert old@before(reopened.PageAt(FrameId(pool.fd, 0))) == Some(Page(0, pages[0]));
    PagesAre(reopened, pages);
    room := |m.frames| - 1;
    forall i: FrameId ensures reopened.PinsOf(i) == if i == reopened.HeaderId() then 1 else 0 {
      assert i != reopened.HeaderId() ==> old@before(reopened.PinsOf(i)) == 0;
    }
    FreshHolds(reopened, Plain(pages, map[], {}, room, Synced(pages)));
  }

  /** Only the header is pinned. */
  lemma FreshHolds(pool: DiskBufferPool, s: Plain)
    requires pool.Valid() && Store(s) && Pages(pool, s.pages) && OnDisk(pool, s)
    requires s.pins == map[] && s.waiting == {} == pool.disposed && s.room + 1 == |pool.manager.frames|
    requires forall i {:trigger pool.PinsOf(i)} :: pool.PinsOf(i) == if i == pool.HeaderId() then 1 else 0
    ensures Holds(pool, map[], s)
  {
    hide DiskBufferPool.Valid;
    hide Pages;
    hide DiskOk;
    hide DiskHas;
    PinnedMore(pool, {}, pool.HeaderId());
    assert pool.PinnedPages() == {pool.HeaderId()} && InRoom(s) == {};
  }
}
