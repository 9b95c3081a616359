/** The buffer pool of a file: a cache of its pages with pins, eviction and write-back. */
module BufferPool {
  import opened ReturnCodes
  import opened Keys
  import opened LruCache
  import opened FrameManager
  import opened PageHeader
  import opened CacheUse

  /** The open files: the pages stored on disk. */
  class FileSystem {
    var pages: map<FrameId, Page>

    constructor ()
      ensures pages == map[]
    {
      pages := map[];
    }

    /** The file has exactly the pages that its stored header counts. */
    ghost predicate FileOk(fd: int)
      reads this
    {
      && FrameId(fd, 0) in pages && HeaderOk(pages[FrameId(fd, 0)].content)
      && forall p {:trigger FrameId(fd, p) in pages} ::
        FrameId(fd, p) in pages <==> 0 <= p < pages[FrameId(fd, 0)].content.pagesNum
    }

    /** Creates a file of one page, its header. */
    method CreateFile(fd: int)
      requires forall id :: id in pages ==> id.fd != fd
      modifies this
      ensures pages == old(pages)[FrameId(fd, 0) := Page(0, FreshHeader())] && FileOk(fd)
    {
      FreshHeaderOk();
      pages := pages[FrameId(fd, 0) := Page(0, FreshHeader())];
      assert forall p :: FrameId(fd, p) in pages <==> p == 0;
    }
  }

  class DiskBufferPool {
    const manager: FrameManager
    const files: FileSystem
    const fd: int
    var headerFrame: Frame?
    var disposed: set<int>

    /** A cached page is the one its frame says, is on disk, and differs from disk only in a dirty frame. */
    ghost predicate FrameOk(id: FrameId)
      requires id in manager.lru.entries
      reads manager.lru, manager.lru.entries.Values, files
    {
      var f := manager.lru.entries[id];
      && f.fd == id.fd && f.page.pageId == id.page
      && id in files.pages
      && (f.dirty || f.page == files.pages[id])
    }

    ghost predicate StoredOk(id: FrameId)
      requires id in files.pages
      reads files
    {
      files.pages[id].pageId == id.page && id.page >= 0
    }

    /** The frames agree with the disk, except perhaps the one for page `spare`, just allocated. */
    ghost predicate Coherent(spare: Option<FrameId>)
      reads manager.lru, manager.lru.entries.Values, files
    {
      && (forall id {:trigger FrameOk(id)} :: id in manager.lru.entries && Some(id) != spare ==> FrameOk(id))
      && (forall id {:trigger StoredOk(id)} :: id in files.pages ==> StoredOk(id))
    }

    /** What a page holds: its frame if it is cached, else what is on disk. */
    ghost function PageAt(id: FrameId): Option<Page>
      reads manager.lru, manager.lru.entries.Values, files
    {
      if id in manager.lru.entries then Some(manager.lru.entries[id].page)
      else if id in files.pages then Some(files.pages[id])
      else None
    }

    ghost function PinsOf(id: FrameId): nat
      reads manager.lru, manager.lru.entries.Values
    {
      if id in manager.lru.entries then manager.lru.entries[id].pins else 0
    }

    /** What the pages hold that nobody has pinned. */
    ghost function UnpinnedPages(): imap<FrameId, Page>
      reads manager.lru, manager.lru.entries.Values, files
    {
      imap i | PinsOf(i) == 0 && PageAt(i).Some? :: PageAt(i).value
    }

    /** What the pages would hold that nobody has pinned, were the one pin of a page given back. */
    ghost function UnpinnedBut(page: int): imap<FrameId, Page>
      reads manager.lru, manager.lru.entries.Values, files
    {
      imap i | PinsOf(i) == (if i == FrameId(fd, page) then 1 else 0) && PageAt(i).Some? :: PageAt(i).value
    }

    constructor (manager: FrameManager, files: FileSystem, fd: int)
      ensures this.manager == manager && this.files == files && this.fd == fd
      ensures headerFrame == null && disposed == {}
    {
      this.manager, this.files, this.fd, headerFrame, disposed := manager, files, fd, null, {};
    }

    /** Writes a frame back to the file it belongs to. */
    method FlushFrame(f: Frame, ghost id: FrameId)
      requires manager.Valid() && Coherent(None)
      requires id in manager.lru.entries && manager.lru.entries[id] == f
      modifies files, f`dirty
      ensures Coherent(None) && !f.dirty
      ensures id in old(files.pages) && files.pages == old(files.pages)[id := f.page]
      ensures forall i :: PageAt(i) == old(PageAt(i))
    {
      assert FrameOk(id);
      files.pages := files.pages[FrameId(f.fd, f.page.pageId) := f.page];
      f.dirty := false;
      forall i | i in manager.lru.entries ensures FrameOk(i) {
        assert old(FrameOk(i));
      }
      forall i | i in files.pages ensures StoredOk(i) {
        assert i != id ==> old(StoredOk(i));
        assert old(StoredOk(id));
      }
    }

    /** Gives the frame of an unpinned page back, writing it to disk first when it is dirty. */
    method Evict(f: Frame, ghost id: FrameId)
      requires manager.Valid() && Coherent(None)
      requires id in manager.lru.entries && manager.lru.entries[id] == f && f.pins == 0
      modifies manager, manager.lru, manager.lru.nodes, manager.pool, files, f`dirty
      ensures manager.Valid() && Coherent(None)
      ensures manager.lru.entries == old(manager.lru.entries) - {id}
      ensures manager.pool.free == old(manager.pool.free) + [f]
      ensures manager.lru.history == old(manager.lru.history) + [id]
      ensures forall i :: PageAt(i) == old(PageAt(i)) && PinsOf(i) == old(PinsOf(i))
      ensures files.pages.Keys == old(files.pages.Keys) && WroteBack(old(files.pages), files.pages, old(UnpinnedPages()))
      ensures forall i :: 0 <= i < |manager.lru.nodes| ==> manager.lru.nodes[i] in old(manager.lru.nodes)
    {
      hide LruCache.Valid;
      hide MemoryPool.Valid;
      assert FrameOk(id);
      if f.dirty {
        FlushFrame(f, id);
      }
      label flushed:
      assert FrameOk(id) && f.page == files.pages[id];
      var freed := manager.Free(f.fd, f.page.pageId, f);
      assert freed;
      forall i | i in manager.lru.entries ensures FrameOk(i) {
        assert old@flushed(FrameOk(i));
      }
      forall i | i in files.pages ensures StoredOk(i) {
        assert old@flushed(StoredOk(i));
      }
    }

    /** Takes a free frame for a page that is not cached, if there is one. */
    method TakeFrame(page: int) returns (f: Frame?)
      requires manager.Valid() && Coherent(None) && FrameId(fd, page) !in manager.lru.entries
      modifies manager, manager.lru, manager.lru.nodes, manager.pool
      ensures manager.Valid() && (f == null <==> old(manager.pool.free) == [])
      ensures f == null ==> Coherent(None) && manager.lru.entries == old(manager.lru.entries)
      ensures f == null ==> manager.pool.free == [] && manager.lru.history == old(manager.lru.history)
      ensures f != null ==> manager.lru.entries == old(manager.lru.entries)[FrameId(fd, page) := f]
      ensures f != null ==> Coherent(Some(FrameId(fd, page))) && f in manager.frames
      ensures f != null ==> manager.lru.history == old(manager.lru.history) + [FrameId(fd, page)]
      ensures forall i :: i != FrameId(fd, page) ==> PageAt(i) == old(PageAt(i)) && PinsOf(i) == old(PinsOf(i))
      ensures forall i :: 0 <= i < |manager.lru.nodes| ==>
          manager.lru.nodes[i] in old(manager.lru.nodes) || fresh(manager.lru.nodes[i])
    {
      hide LruCache.Valid;
      hide MemoryPool.Valid;
      f := manager.Alloc(fd, page);
      forall i | i in manager.lru.entries && i != FrameId(fd, page) ensures FrameOk(i) {
        assert old(FrameOk(i));
      }
      forall i | i in files.pages ensures StoredOk(i) {
        assert old(StoredOk(i));
      }
    }

    /** The cached pages that nobody has pinned. */
    ghost function Unpinned(): set<FrameId>
      reads manager.lru, manager.lru.entries.Values
    {
      set i | i in manager.lru.entries && PinsOf(i) == 0
    }

    /** Evicts the unpinned page used longest ago, if there is one. */
    method PurgeOne() returns (f: Frame?, ghost victim: FrameId)
      requires manager.Valid() && Coherent(None)
      modifies manager, manager.lru, manager.lru.nodes, manager.pool, files, manager.frames`dirty
      ensures manager.Valid() && Coherent(None)
      ensures f == null <==> old(Unpinned()) == {}
      ensures f == null ==> manager.lru.entries == old(manager.lru.entries) && manager.pool.free == old(manager.pool.free)
      ensures manager.lru.history == old(manager.lru.history) + if f == null then [] else [victim]
      ensures f != null ==> victim in old(Unpinned()) && Oldest(victim, old(Unpinned()), old(manager.lru.history))
      ensures f != null ==> manager.lru.entries == old(manager.lru.entries) - {victim}
      ensures f != null ==> manager.pool.free == old(manager.pool.free) + [f]
      ensures forall i :: PageAt(i) == old(PageAt(i)) && PinsOf(i) == old(PinsOf(i))
      ensures files.pages.Keys == old(files.pages.Keys) && WroteBack(old(files.pages), files.pages, old(UnpinnedPages()))
      ensures forall i :: 0 <= i < |manager.lru.nodes| ==> manager.lru.nodes[i] in old(manager.lru.nodes)
    {
      hide LruCache.Valid;
      hide MemoryPool.Valid;
      f := manager.GetPurgeableFrame();
      if f == null {
        assert Unpinned() == {};
        victim := FrameId(fd, 0);
        return;
      }
      victim := manager.owner[f];
      assert victim in Unpinned();
      Evict(f, victim);
    }

    /** Finds a frame for a page that is not cached: a free one, else that of the unpinned page
        used longest ago; there is none only when every frame is pinned. */
    method AllocateFrame(page: int) returns (r: Re, f: Frame?, ghost victim: Option<FrameId>)
      requires manager.Valid() && Coherent(None) && FrameId(fd, page) !in manager.lru.entries
      modifies manager, manager.lru, manager.lru.nodes, manager.pool, files, manager.frames`dirty
      ensures manager.Valid() && Coherent(if r == NoMem then None else Some(FrameId(fd, page)))
      ensures r == NoMem || (r == Success && f != null && f in manager.frames)
      ensures r == NoMem <==> old(AllPinned())
      ensures r == NoMem ==> manager.lru.entries == old(manager.lru.entries)
      ensures r == Success ==>
        manager.lru.entries == (old(manager.lru.entries) - Picked(victim))[FrameId(fd, page) := f]
      ensures r == Success ==> (victim == None <==> old(manager.pool.free != []))
      ensures victim.Some? ==> victim.value in old(Unpinned()) && Oldest(victim.value, old(Unpinned()), old(manager.lru.history))
      ensures r == NoMem ==> victim == None
      ensures manager.lru.history == old(manager.lru.history) + (Uses(victim) + if r == Success then [FrameId(fd, page)] else [])
      ensures forall i :: i != FrameId(fd, page) ==> PageAt(i) == old(PageAt(i)) && PinsOf(i) == old(PinsOf(i))
      ensures files.pages.Keys == old(files.pages.Keys) && WroteBack(old(files.pages), files.pages, old(UnpinnedPages()))
      ensures FrameId(fd, page) in files.pages ==> files.pages[FrameId(fd, page)] == old(files.pages)[FrameId(fd, page)]
      ensures forall i :: 0 <= i < |manager.lru.nodes| ==>
          manager.lru.nodes[i] in old(manager.lru.nodes) || fresh(manager.lru.nodes[i])
    {
      hide FrameManager.Valid;
      hide LruCache.Valid;
      hide MemoryPool.Valid;
      hide WroteBack;
      hide Oldest;
      hide FrameOk;
      hide StoredOk;
      ghost var id := FrameId(fd, page);
      NothingWritten(files.pages, UnpinnedPages());
      victim := None;
      while true
        invariant manager.Valid() && Coherent(None) && id !in manager.lru.entries
        invariant manager.lru.entries == old(manager.lru.entries) - Picked(victim)
        invariant victim == None ==> manager.pool.free == old(manager.pool.free) && files.pages == old(files.pages)
        invariant manager.lru.history == old(manager.lru.history) + Uses(victim)
        invariant victim.Some? ==> old(manager.pool.free) == [] && manager.pool.free != []
        invariant victim.Some? ==> victim.value in old(Unpinned()) && Oldest(victim.value, old(Unpinned()), old(manager.lru.history))
        invariant forall i :: PageAt(i) == old(PageAt(i)) && PinsOf(i) == old(PinsOf(i))
        invariant files.pages.Keys == old(files.pages.Keys)
        invariant WroteBack(old(files.pages), files.pages, old(UnpinnedPages()))
        invariant forall i :: 0 <= i < |manager.lru.nodes| ==>
          manager.lru.nodes[i] in old(manager.lru.nodes) || fresh(manager.lru.nodes[i])
        decreases if victim.Some? then 0 else 1
      {
        assert PageAt(id) == old(PageAt(id));
        f := TakeFrame(page);
        if f != null {
          assert manager.lru.history == old(manager.lru.history) + (Uses(victim) + [id]);
          return Success, f, victim;
        }
        ghost var oldest;
        assert UnpinnedPages() == old(UnpinnedPages()) && Unpinned() == old(Unpinned());
        f, oldest := PurgeOne();
        if f == null {
          assert PageAt(id) == old(PageAt(id));
          return NoMem, null, None;
        }
        victim := Some(oldest);
      }
    }

    ghost function HeaderId(): FrameId { FrameId(fd, 0) }

    /** A page waiting to be disposed of is allocated, and pinned. */
    ghost predicate DisposedOk(p: int)
      requires headerFrame != null
      reads this, manager.lru, manager.lru.entries.Values, headerFrame
    {
      PinsOf(FrameId(fd, p)) >= 1 && Allocated(headerFrame.page.content, p)
    }

    /** The header page is cached and pinned; the pages waiting to be disposed of are allocated and pinned. */
    ghost predicate HeaderCached(waiting: set<int>)
      reads this, manager.lru, manager.lru.entries.Values
      reads if headerFrame == null then {} else {headerFrame}
    {
      && headerFrame != null
      && HeaderId() in manager.lru.entries && manager.lru.entries[HeaderId()] == headerFrame
      && headerFrame.pins >= 1
      && HeaderOk(headerFrame.page.content)
      && (forall p {:trigger DisposedOk(p)} :: p in waiting ==> DisposedOk(p))
    }

    ghost predicate FileHas(n: int)
      reads files
    {
      forall p {:trigger FrameId(fd, p) in files.pages} :: FrameId(fd, p) in files.pages <==> 0 <= p < n
    }

    /** The header describes the file. */
    ghost predicate HeaderValid(waiting: set<int>)
      reads this, manager.lru, manager.lru.entries.Values, files
      reads if headerFrame == null then {} else {headerFrame}
    {
      HeaderCached(waiting) && FileHas(headerFrame.page.content.pagesNum)
    }

    ghost predicate Valid()
      reads this, manager, manager.lru, manager.lru.nodes, manager.lru.searcher.Values, manager.pool
      reads manager.lru.entries.Values, files
      reads if headerFrame == null then {} else {headerFrame}
    {
      manager.Valid() && Coherent(None) && HeaderValid(disposed)
    }

    /** A page is in the frame that it was in before. */
    ghost predicate SameFrame(i: FrameId, before: map<FrameId, Frame>)
      reads manager.lru
    {
      i in before && i in manager.lru.entries && manager.lru.entries[i] == before[i]
    }

    /** No frame is free, and none can be freed. */
    ghost predicate AllPinned()
      reads manager.lru, manager.lru.entries.Values, manager.pool
    {
      manager.pool.free == [] && Unpinned() == {}
    }

    /** Reads a page from disk into a frame. */
    method LoadPage(page: int, f: Frame) returns (r: Re)
      modifies f`page
      ensures r == if page < 0 then IoErrSeek else if FrameId(fd, page) in files.pages then Success else IoErrRead
      ensures f.page == if r == Success then files.pages[FrameId(fd, page)] else old(f.page)
    {
      if page < 0 {
        return IoErrSeek;
      }
      if FrameId(fd, page) !in files.pages {
        return IoErrRead;
      }
      f.page := files.pages[FrameId(fd, page)];
      r := Success;
    }

    /** Takes an unpinned page out of the cache, writing it back first when it is dirty. */
    method PurgeFrame(page: int, f: Frame) returns (r: Re)
      requires manager.Valid() && Coherent(Some(FrameId(fd, page)))
      requires FrameId(fd, page) in manager.lru.entries && manager.lru.entries[FrameId(fd, page)] == f
      requires !f.dirty || FrameOk(FrameId(fd, page))
      modifies manager, manager.lru, manager.lru.nodes, manager.pool, files, f`dirty
      ensures manager.Valid() && r == if old(f.pins) > 0 then LockedUnlock else Success
      ensures r == LockedUnlock ==> manager.lru.entries == old(manager.lru.entries) && files.pages == old(files.pages)
      ensures r == LockedUnlock ==> f.dirty == old(f.dirty) && (old(Coherent(None)) ==> Coherent(None))
      ensures manager.lru.history == old(manager.lru.history) + if r == Success then [FrameId(fd, page)] else []
      ensures old(FrameOk(FrameId(fd, page))) && old(f.pins) == 0 ==> WroteBack(old(files.pages), files.pages, old(UnpinnedPages()))
      ensures !old(f.dirty) ==> files.pages == old(files.pages)
      ensures r == Success ==> Coherent(None) && manager.lru.entries == old(manager.lru.entries) - {FrameId(fd, page)}
      ensures r == Success ==> manager.pool.free == old(manager.pool.free) + [f]
      ensures forall i :: PinsOf(i) == old(PinsOf(i))
      ensures forall i :: i != FrameId(fd, page) || old(FrameOk(FrameId(fd, page))) ==> PageAt(i) == old(PageAt(i))
      ensures files.pages.Keys == old(files.pages.Keys)
      ensures forall i :: 0 <= i < |manager.lru.nodes| ==> manager.lru.nodes[i] in old(manager.lru.nodes)
    {
      hide LruCache.Valid;
      hide MemoryPool.Valid;
      if f.pins > 0 {
        return LockedUnlock;
      }
      ghost var id := FrameId(fd, page);
      if f.dirty {
        FlushFrame(f, id);
      }
      assert old(FrameOk(id)) ==> FrameOk(id) && f.page == files.pages[id];
      label flushed:
      var freed := manager.Free(fd, page, f);
      assert freed;
      forall i | i in manager.lru.entries ensures FrameOk(i) {
        assert old@flushed(FrameOk(i));
      }
      forall i | i in files.pages ensures StoredOk(i) {
        assert old@flushed(StoredOk(i));
      }
      r := Success;
    }

    /** Finds a cached page. */
    method GetCached(page: int) returns (f: Frame?)
      requires Valid()
      modifies manager.lru, manager.lru.nodes, manager.frames`pins
      ensures Valid()
      ensures f == null <==> FrameId(fd, page) !in old(manager.lru.entries)
      ensures manager.lru.entries == old(manager.lru.entries)
      ensures f != null ==> f == manager.lru.entries[FrameId(fd, page)]
      ensures manager.lru.history == old(manager.lru.history) + if f == null then [] else [FrameId(fd, page)]
      ensures forall i :: PageAt(i) == old(PageAt(i))
      ensures forall i :: PinsOf(i) == old(PinsOf(i)) + if f != null && i == FrameId(fd, page) then 1 else 0
      ensures forall i :: 0 <= i < |manager.lru.nodes| ==> manager.lru.nodes[i] in old(manager.lru.nodes)
    {
      hide FrameManager.Valid;
      hide LruCache.Valid;
      hide MemoryPool.Valid;
      f := manager.GetFrame(fd, page);
      if f != null {
        f.pins := f.pins + 1;
      }
      forall i | i in manager.lru.entries ensures FrameOk(i) {
        assert old(FrameOk(i));
      }
      forall i | i in files.pages ensures StoredOk(i) {
        assert old(StoredOk(i));
      }
      forall p | p in disposed ensures DisposedOk(p) {
        assert old(DisposedOk(p));
      }
    }

    /** A page that the file does not have leaves no frame behind. */
    method FailLoad(page: int, f: Frame)
      requires manager.Valid() && Coherent(Some(FrameId(fd, page))) && HeaderValid(disposed) && page != 0
      requires FrameId(fd, page) in manager.lru.entries && manager.lru.entries[FrameId(fd, page)] == f
      requires page !in disposed && !f.dirty && FrameId(fd, page) !in files.pages
      modifies manager, manager.lru, manager.lru.nodes, manager.pool, files, f
      ensures Valid() && FrameId(fd, page) !in manager.lru.entries
      ensures manager.lru.entries == old(manager.lru.entries) - {FrameId(fd, page)}
      ensures manager.lru.history == old(manager.lru.history) + [FrameId(fd, page)]
      ensures files.pages == old(files.pages) && headerFrame.page == old(headerFrame.page)
      ensures forall i :: i != FrameId(fd, page) ==> PageAt(i) == old(PageAt(i)) && PinsOf(i) == old(PinsOf(i))
      ensures forall i :: 0 <= i < |manager.lru.nodes| ==> manager.lru.nodes[i] in old(manager.lru.nodes)
    {
      hide LruCache.Valid;
      hide MemoryPool.Valid;
      f.pins := 0;
      forall i | i in files.pages ensures StoredOk(i) {
        assert old(StoredOk(i));
      }
      forall i | i in manager.lru.entries && i != FrameId(fd, page) ensures FrameOk(i) {
        assert old(FrameOk(i));
      }
      var purged := PurgeFrame(page, f);
      assert purged == Success;
      forall p | p in disposed ensures DisposedOk(p) {
        assert old(DisposedOk(p));
      }
    }

    /** Pins the frame just taken for a page, and reads the page into it. */
    method LoadFrame(page: int, f: Frame) returns (r: Re)
      requires manager.Valid() && Coherent(Some(FrameId(fd, page))) && HeaderValid(disposed) && page != 0
      requires FrameId(fd, page) in manager.lru.entries && manager.lru.entries[FrameId(fd, page)] == f
      modifies f
      ensures manager.Valid() && Coherent(Some(FrameId(fd, page))) && HeaderValid(disposed)
      ensures f.pins == 1 && !f.dirty && headerFrame.page == old(headerFrame.page)
      ensures r == if page < 0 then IoErrSeek
                   else if page < headerFrame.page.content.pagesNum then Success else IoErrRead
      ensures r == Success <==> FrameId(fd, page) in files.pages
      ensures r == Success ==> FrameOk(FrameId(fd, page)) && f.page == files.pages[FrameId(fd, page)]
      ensures forall i :: i != FrameId(fd, page) ==> PageAt(i) == old(PageAt(i)) && PinsOf(i) == old(PinsOf(i))
    {
      hide LruCache.Valid;
      hide MemoryPool.Valid;
      f.dirty, f.fd, f.pins := false, fd, 1;
      r := LoadPage(page, f);
      forall i | i in files.pages ensures StoredOk(i) {
        assert old(StoredOk(i));
      }
      forall i | i in manager.lru.entries && i != FrameId(fd, page) ensures FrameOk(i) {
        assert old(FrameOk(i));
      }
      forall p | p in disposed ensures DisposedOk(p) {
        assert old(DisposedOk(p));
      }
      if r == Success {
        assert StoredOk(FrameId(fd, page));
      }
    }

    /** Prepares the frame just taken for a page: pinned once, clean, with what is on disk. */
    method FillFrame(page: int, f: Frame) returns (r: Re)
      requires manager.Valid() && Coherent(Some(FrameId(fd, page))) && HeaderValid(disposed) && page != 0
      requires FrameId(fd, page) in manager.lru.entries && manager.lru.entries[FrameId(fd, page)] == f
      requires page !in disposed
      modifies manager, manager.lru, manager.lru.nodes, manager.pool, files, f
      ensures Valid() && headerFrame.page == old(headerFrame.page)
      ensures r == if page < 0 then IoErrSeek
                   else if page < headerFrame.page.content.pagesNum then Success else IoErrRead
      ensures r == Success ==> FrameId(fd, page) in manager.lru.entries && manager.lru.entries[FrameId(fd, page)] == f
      ensures manager.lru.entries == old(manager.lru.entries) - if r == Success then {} else {FrameId(fd, page)}
      ensures manager.lru.history == old(manager.lru.history) + if r == Success then [] else [FrameId(fd, page)]
      ensures files.pages == old(files.pages)
      ensures PageAt(FrameId(fd, page)) ==
        if r == Success then Some(old(files.pages)[FrameId(fd, page)]) else None
      ensures PinsOf(FrameId(fd, page)) == if r == Success then 1 else 0
      ensures forall i :: i != FrameId(fd, page) ==> PageAt(i) == old(PageAt(i)) && PinsOf(i) == old(PinsOf(i))
      ensures forall i :: 0 <= i < |manager.lru.nodes| ==> manager.lru.nodes[i] in old(manager.lru.nodes)
    {
      hide FrameManager.Valid;
      hide HeaderOk;
      hide LruCache.Valid;
      hide MemoryPool.Valid;
      r := LoadFrame(page, f);
      if r != Success {
        FailLoad(page, f);
      }
    }

    /** Finds a frame for an uncached page; what that does to the cache. */
    method FrameFor(page: int) returns (r: Re, f: Frame?, ghost victim: Option<FrameId>)
      requires manager.Valid() && Coherent(None) && FrameId(fd, page) !in manager.lru.entries
      modifies manager, manager.lru, manager.lru.nodes, manager.pool, files, manager.frames`dirty
      ensures manager.Valid() && Coherent(if r == NoMem then None else Some(FrameId(fd, page)))
      ensures r == (if old(AllPinned()) then NoMem else Success) && (r == Success ==> f != null && f in manager.frames)
      ensures Chosen(victim, old(manager.pool.free == [] && !AllPinned()), old(Unpinned()), old(manager.lru.history))
      ensures manager.lru.entries == Replaced(old(manager.lru.entries), victim, FrameId(fd, page), if r == Success then f else null)
      ensures OthersKept(manager.lru.entries.Keys, old(manager.lru.history), manager.lru.history, FrameId(fd, page))
      ensures r == Success ==> Latest(manager.lru.entries.Keys, manager.lru.history, FrameId(fd, page))
      ensures WroteBack(old(files.pages), files.pages, old(UnpinnedPages()))
      ensures forall i :: i != FrameId(fd, page) ==> PageAt(i) == old(PageAt(i)) && PinsOf(i) == old(PinsOf(i))
      ensures forall i {:trigger SameFrame(i, old(manager.lru.entries))} :: old(PinsOf(i)) > 0 ==> SameFrame(i, old(manager.lru.entries))
      ensures files.pages.Keys == old(files.pages.Keys)
      ensures FrameId(fd, page) in files.pages ==> files.pages[FrameId(fd, page)] == old(files.pages)[FrameId(fd, page)]
      ensures forall i :: 0 <= i < |manager.lru.nodes| ==>
          manager.lru.nodes[i] in old(manager.lru.nodes) || fresh(manager.lru.nodes[i])
    {
      hide FrameManager.Valid;
      hide LruCache.Valid;
      hide MemoryPool.Valid;
      hide WroteBack;
      hide Oldest;
      hide Replaced;
      hide Latest;
      hide OthersKept;
      hide FrameOk;
      hide StoredOk;
      ghost var id, before, history := FrameId(fd, page), manager.lru.entries, manager.lru.history;
      r, f, victim := AllocateFrame(page);
      Recency(manager.lru.entries.Keys, history, Uses(victim) + if r == Success then [id] else [], id);
      if r == Success {
        ReplacedMeans(before, victim, id, f);
      } else {
        ReplacedSame(before, id);
      }
    }

    /** Finds a frame for an uncached page of the file, whose header stays in its frame. */
    method AcquireFrame(page: int) returns (r: Re, f: Frame?, ghost victim: Option<FrameId>)
      requires Valid() && FrameId(fd, page) !in manager.lru.entries
      modifies manager, manager.lru, manager.lru.nodes, manager.pool, files, manager.frames`dirty
      ensures manager.Valid() && HeaderValid(disposed) && page !in disposed
      ensures r == if old(AllPinned()) then NoMem else Success
      ensures r == NoMem ==> Coherent(None) && FrameId(fd, page) !in manager.lru.entries
      ensures r == Success ==> Coherent(Some(FrameId(fd, page))) && FrameId(fd, page) in manager.lru.entries
      ensures r == Success ==> f != null && f == manager.lru.entries[FrameId(fd, page)] && f in manager.frames
      ensures Chosen(victim, old(manager.pool.free == [] && !AllPinned()), old(Unpinned()), old(manager.lru.history))
      ensures manager.lru.entries == Replaced(old(manager.lru.entries), victim, FrameId(fd, page), if r == Success then f else null)
      ensures OthersKept(manager.lru.entries.Keys, old(manager.lru.history), manager.lru.history, FrameId(fd, page))
      ensures r == Success ==> Latest(manager.lru.entries.Keys, manager.lru.history, FrameId(fd, page))
      ensures WroteBack(old(files.pages), files.pages, old(UnpinnedPages()))
      ensures forall i :: i != FrameId(fd, page) ==> PageAt(i) == old(PageAt(i)) && PinsOf(i) == old(PinsOf(i))
      ensures files.pages.Keys == old(files.pages.Keys)
      ensures FrameId(fd, page) in files.pages ==> files.pages[FrameId(fd, page)] == old(files.pages)[FrameId(fd, page)]
      ensures forall i {:trigger SameFrame(i, old(manager.lru.entries))} :: old(PinsOf(i)) > 0 ==> SameFrame(i, old(manager.lru.entries))
      ensures forall i :: 0 <= i < |manager.lru.nodes| ==>
          manager.lru.nodes[i] in old(manager.lru.nodes) || fresh(manager.lru.nodes[i])
    {
      hide LruCache.Valid;
      hide MemoryPool.Valid;
      hide WroteBack;
      hide Replaced;
      hide Latest;
      hide OthersKept;
      assert page in disposed ==> DisposedOk(page);
      ghost var before := manager.lru.entries;
      r, f, victim := FrameFor(page);
      if r == Success {
        ReplacedMeans(before, victim, FrameId(fd, page), f);
      } else {
        ReplacedSame(before, FrameId(fd, page));
        assert victim == None;
      }
      assert SameFrame(HeaderId(), before);
      forall p | p in disposed ensures DisposedOk(p) {
        assert old(DisposedOk(p));
      }
    }

    /** Reads a page into a frame of its own. */
    method GetUncached(page: int) returns (r: Re, f: Frame?, ghost victim: Option<FrameId>)
      requires Valid() && FrameId(fd, page) !in manager.lru.entries
      modifies manager, manager.lru, manager.lru.nodes, manager.pool, files, manager.frames
      ensures Valid() && headerFrame.page == old(headerFrame.page)
      ensures r == if old(AllPinned()) then NoMem else if page < 0 then IoErrSeek
                   else if page < headerFrame.page.content.pagesNum then Success else IoErrRead
      ensures r == Success ==> FrameId(fd, page) in manager.lru.entries && f == manager.lru.entries[FrameId(fd, page)]
      ensures Chosen(victim, old(manager.pool.free == [] && !AllPinned()), old(Unpinned()), old(manager.lru.history))
      ensures manager.lru.entries == Replaced(old(manager.lru.entries), victim, FrameId(fd, page), if r == Success then f else null)
      ensures OthersKept(manager.lru.entries.Keys, old(manager.lru.history), manager.lru.history, FrameId(fd, page))
      ensures r == Success ==> Latest(manager.lru.entries.Keys, manager.lru.history, FrameId(fd, page))
      ensures WroteBack(old(files.pages), files.pages, old(UnpinnedPages()))
      ensures forall i :: PageAt(i) == old(PageAt(i))
      ensures forall i :: PinsOf(i) == old(PinsOf(i)) + if r == Success && i == FrameId(fd, page) then 1 else 0
      ensures forall i {:trigger SameFrame(i, old(manager.lru.entries))} :: old(PinsOf(i)) > 0 ==> SameFrame(i, old(manager.lru.entries))
      ensures forall i :: 0 <= i < |manager.lru.nodes| ==>
          manager.lru.nodes[i] in old(manager.lru.nodes) || fresh(manager.lru.nodes[i])
    {
      hide FrameManager.Valid;
      hide Unpinned;
      hide HeaderOk;
      hide LruCache.Valid;
      hide MemoryPool.Valid;
      hide WroteBack;
      hide Chosen;
      hide Replaced;
      hide Latest;
      hide OthersKept;
      ghost var before := manager.lru.entries;
      ghost var id, history := FrameId(fd, page), manager.lru.history;
      r, f, victim := AcquireFrame(page);
      if r == Success {
        label acquired:
        ReplacedMeans(before, victim, id, f);
        OneMoreUse(manager.lru.entries.Keys, history, manager.lru.history, id);
        r := FillFrame(page, f);
        assert r == Success ==> manager.lru.history == old@acquired(manager.lru.history) + [] == old@acquired(manager.lru.history);
        assert r != Success ==> manager.lru.entries.Keys == old@acquired(manager.lru.entries.Keys) - {id};
        forall i {:trigger SameFrame(i, before)} | old(PinsOf(i)) > 0 ensures SameFrame(i, before) {
          assert old@acquired(SameFrame(i, before));
        }
      }
    }

    /** How looking for a page ends. */
    ghost function Outcome(page: int): Re
      requires headerFrame != null && headerFrame.page.content.Header?
      reads this, manager.lru, manager.lru.entries.Values, manager.pool, headerFrame
    {
      if FrameId(fd, page) in manager.lru.entries then Success
      else if AllPinned() then NoMem
      else if page < 0 then IoErrSeek
      else if page < headerFrame.page.content.pagesNum then Success
      else IoErrRead
    }

    /** Pins a page in a frame, reading it from disk when it is not cached. */
    method GetPage(page: int) returns (r: Re, f: Frame?, ghost victim: Option<FrameId>)
      requires Valid()
      modifies manager, manager.lru, manager.lru.nodes, manager.pool, files, manager.frames
      ensures Valid() && r == old(Outcome(page)) && headerFrame.page == old(headerFrame.page)
      ensures r == Success ==> FrameId(fd, page) in manager.lru.entries && f == manager.lru.entries[FrameId(fd, page)]
      ensures Chosen(victim, old(FrameId(fd, page) !in manager.lru.entries && manager.pool.free == [] && !AllPinned()), old(Unpinned()), old(manager.lru.history))
      ensures manager.lru.entries == Replaced(old(manager.lru.entries), victim, FrameId(fd, page), if r == Success then f else null)
      ensures OthersKept(manager.lru.entries.Keys, old(manager.lru.history), manager.lru.history, FrameId(fd, page))
      ensures r == Success ==> Latest(manager.lru.entries.Keys, manager.lru.history, FrameId(fd, page))
      ensures WroteBack(old(files.pages), files.pages, old(UnpinnedPages()))
      ensures forall i :: PageAt(i) == old(PageAt(i))
      ensures forall i :: PinsOf(i) == old(PinsOf(i)) + if r == Success && i == FrameId(fd, page) then 1 else 0
      ensures forall i {:trigger SameFrame(i, old(manager.lru.entries))} :: old(PinsOf(i)) > 0 ==> SameFrame(i, old(manager.lru.entries))
      ensures forall i :: 0 <= i < |manager.lru.nodes| ==>
          manager.lru.nodes[i] in old(manager.lru.nodes) || fresh(manager.lru.nodes[i])
    {
      hide LruCache.Valid;
      hide MemoryPool.Valid;
      hide WroteBack;
      hide Oldest;
      hide Replaced;
      hide Latest;
      hide OthersKept;
      hide FrameOk;
      hide StoredOk;
      f := GetCached(page);
      if f != null {
        Recency(manager.lru.entries.Keys, old(manager.lru.history), [FrameId(fd, page)], FrameId(fd, page));
        NothingWritten(files.pages, old(UnpinnedPages()));
        ReplacedSame(manager.lru.entries, FrameId(fd, page));
        return Success, f, None;
      }
      assert manager.lru.history == old(manager.lru.history);
      assert UnpinnedPages() == old(UnpinnedPages()) && Unpinned() == old(Unpinned());
      r, f, victim := GetUncached(page);
    }

    /** Looks a page up, which is a use of it. */
    method LookUp(page: int) returns (f: Frame?)
      requires manager.Valid() && Coherent(None)
      modifies manager.lru, manager.lru.nodes
      ensures manager.Valid() && Coherent(None) && manager.lru.entries == old(manager.lru.entries)
      ensures f == if FrameId(fd, page) in manager.lru.entries then manager.lru.entries[FrameId(fd, page)] else null
      ensures f != null ==> f in manager.frames
      ensures manager.lru.history == old(manager.lru.history) + if f == null then [] else [FrameId(fd, page)]
      ensures forall i :: PageAt(i) == old(PageAt(i)) && PinsOf(i) == old(PinsOf(i))
      ensures forall i :: 0 <= i < |manager.lru.nodes| ==> manager.lru.nodes[i] in old(manager.lru.nodes)
    {
      hide LruCache.Valid;
      hide MemoryPool.Valid;
      f := manager.GetFrame(fd, page);
      forall i | i in files.pages ensures StoredOk(i) {
        assert old(StoredOk(i));
      }
      forall i | i in manager.lru.entries ensures FrameOk(i) {
        assert old(FrameOk(i));
      }
    }

    /** Takes a page out of the cache unless it is pinned. */
    method PurgePage(page: int) returns (r: Re)
      requires manager.Valid() && Coherent(None)
      modifies manager, manager.lru, manager.lru.nodes, manager.pool, files, manager.frames`dirty
      ensures manager.Valid() && Coherent(None)
      ensures r == if old(PinsOf(FrameId(fd, page))) > 0 then LockedUnlock else Success
      ensures manager.lru.entries == old(manager.lru.entries) - (if r == Success then {FrameId(fd, page)} else {})
      ensures OthersKept(manager.lru.entries.Keys, old(manager.lru.history), manager.lru.history, FrameId(fd, page))
      ensures r == LockedUnlock ==> Latest(manager.lru.entries.Keys, manager.lru.history, FrameId(fd, page))
      ensures WroteBack(old(files.pages), files.pages, old(UnpinnedPages()))
      ensures forall i :: PageAt(i) == old(PageAt(i)) && PinsOf(i) == old(PinsOf(i))
      ensures files.pages.Keys == old(files.pages.Keys)
      ensures forall i :: 0 <= i < |manager.lru.nodes| ==> manager.lru.nodes[i] in old(manager.lru.nodes)
    {
      hide FrameManager.Valid;
      hide LruCache.Valid;
      hide MemoryPool.Valid;
      hide WroteBack;
      hide Latest;
      hide OthersKept;
      ghost var id, history := FrameId(fd, page), old(manager.lru.history);
      NothingWritten(files.pages, UnpinnedPages());
      var used := LookUp(page);
      if used == null {
        Recency(manager.lru.entries.Keys, history, [], id);
        assert history + [] == history;
        return Success;
      }
      assert FrameOk(id) && UnpinnedPages() == old(UnpinnedPages());
      r := PurgeFrame(page, used);
      ghost var more := if r == Success then [id, id] else [id];
      assert manager.lru.history == history + more;
      Recency(manager.lru.entries.Keys, history, more, id);
    }

    /** Changes the header in its frame, and marks the frame dirty. */
    method PutHeader(h: Content, ghost waiting: set<int>)
      requires manager.Valid() && Coherent(None) && HeaderValid(waiting)
      requires HeaderOk(h) && h.pagesNum == headerFrame.page.content.pagesNum
      requires forall p :: p in waiting ==> Allocated(h, p)
      modifies headerFrame`dirty, headerFrame`page
      ensures Coherent(None) && HeaderValid(waiting) && headerFrame.page == old(headerFrame.page).(content := h)
      ensures forall i :: i != HeaderId() ==> PageAt(i) == old(PageAt(i))
      ensures forall i :: PinsOf(i) == old(PinsOf(i))
    {
      headerFrame.dirty := true;
      headerFrame.page := headerFrame.page.(content := h);
      forall i | i in files.pages ensures StoredOk(i) {
        assert old(StoredOk(i));
      }
      forall i | i in manager.lru.entries ensures FrameOk(i) {
        assert old(FrameOk(i));
      }
      forall p | p in waiting ensures DisposedOk(p) {
        assert old(DisposedOk(p));
      }
    }

    /** Clears the bit of a page. */
    method ReleasePage(page: int, ghost waiting: set<int>)
      requires manager.Valid() && Coherent(None) && HeaderValid(waiting)
      requires Allocated(headerFrame.page.content, page) && page != 0 && page !in waiting
      modifies headerFrame`dirty, headerFrame`page
      ensures Coherent(None) && HeaderValid(waiting)
      ensures headerFrame.page.content == GivePage(old(headerFrame.page.content), page)
      ensures forall i :: i != HeaderId() ==> PageAt(i) == old(PageAt(i))
      ensures forall i :: PinsOf(i) == old(PinsOf(i))
    {
      hide LruCache.Valid;
      hide MemoryPool.Valid;
      GiveOk(headerFrame.page.content, page);
      forall p | p in waiting ensures Allocated(headerFrame.page.content, p) {
        assert DisposedOk(p);
      }
      PutHeader(GivePage(headerFrame.page.content, page), waiting);
    }

    /** Gives a page up: now, or, while it is pinned, at its last unpin. */
    method DisposePage(page: int) returns (r: Re)
      requires manager.Valid() && Coherent(None) && HeaderValid(disposed - {page})
      requires Allocated(headerFrame.page.content, page)
      modifies manager, manager.lru, manager.lru.nodes, manager.pool, files, manager.frames`dirty, headerFrame`page, `disposed
      ensures manager.Valid() && Coherent(None) && headerFrame == old(headerFrame)
      ensures r == if old(PinsOf(FrameId(fd, page))) > 0 then LockedUnlock else Success
      ensures disposed == old(disposed) + if r == Success then {} else {page}
      ensures r == LockedUnlock ==> HeaderValid(disposed) && headerFrame.page == old(headerFrame.page)
      ensures r == Success ==> HeaderValid(disposed - {page}) && page != 0
      ensures r == Success ==> headerFrame.page.content == GivePage(old(headerFrame.page.content), page)
      ensures OthersKept(manager.lru.entries.Keys, old(manager.lru.history), manager.lru.history, FrameId(fd, page))
      ensures r == LockedUnlock ==> Latest(manager.lru.entries.Keys, manager.lru.history, FrameId(fd, page))
      ensures WroteBack(old(files.pages), files.pages, old(UnpinnedPages()))
      ensures forall i :: i != HeaderId() ==> PageAt(i) == old(PageAt(i))
      ensures forall i :: PinsOf(i) == old(PinsOf(i))
      ensures manager.lru.entries == old(manager.lru.entries) - if r == Success then {FrameId(fd, page)} else {}
      ensures forall i :: 0 <= i < |manager.lru.nodes| ==> manager.lru.nodes[i] in old(manager.lru.nodes)
    {
      hide HeaderOk;
      hide LruCache.Valid;
      hide MemoryPool.Valid;
      hide WroteBack;
      hide Latest;
      hide OthersKept;
      r := PurgePage(page);
      ghost var waiting := if r == Success then disposed - {page} else disposed + {page};
      forall p | p in waiting ensures DisposedOk(p) {
        assert p != page ==> old(DisposedOk(p));
      }
      if r != Success {
        disposed := disposed + {page};
        return;
      }
      ReleasePage(page, waiting);
    }

    /** Gives up a page that is not allocated, which nothing keeps a caller from: unless the page is pinned, the
        header no longer counts its pages right. */
    method DisposeUnallocated(page: nat) returns (r: Re)
      requires Valid() && page < MAX_PAGES && !Allocated(headerFrame.page.content, page)
      modifies manager, manager.lru, manager.lru.nodes, manager.pool, files, manager.frames`dirty, headerFrame`page, `disposed
      ensures r == if old(PinsOf(FrameId(fd, page))) > 0 then LockedUnlock else Success
      ensures disposed == old(disposed) + if r == Success then {} else {page}
      ensures headerFrame == old(headerFrame) && headerFrame.page.content ==
        if r == Success then GivePage(old(headerFrame.page.content), page) else old(headerFrame.page.content)
      ensures HeaderOk(headerFrame.page.content) <==> r != Success
    {
      hide LruCache.Valid;
      hide MemoryPool.Valid;
      GiveOk(headerFrame.page.content, page);
      r := PurgePage(page);
      if r != Success {
        disposed := disposed + {page};
        return;
      }
      headerFrame.dirty := true;
      headerFrame.page := headerFrame.page.(content := GivePage(headerFrame.page.content, page));
    }

    /** Counts one pin less. */
    method DropPin(f: Frame, ghost page: int)
      requires Valid() && FrameId(fd, page) in manager.lru.entries && manager.lru.entries[FrameId(fd, page)] == f
      requires f.pins >= 1 && (page == 0 ==> f.pins >= 2)
      modifies f`pins
      ensures f.pins == old(f.pins) - 1 && f.page.pageId == page
      ensures manager.Valid() && Coherent(None)
      ensures HeaderValid(if f.pins == 0 then disposed - {page} else disposed)
      ensures page in disposed ==> Allocated(headerFrame.page.content, page)
      ensures forall i :: PageAt(i) == old(PageAt(i))
      ensures forall i :: PinsOf(i) == old(PinsOf(i)) - if i == FrameId(fd, page) then 1 else 0
    {
      hide LruCache.Valid;
      hide MemoryPool.Valid;
      assert FrameOk(FrameId(fd, page)) && (page in disposed ==> DisposedOk(page));
      f.pins := f.pins - 1;
      forall i | i in files.pages ensures StoredOk(i) {
        assert old(StoredOk(i));
      }
      forall i | i in manager.lru.entries ensures FrameOk(i) {
        assert old(FrameOk(i));
      }
      forall p | p in (if f.pins == 0 then disposed - {page} else disposed) ensures DisposedOk(p) {
        assert old(DisposedOk(p));
      }
    }

    /** Gives up a page that waited for its last unpin. */
    method DisposeWaiting(page: int)
      requires manager.Valid() && Coherent(None) && HeaderValid(disposed - {page})
      requires page in disposed && PinsOf(FrameId(fd, page)) == 0 && Allocated(headerFrame.page.content, page)
      modifies manager, manager.lru, manager.lru.nodes, manager.pool, files, manager.frames`dirty, headerFrame`page, `disposed
      ensures Valid() && headerFrame == old(headerFrame) && disposed == old(disposed) - {page}
      ensures headerFrame.page.content == GivePage(old(headerFrame.page.content), page)
      ensures OthersKept(manager.lru.entries.Keys, old(manager.lru.history), manager.lru.history, FrameId(fd, page))
      ensures WroteBack(old(files.pages), files.pages, old(UnpinnedPages()))
      ensures forall i :: i != HeaderId() ==> PageAt(i) == old(PageAt(i))
      ensures forall i :: PinsOf(i) == old(PinsOf(i))
      ensures manager.lru.entries == old(manager.lru.entries) - {FrameId(fd, page)}
      ensures forall i :: 0 <= i < |manager.lru.nodes| ==> manager.lru.nodes[i] in old(manager.lru.nodes)
    {
      hide LruCache.Valid;
      hide MemoryPool.Valid;
      hide WroteBack;
      hide OthersKept;
      var r := DisposePage(page);
      label done:
      disposed := disposed - {page};
      forall p | p in disposed ensures DisposedOk(p) {
        assert old@done(DisposedOk(p));
      }
    }

    /** Gives a pin back; the last pin of a page waiting to be disposed of gives the page up. */
    method UnpinPage(f: Frame, ghost page: int)
      requires Valid() && FrameId(fd, page) in manager.lru.entries && manager.lru.entries[FrameId(fd, page)] == f
      requires f.pins >= 1 && (page == 0 ==> f.pins >= 2)
      modifies manager, manager.lru, manager.lru.nodes, manager.pool, files, manager.frames, `disposed
      ensures Valid() && headerFrame == old(headerFrame)
      ensures headerFrame.page.content ==
        if old(page in disposed && f.pins == 1) then GivePage(old(headerFrame.page.content), page)
        else old(headerFrame.page.content)
      ensures disposed == old(disposed) - if old(page in disposed && f.pins == 1) then {page} else {}
      ensures !old(page in disposed && f.pins == 1) ==>
        manager.lru.history == old(manager.lru.history) && files.pages == old(files.pages)
      ensures OthersKept(manager.lru.entries.Keys, old(manager.lru.history), manager.lru.history, FrameId(fd, page))
      ensures WroteBack(old(files.pages), files.pages, old(UnpinnedBut(page)))
      ensures forall i :: i != HeaderId() ==> PageAt(i) == old(PageAt(i))
      ensures forall i :: PinsOf(i) == old(PinsOf(i)) - if i == FrameId(fd, page) then 1 else 0
      ensures manager.lru.entries == old(manager.lru.entries) - if old(page in disposed && f.pins == 1) then {FrameId(fd, page)} else {}
      ensures forall i :: 0 <= i < |manager.lru.nodes| ==> manager.lru.nodes[i] in old(manager.lru.nodes)
    {
      hide LruCache.Valid;
      hide MemoryPool.Valid;
      hide WroteBack;
      hide OthersKept;
      Recency(manager.lru.entries.Keys, manager.lru.history, [], FrameId(fd, page));
      assert manager.lru.history + [] == manager.lru.history;
      NothingWritten(files.pages, old(UnpinnedBut(page)));
      DropPin(f, page);
      if f.pins == 0 {
        var number := f.page.pageId;
        if number in disposed {
          assert UnpinnedPages() == old(UnpinnedBut(page));
          DisposeWaiting(number);
        }
      }
    }

    /** Changes the data of a pinned page and marks its frame dirty, as a client of the pool does. */
    method WritePage(f: Frame, ghost page: int, content: Content)
      requires Valid() && page != 0
      requires FrameId(fd, page) in manager.lru.entries && manager.lru.entries[FrameId(fd, page)] == f
      modifies f`page, f`dirty
      ensures Valid()
      ensures PageAt(FrameId(fd, page)) == Some(Page(page, content))
      ensures forall i :: i != FrameId(fd, page) ==> PageAt(i) == old(PageAt(i))
      ensures forall i :: PinsOf(i) == old(PinsOf(i))
    {
      hide LruCache.Valid;
      hide MemoryPool.Valid;
      assert FrameOk(FrameId(fd, page));
      f.page := f.page.(content := content);
      f.dirty := true;
      forall i | i in files.pages ensures StoredOk(i) {
        assert old(StoredOk(i));
      }
      forall i | i in manager.lru.entries ensures FrameOk(i) {
        assert old(FrameOk(i));
      }
      forall p | p in disposed ensures DisposedOk(p) {
        assert old(DisposedOk(p));
      }
    }

    /** Changing the data without marking the frame keeps the pool in order exactly when the frame was
        already dirty or the data is what is on disk. */
    method WriteUnmarked(f: Frame, ghost page: int, content: Content)
      requires Valid() && page != 0
      requires FrameId(fd, page) in manager.lru.entries && manager.lru.entries[FrameId(fd, page)] == f
      modifies f`page
      ensures FrameId(fd, page) in files.pages
      ensures Coherent(None) <==> f.dirty || files.pages[FrameId(fd, page)].content == content
    {
      assert FrameOk(FrameId(fd, page)) && StoredOk(FrameId(fd, page));
      f.page := f.page.(content := content);
      if f.dirty || files.pages[FrameId(fd, page)].content == content {
        forall i | i in files.pages ensures StoredOk(i) {
          assert old(StoredOk(i));
        }
        forall i | i in manager.lru.entries ensures FrameOk(i) {
          assert old(FrameOk(i));
        }
      } else {
        assert !FrameOk(FrameId(fd, page));
      }
    }

    /** Sets the bit of a page below the end of the file. */
    method ReusePage(page: int)
      requires Valid() && 0 <= page < headerFrame.page.content.pagesNum && !Allocated(headerFrame.page.content, page)
      modifies headerFrame`dirty, headerFrame`page
      ensures Valid() && headerFrame.page.content == TakePage(old(headerFrame.page.content), page)
      ensures forall i :: i != HeaderId() ==> PageAt(i) == old(PageAt(i))
      ensures forall i :: PinsOf(i) == old(PinsOf(i))
    {
      hide LruCache.Valid;
      hide MemoryPool.Valid;
      TakeOk(headerFrame.page.content, page);
      forall p | p in disposed ensures Allocated(headerFrame.page.content, p) {
        assert DisposedOk(p);
      }
      PutHeader(TakePage(headerFrame.page.content, page), disposed);
    }

    /** Writes a page to its place in the file. */
    method FlushPage(f: Frame)
      modifies files, f`dirty
      ensures files.pages == old(files.pages)[FrameId(fd, f.page.pageId) := f.page] && !f.dirty
    {
      files.pages := files.pages[FrameId(fd, f.page.pageId) := f.page];
      f.dirty := false;
    }

    /** Counts one more page at the end of the file. */
    method GrowHeader(page: int)
      requires manager.Valid() && Coherent(Some(FrameId(fd, page))) && HeaderCached(disposed)
      requires page == headerFrame.page.content.pagesNum < MAX_PAGES
      modifies headerFrame`dirty, headerFrame`page
      ensures Coherent(Some(FrameId(fd, page))) && HeaderCached(disposed)
      ensures headerFrame.page.content == TakePage(old(headerFrame.page.content), page)
      ensures forall i :: i != HeaderId() ==> PageAt(i) == old(PageAt(i))
      ensures forall i :: PinsOf(i) == old(PinsOf(i))
    {
      hide LruCache.Valid;
      hide MemoryPool.Valid;
      TakeOk(headerFrame.page.content, page);
      headerFrame.page := headerFrame.page.(content := TakePage(headerFrame.page.content, page));
      headerFrame.dirty := true;
      forall i | i in files.pages ensures StoredOk(i) {
        assert old(StoredOk(i));
      }
      forall i | i in manager.lru.entries && i != FrameId(fd, page) ensures FrameOk(i) {
        assert old(FrameOk(i));
      }
      forall p | p in disposed ensures DisposedOk(p) {
        assert old(DisposedOk(p));
      }
    }

    /** Clears the frame just taken, and writes it at the end of the file. */
    method WriteEmpty(page: int, f: Frame)
      requires manager.Valid() && Coherent(Some(FrameId(fd, page))) && HeaderCached(disposed) && FileHas(page)
      requires page == headerFrame.page.content.pagesNum - 1 > 0
      requires FrameId(fd, page) in manager.lru.entries && manager.lru.entries[FrameId(fd, page)] == f
      modifies f, files
      ensures Valid() && headerFrame.page == old(headerFrame.page)
      ensures files.pages == old(files.pages)[FrameId(fd, page) := Page(page, ZeroPage())]
      ensures PageAt(FrameId(fd, page)) == Some(Page(page, ZeroPage())) && f.pins == 1
      ensures forall i :: i != FrameId(fd, page) ==> PageAt(i) == old(PageAt(i)) && PinsOf(i) == old(PinsOf(i))
    {
      hide LruCache.Valid;
      hide MemoryPool.Valid;
      ghost var id := FrameId(fd, page);
      f.dirty, f.fd, f.pins := false, fd, 1;
      f.page := Page(0, ZeroPage());
      f.page := f.page.(pageId := headerFrame.page.content.pagesNum - 1);
      FlushPage(f);
      forall i | i in files.pages ensures StoredOk(i) {
        assert i != id ==> old(StoredOk(i));
      }
      forall i | i in manager.lru.entries ensures FrameOk(i) {
        assert i != id ==> old(FrameOk(i));
      }
      forall p | p in disposed ensures DisposedOk(p) {
        assert old(DisposedOk(p));
      }
    }

    lemma CachedInFile(page: int)
      requires Valid() && FrameId(fd, page) in manager.lru.entries
      ensures 0 <= page < headerFrame.page.content.pagesNum
    {
      assert FrameOk(FrameId(fd, page));
    }

    /** Counts the page that a frame was taken for, and writes it to the end of the file. */
    method ExtendFile(page: int, f: Frame)
      requires manager.Valid() && Coherent(Some(FrameId(fd, page))) && HeaderValid(disposed)
      requires page == headerFrame.page.content.pagesNum < MAX_PAGES
      requires FrameId(fd, page) in manager.lru.entries && manager.lru.entries[FrameId(fd, page)] == f
      modifies f, files, headerFrame`dirty, headerFrame`page
      ensures Valid() && headerFrame.page.content == TakePage(old(headerFrame.page.content), page)
      ensures files.pages == old(files.pages)[FrameId(fd, page) := Page(page, ZeroPage())]
      ensures FrameId(fd, page) !in old(files.pages)
      ensures PageAt(FrameId(fd, page)) == Some(Page(page, ZeroPage())) && f.pins == 1
      ensures forall i :: i != HeaderId() && i != FrameId(fd, page) ==> PageAt(i) == old(PageAt(i))
      ensures forall i :: i != FrameId(fd, page) ==> PinsOf(i) == old(PinsOf(i))
    {
      hide LruCache.Valid;
      hide MemoryPool.Valid;
      GrowHeader(page);
      WriteEmpty(page, f);
    }

    /** Adds an empty page at the end of the file, when a frame can be had for it. */
    method AllocateNew() returns (r: Re, f: Frame?, ghost victim: Option<FrameId>)
      requires Valid() && headerFrame.page.content.pagesNum < MAX_PAGES
      modifies manager, manager.lru, manager.lru.nodes, manager.pool, files, manager.frames
      ensures Valid() && r == if old(AllPinned()) then NoMem else Success
      ensures r == NoMem ==> headerFrame.page == old(headerFrame.page)
      ensures r == NoMem ==> forall i :: PageAt(i) == old(PageAt(i)) && PinsOf(i) == old(PinsOf(i))
      ensures Chosen(victim, old(manager.pool.free == [] && !AllPinned()), old(Unpinned()), old(manager.lru.history))
      ensures manager.lru.entries == Replaced(old(manager.lru.entries), victim, FrameId(fd, old(headerFrame.page.content.pagesNum)), if r == Success then f else null)
      ensures OthersKept(manager.lru.entries.Keys, old(manager.lru.history), manager.lru.history, FrameId(fd, old(headerFrame.page.content.pagesNum)))
      ensures r == Success ==> Latest(manager.lru.entries.Keys, manager.lru.history, FrameId(fd, old(headerFrame.page.content.pagesNum)))
      ensures WroteBack(old(files.pages), files.pages, old(UnpinnedPages()))
      ensures r == Success ==> NewPage(old(headerFrame.page.content), old(headerFrame.page.content.pagesNum), f)
      ensures r == Success ==>
        PageAt(FrameId(fd, old(headerFrame.page.content.pagesNum))) == Some(Page(old(headerFrame.page.content.pagesNum), ZeroPage()))
      ensures forall i :: i != HeaderId() && i != FrameId(fd, old(headerFrame.page.content.pagesNum)) ==> PageAt(i) == old(PageAt(i))
      ensures forall i ::
        PinsOf(i) == old(PinsOf(i)) + if r == Success && i == FrameId(fd, old(headerFrame.page.content.pagesNum)) then 1 else 0
      ensures forall i {:trigger SameFrame(i, old(manager.lru.entries))} :: old(PinsOf(i)) > 0 ==> SameFrame(i, old(manager.lru.entries))
      ensures forall i :: 0 <= i < |manager.lru.nodes| ==>
          manager.lru.nodes[i] in old(manager.lru.nodes) || fresh(manager.lru.nodes[i])
    {
      hide LruCache.Valid;
      hide MemoryPool.Valid;
      hide WroteBack;
      hide Chosen;
      hide Replaced;
      hide Latest;
      hide OthersKept;
      hide FrameOk;
      hide StoredOk;
      var page := headerFrame.page.content.pagesNum;
      if FrameId(fd, page) in manager.lru.entries {
        CachedInFile(page);
      }
      r, f, victim := AcquireFrame(page);
      if r == Success {
        MoreWritten(old(files.pages), files.pages, old(UnpinnedPages()), FrameId(fd, page), Page(page, ZeroPage()));
        ExtendFile(page, f);
      }
    }

    /** Page `page` has just been taken, with its one pin in frame `f`. */
    ghost predicate NewPage(before: Content, page: int, f: Frame?)
      reads this, manager.lru, manager.lru.entries.Values
      reads if headerFrame == null then {} else {headerFrame}
    {
      && headerFrame != null && headerFrame.page.content == TakePage(before, page)
      && !Allocated(before, page)
      && FrameId(fd, page) in manager.lru.entries && f == manager.lru.entries[FrameId(fd, page)]
    }

    /** Takes a page below the end of the file; it stays taken when no frame can be had for it. */
    method AllocateBelow() returns (r: Re, f: Frame?, ghost page: int, ghost victim: Option<FrameId>)
      requires Valid() && headerFrame.page.content.allocatedNum < headerFrame.page.content.pagesNum
      modifies manager, manager.lru, manager.lru.nodes, manager.pool, files, manager.frames
      ensures Valid() && NextPage(old(headerFrame.page.content), page) && page < old(headerFrame.page.content.pagesNum)
      ensures r == old(Outcome(page)) && headerFrame.page.content == TakePage(old(headerFrame.page.content), page)
      ensures Chosen(victim, FrameId(fd, page) !in old(manager.lru.entries) && old(manager.pool.free == [] && !AllPinned()), old(Unpinned()), old(manager.lru.history))
      ensures manager.lru.entries == Replaced(old(manager.lru.entries), victim, FrameId(fd, page), if r == Success then f else null)
      ensures OthersKept(manager.lru.entries.Keys, old(manager.lru.history), manager.lru.history, FrameId(fd, page))
      ensures r == Success ==> Latest(manager.lru.entries.Keys, manager.lru.history, FrameId(fd, page))
      ensures WroteBack(old(files.pages), files.pages, old(UnpinnedPages()))
      ensures r == Success ==> NewPage(old(headerFrame.page.content), page, f)
      ensures forall i :: i != HeaderId() ==> PageAt(i) == old(PageAt(i))
      ensures forall i :: PinsOf(i) == old(PinsOf(i)) + if r == Success && i == FrameId(fd, page) then 1 else 0
      ensures forall i {:trigger SameFrame(i, old(manager.lru.entries))} :: old(PinsOf(i)) > 0 ==> SameFrame(i, old(manager.lru.entries))
      ensures forall i :: 0 <= i < |manager.lru.nodes| ==>
          manager.lru.nodes[i] in old(manager.lru.nodes) || fresh(manager.lru.nodes[i])
    {
      hide LruCache.Valid;
      hide MemoryPool.Valid;
      hide WroteBack;
      hide Chosen;
      hide Replaced;
      hide Latest;
      hide OthersKept;
      hide FrameOk;
      hide StoredOk;
      var i := FirstClear(headerFrame.page.content);
      ReusePage(i);
      assert UnpinnedPages() == old(UnpinnedPages()) && Unpinned() == old(Unpinned());
      r, f, victim := GetPage(i);
      page := i;
    }

    /** Takes a page that is not allocated and pins it. A page below the end of the file is marked as
        taken even when no frame can be had for it, and keeps the data it had; a page at the end is empty. */
    method AllocatePage() returns (r: Re, f: Frame?, ghost page: int, ghost victim: Option<FrameId>)
      requires Valid()
      modifies manager, manager.lru, manager.lru.nodes, manager.pool, files, manager.frames
      ensures Valid() && NextPage(old(headerFrame.page.content), page)
      ensures var h := old(headerFrame.page.content);
        if page < h.pagesNum then
          && r == old(Outcome(page)) && headerFrame.page.content == TakePage(h, page)
          && PageAt(FrameId(fd, page)) == old(PageAt(FrameId(fd, page)))
        else
          && r == (if h.pagesNum >= MAX_PAGES then BufferPoolNoBuf else if old(AllPinned()) then NoMem else Success)
          && headerFrame.page.content == (if r == Success then TakePage(h, page) else h)
          && (r == Success ==> PageAt(FrameId(fd, page)) == Some(Page(page, ZeroPage())))
      ensures r == Success && page == old(headerFrame.page.content.pagesNum) ==>
        PageAt(FrameId(fd, page)).Some? && PageAt(FrameId(fd, page)).value.content.Bytes?
        && Blank(PageAt(FrameId(fd, page)).value.content.bytes)
      ensures Chosen(victim, r != BufferPoolNoBuf && FrameId(fd, page) !in old(manager.lru.entries) && old(manager.pool.free == [] && !AllPinned()), old(Unpinned()), old(manager.lru.history))
      ensures manager.lru.entries == Replaced(old(manager.lru.entries), victim, FrameId(fd, page), if r == Success then f else null)
      ensures OthersKept(manager.lru.entries.Keys, old(manager.lru.history), manager.lru.history, FrameId(fd, page))
      ensures r == Success ==> Latest(manager.lru.entries.Keys, manager.lru.history, FrameId(fd, page))
      ensures WroteBack(old(files.pages), files.pages, old(UnpinnedPages()))
      ensures r == Success ==> NewPage(old(headerFrame.page.content), page, f)
      ensures forall i :: i != HeaderId() && i != FrameId(fd, page) ==> PageAt(i) == old(PageAt(i))
      ensures forall i :: PinsOf(i) == old(PinsOf(i)) + if r == Success && i == FrameId(fd, page) then 1 else 0
      ensures forall i {:trigger SameFrame(i, old(manager.lru.entries))} :: old(PinsOf(i)) > 0 ==> SameFrame(i, old(manager.lru.entries))
      ensures forall i :: 0 <= i < |manager.lru.nodes| ==>
          manager.lru.nodes[i] in old(manager.lru.nodes) || fresh(manager.lru.nodes[i])
    {
      hide LruCache.Valid;
      hide MemoryPool.Valid;
      hide WroteBack;
      hide Oldest;
      hide Replaced;
      hide Latest;
      hide OthersKept;
      hide FrameOk;
      hide StoredOk;
      ghost var h := headerFrame.page.content;
      SomeClear(h);
      if headerFrame.page.content.allocatedNum < headerFrame.page.content.pagesNum {
        r, f, page, victim := AllocateBelow();
        return;
      }
      page := h.pagesNum;
      if headerFrame.page.content.pagesNum >= MAX_PAGES {
        Recency(manager.lru.entries.Keys, manager.lru.history, [], FrameId(fd, page));
        assert manager.lru.history + [] == manager.lru.history;
        NothingWritten(files.pages, UnpinnedPages());
        ReplacedSame(manager.lru.entries, FrameId(fd, page));
        return BufferPoolNoBuf, null, page, None;
      }
      if FrameId(fd, page) in manager.lru.entries {
        CachedInFile(page);
      }
      r, f, victim := AllocateNew();
    }

    /** Writes back the frame of a cached page. */
    method FlushCached(f: Frame, ghost page: int)
      requires Valid() && FrameId(fd, page) in manager.lru.entries && manager.lru.entries[FrameId(fd, page)] == f
      modifies files, f`dirty
      ensures Valid() && !f.dirty
      ensures forall i :: PageAt(i) == old(PageAt(i)) && PinsOf(i) == old(PinsOf(i))
    {
      hide LruCache.Valid;
      hide MemoryPool.Valid;
      ghost var id := FrameId(fd, page);
      assert FrameOk(id);
      FlushPage(f);
      forall i | i in manager.lru.entries ensures FrameOk(i) {
        assert old(FrameOk(i));
      }
      forall i | i in files.pages ensures StoredOk(i) {
        assert i != id ==> old(StoredOk(i));
        assert old(StoredOk(id));
      }
      forall p | p in disposed ensures DisposedOk(p) {
        assert old(DisposedOk(p));
      }
    }

    /** Writes back every cached page of the file: then the file alone holds what its pages hold. */
    method FlushAllPages()
      requires Valid()
      modifies files, manager.frames`dirty
      ensures Valid()
      ensures forall i :: PageAt(i) == old(PageAt(i)) && PinsOf(i) == old(PinsOf(i))
      ensures forall i: FrameId :: i.fd == fd && i in files.pages ==> Some(files.pages[i]) == PageAt(i)
      ensures files.FileOk(fd)
    {
      hide LruCache.Valid;
      hide MemoryPool.Valid;
      var used: seq<Frame>;
      ghost var ids: seq<int>;
      used, ids := manager.FindFrames(fd);
      for n := 0 to |used|
        invariant Valid()
        invariant forall i :: PageAt(i) == old(PageAt(i)) && PinsOf(i) == old(PinsOf(i))
        invariant forall k :: 0 <= k < n ==> !used[k].dirty
      {
        FlushCached(used[n], ids[n]);
      }
      forall i: FrameId | i.fd == fd && i in files.pages ensures Some(files.pages[i]) == PageAt(i) {
        if i in manager.lru.entries {
          assert FrameOk(i);
        }
      }
      assert FrameOk(HeaderId());
    }

    /** Reads the header page into the frame just taken for it. */
    method LoadHeader(f: Frame) returns (r: Re)
      requires disposed == {} && manager.Valid() && Coherent(Some(HeaderId())) && files.FileOk(fd)
      requires HeaderId() in manager.lru.entries && manager.lru.entries[HeaderId()] == f
      modifies f, `headerFrame
      ensures Valid() && r == Success && PinsOf(HeaderId()) == 1
      ensures PageAt(HeaderId()) == Some(files.pages[HeaderId()])
      ensures forall i :: i != HeaderId() ==> PageAt(i) == old(PageAt(i)) && PinsOf(i) == old(PinsOf(i))
    {
      hide HeaderOk;
      hide LruCache.Valid;
      hide MemoryPool.Valid;
      headerFrame := f;
      f.dirty, f.fd, f.pins := false, fd, 1;
      r := LoadPage(0, f);
      forall i | i in files.pages ensures StoredOk(i) {
        assert old(StoredOk(i));
      }
      assert StoredOk(HeaderId());
      forall i | i in manager.lru.entries ensures FrameOk(i) {
        if i != HeaderId() {
          assert old(FrameOk(i));
        }
      }
    }

    /** Opens the file: its header page gets a frame that stays pinned. */
    method OpenFile() returns (r: Re)
      requires headerFrame == null && disposed == {} && manager.Valid() && Coherent(None)
      requires HeaderId() !in manager.lru.entries && files.FileOk(fd)
      modifies manager, manager.lru, manager.lru.nodes, manager.pool, files, manager.frames, `headerFrame
      ensures r == if old(AllPinned()) then NoMem else Success
      ensures manager.Valid() && Coherent(None)
      ensures r == Success ==> Valid() && PinsOf(HeaderId()) == 1 && disposed == {}
      ensures forall i :: PageAt(i) == old(PageAt(i))
      ensures WroteBack(old(files.pages), files.pages, old(UnpinnedPages()))
      ensures forall i :: i != HeaderId() ==> PinsOf(i) == old(PinsOf(i))
    {
      hide LruCache.Valid;
      hide MemoryPool.Valid;
      var f: Frame?;
      ghost var victim;
      r, f, victim := AllocateFrame(0);
      if r == Success {
        r := LoadHeader(f);
      }
    }

    /** A page may be used when it lies below the end of the file and is allocated. */
    method CheckPageId(page: nat) returns (r: Re)
      requires Valid()
      ensures r == if Allocated(headerFrame.page.content, page) then Success else BufferPoolInvalidPageId
    {
      var h := headerFrame.page.content;
      if page >= h.pagesNum {
        return BufferPoolInvalidPageId;
      }
      r := if h.bitmap[page] then Success else BufferPoolInvalidPageId;
    }

    // How many frames can be had.

    ghost function PinnedPages(): set<FrameId>
      reads manager.lru, manager.lru.entries.Values
    {
      set i | i in manager.lru.entries && PinsOf(i) > 0
    }

    /** A frame can be had exactly while fewer pages are pinned than there are frames. */
    lemma RoomLeft()
      requires manager.Valid()
      ensures !AllPinned() <==> |PinnedPages()| < |manager.frames|
    {
      hide LruCache.Valid;
      hide MemoryPool.Valid;
      manager.FrameCount();
      var keys := manager.lru.entries.Keys;
      assert |keys| == |manager.lru.entries|;
      assert PinnedPages() <= keys;
      if i :| i in manager.lru.entries && PinsOf(i) == 0 {
        Smaller(PinnedPages(), keys - {i});
      } else {
        assert PinnedPages() == keys;
      }
    }
  }

  lemma Smaller<T>(a: set<T>, b: set<T>)
    requires a <= b
    ensures |a| <= |b|
    decreases |b|
  {
    if x :| x in a {
      Smaller(a - {x}, b - {x});
    }
  }

  /** The data of a page cleared to zeros. */
  function ZeroPage(): (c: Content)
    ensures c.Bytes? && Blank(c.bytes)
  {
    Bytes(seq(PAGE_DATA_SIZE, i => 0))
  }

  /** As many zeros as a page has data. */
  predicate Blank(bytes: seq<bv8>) {
    |bytes| == PAGE_DATA_SIZE && forall i :: 0 <= i < |bytes| ==> bytes[i] == 0
  }
}
