/** The frames of the buffer pool: their allocator and the cache that finds them. */
module FrameManager {
  import opened Keys
  import opened LruCache

  const POOL_ITEMS := 128

  datatype FrameId = FrameId(fd: int, page: int)

  /** The data of a page: the first page of a file is its header. */
  datatype Content =
    | Bytes(bytes: seq<bv8>)
    | Header(pagesNum: nat, allocatedNum: int, bitmap: seq<bool>)

  /** A page as stored: its own number and its data. */
  datatype Page = Page(pageId: int, content: Content)

  class Frame {
    var dirty: bool
    var pins: nat
    var fd: int
    var page: Page

    constructor ()
      ensures !dirty && pins == 0 && fd == -1
    {
      dirty, pins, fd, page := false, 0, -1, Page(0, Bytes([]));
    }
  }

  /** The allocator of frames. */
  class MemoryPool {
    var isDynamic: bool
    var free: seq<Frame>
    var used: set<Frame>
    ghost var items: set<Frame>

    /** Every item is free once or in use, and not both. */
    ghost predicate Valid()
      reads this
    {
      && Distinct(free)
      && (forall i :: 0 <= i < |free| ==> free[i] in items && free[i] !in used)
      && used <= items
      && (forall f :: f in items ==> f in used || f in free)
    }

    constructor (dynamic: bool, poolNum: nat)
      ensures Valid() && isDynamic == dynamic && used == {} && |free| == poolNum * POOL_ITEMS
      ensures fresh(items)
    {
      isDynamic, free, used, items := dynamic, [], {}, {};
      new;
      for i := 0 to poolNum
        invariant Valid() && isDynamic == dynamic && used == {} && |free| == i * POOL_ITEMS
        invariant fresh(items)
      {
        Extend();
      }
    }

    method Extend()
      requires Valid()
      modifies `free, `items
      ensures Valid() && |free| == |old(free)| + POOL_ITEMS && free[..|old(free)|] == old(free)
      ensures old(items) <= items && fresh(items - old(items))
    {
      for i := 0 to POOL_ITEMS
        invariant Valid() && |free| == |old(free)| + i && free[..|old(free)|] == old(free)
        invariant old(items) <= items && fresh(items - old(items))
      {
        var f := new Frame();
        DistinctPush(free, f);
        free, items := free + [f], items + {f};
      }
    }

    /** Takes the frame that has been free longest; none is left only in a pool that cannot grow. */
    method Alloc() returns (f: Frame?)
      requires Valid()
      modifies `free, `used, `items
      ensures Valid() && (f == null <==> old(free) == [] && !isDynamic)
      ensures f == null ==> free == old(free) && used == old(used)
      ensures f != null ==> used == old(used) + {f} && f !in old(used)
      ensures old(free) != [] ==> f == old(free)[0] && free == old(free)[1..]
      ensures old(free) == [] && f != null ==> fresh(f) && |free| == POOL_ITEMS - 1
      ensures old(free) != [] || !isDynamic ==> items == old(items)
      ensures old(items) <= items && fresh(items - old(items))
    {
      if free == [] {
        if !isDynamic {
          return null;
        }
        Extend();
      }
      f := free[0];
      DistinctPop(free);
      free, used := free[1..], used + {f};
    }

    /** Nothing is lost: free and used items add up to all items. */
    lemma ItemCount()
      requires Valid()
      ensures |used| + |free| == |items|
    {
      CountElements(free, items - used);
    }

    method Free(item: Frame)
      requires Valid()
      modifies `free, `used
      ensures Valid() && used == old(used) - {item}
      ensures free == if item in old(used) then old(free) + [item] else old(free)
    {
      if item in used {
        DistinctPush(free, item);
        used, free := used - {item}, free + [item];
      }
    }
  }

  /** The frames in use, found by the page they hold. */
  class FrameManager {
    const lru: LruCache<FrameId, Frame>
    const pool: MemoryPool
    /** The page each frame in use was allocated for. */
    ghost var owner: map<Frame, FrameId>
    ghost const frames: set<Frame>

    /** Every frame is either free or in use, and the frames in use are exactly the cached ones,
        one for each page. */
    ghost predicate Valid()
      reads this, lru, lru.nodes, lru.searcher.Values, pool
    {
      && lru.Valid() && pool.Valid() && !pool.isDynamic
      && owner.Keys == pool.used <= frames
      && frames == pool.items
      && (forall id :: id in lru.entries ==> lru.entries[id] in owner && owner[lru.entries[id]] == id)
      && (forall f :: f in owner ==> owner[f] in lru.entries && lru.entries[owner[f]] == f)
    }

    constructor (poolNum: nat)
      ensures Valid() && fresh(lru) && fresh(pool)
      ensures lru.entries == map[] && lru.nodes == [] && |pool.free| == poolNum * 128
      ensures forall f :: f in frames ==> fresh(f)
    {
      var l := new LruCache<FrameId, Frame>();
      var p := new MemoryPool(false, poolNum);
      lru, pool, owner, frames := l, p, map[], p.items;
    }

    method GetFrame(fd: int, page: int) returns (f: Frame?)
      requires Valid()
      modifies lru, lru.nodes
      ensures Valid() && lru.entries == old(lru.entries)
      ensures f == if FrameId(fd, page) in lru.entries then lru.entries[FrameId(fd, page)] else null
      ensures lru.history == old(lru.history) + if f == null then [] else [FrameId(fd, page)]
      ensures forall i :: 0 <= i < |lru.nodes| ==> lru.nodes[i] in old(lru.nodes)
    {
      var r := lru.Get(FrameId(fd, page));
      f := if r.Some? then r.value else null;
    }

    /** Takes a free frame for a page; none when the page has one already or no frame is free. */
    method Alloc(fd: int, page: int) returns (f: Frame?)
      requires Valid()
      modifies this, lru, lru.nodes, pool
      ensures Valid()
      ensures f == null <==> FrameId(fd, page) in old(lru.entries) || old(pool.free) == []
      ensures f == null ==> lru.entries == old(lru.entries) && pool.free == old(pool.free)
      ensures f == null && FrameId(fd, page) !in lru.entries ==> lru.history == old(lru.history)
      ensures f != null ==> lru.entries == old(lru.entries)[FrameId(fd, page) := f]
      ensures f != null ==> lru.history == old(lru.history) + [FrameId(fd, page)]
      ensures f != null ==> old(pool.free) == [f] + pool.free && f !in old(lru.entries).Values && f in frames
      ensures forall i :: 0 <= i < |lru.nodes| ==> lru.nodes[i] in old(lru.nodes) || fresh(lru.nodes[i])
    {
      hide LruCache.Valid;
      hide MemoryPool.Valid;
      var id := FrameId(fd, page);
      var r := lru.Get(id);
      if r.Some? {
        return null;
      }
      f := pool.Alloc();
      if f != null {
        lru.Put(id, f);
        owner := owner[f := id];
      }
    }

    /** Gives back the frame of a page; refused when the page is not cached in that frame. */
    method Free(fd: int, page: int, frame: Frame) returns (ok: bool)
      requires Valid()
      modifies this, lru, lru.nodes, pool
      ensures Valid()
      ensures ok <==> FrameId(fd, page) in old(lru.entries) && old(lru.entries)[FrameId(fd, page)] == frame
      ensures lru.entries == if ok then old(lru.entries) - {FrameId(fd, page)} else old(lru.entries)
      ensures pool.free == if ok then old(pool.free) + [frame] else old(pool.free)
      ensures lru.history == old(lru.history) + if FrameId(fd, page) in old(lru.entries) then [FrameId(fd, page)] else []
      ensures forall i :: 0 <= i < |lru.nodes| ==> lru.nodes[i] in old(lru.nodes)
    {
      hide LruCache.Valid;
      hide MemoryPool.Valid;
      var id := FrameId(fd, page);
      var r := lru.Get(id);
      if r.None? || frame != r.value {
        return false;
      }
      lru.Remove(id);
      owner := owner - {frame};
      pool.Free(frame);
      ok := true;
    }

    /** The unpinned frame whose page was used longest ago. */
    method GetPurgeableFrame() returns (f: Frame?)
      requires Valid()
      ensures f == null ==> forall id :: id in lru.entries ==> lru.entries[id].pins > 0
      ensures f != null ==> f in owner && f in frames && f.pins == 0
      ensures f != null ==> forall id :: id in lru.entries && lru.entries[id].pins == 0 ==>
        LastUse(lru.history, owner[f]) <= LastUse(lru.history, id)
    {
      var r, id := lru.ForeachReverse((x: Frame) reads x => x.pins == 0);
      f := if r.Some? then r.value else null;
    }

    /** The frames that hold pages of a file. */
    method FindFrames(fd: int) returns (found: seq<Frame>, ghost pages: seq<int>)
      requires Valid()
      ensures |found| == |pages|
      ensures forall i :: 0 <= i < |found| ==>
        FrameId(fd, pages[i]) in lru.entries && lru.entries[FrameId(fd, pages[i])] == found[i]
      ensures forall id :: id in lru.entries && id.fd == fd ==> lru.entries[id] in found
    {
      var ids := lru.Foreach();
      found, pages := [], [];
      for i := 0 to |ids|
        invariant |found| == |pages|
        invariant forall k :: 0 <= k < |found| ==>
          FrameId(fd, pages[k]) in lru.entries && lru.entries[FrameId(fd, pages[k])] == found[k]
        invariant forall k :: 0 <= k < i && ids[k].fd == fd ==> ids[k] in lru.entries && lru.entries[ids[k]] in found
      {
        assert FoundAt(lru.nodes, lru.order, lru.searcher, i);
        if ids[i].fd == fd {
          found, pages := found + [lru.searcher[ids[i]].value], pages + [ids[i].page];
        }
      }
      forall id | id in lru.entries && id.fd == fd ensures lru.entries[id] in found {
        assert Listed(lru.order, id);
      }
    }

    /** The cached pages and the free frames always add up to the frames of the pool. */
    lemma FrameCount()
      requires Valid()
      ensures |lru.entries| + |pool.free| == |frames|
    {
      pool.ItemCount();
      SameCount(owner, lru.entries);
    }
  }

  /** Two maps that are inverse to each other have as many keys. */
  lemma {:induction false} SameCount<A, B>(m: map<A, B>, n: map<B, A>)
    requires forall a :: a in m ==> m[a] in n && n[m[a]] == a
    requires forall b :: b in n ==> n[b] in m && m[n[b]] == b
    ensures |m| == |n|
    decreases |m|
  {
    if m != map[] {
      var a :| a in m;
      var b := m[a];
      var m', n' := m - {a}, n - {b};
      assert m == m'[a := b] && n == n'[b := a];
      SameCount(m', n');
    } else {
      assert n == map[];
    }
  }
}
