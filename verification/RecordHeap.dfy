/** The records of a table: pages of slots, found through record ids. */
module RecordHeap {
  import opened ReturnCodes
  import opened Keys
  import opened FrameManager
  import opened PageHeader
  import opened Bitmap

  type Data = seq<bv8>

  type Records = imap<RecordId, Data>

  /** A record page: how many records it counts, which slots are taken, and what every slot holds. */
  datatype RecordPage = RecordPage(recordNum: int, bits: seq<bool>, slots: seq<Data>)

  ghost predicate PageOk(p: RecordPage, capacity: nat) {
    |p.bits| == |p.slots| == capacity && p.recordNum == CountSet(p.bits)
  }

  /** Whether a slot of the page holds a record. */
  predicate Taken(p: RecordPage, slot: int) {
    0 <= slot < |p.bits| && slot < |p.slots| && p.bits[slot]
  }

  function EmptyPage(capacity: nat): RecordPage {
    RecordPage(0, seq(capacity, i => false), seq(capacity, i => []))
  }

  lemma {:induction false} NoneSet(bits: seq<bool>)
    requires forall i :: 0 <= i < |bits| ==> !bits[i]
    ensures CountSet(bits) == 0
  {
    if bits != [] {
      NoneSet(bits[..|bits| - 1]);
    }
  }

  /** A page is full exactly when every slot is taken, and empty when none is. */
  lemma FullAndEmpty(p: RecordPage, capacity: nat)
    requires PageOk(p, capacity)
    ensures 0 <= p.recordNum <= capacity
    ensures p.recordNum == capacity <==> forall i :: 0 <= i < capacity ==> p.bits[i]
    ensures p.recordNum == 0 <==> forall i :: 0 <= i < capacity ==> !p.bits[i]
  {
    if i :| 0 <= i < capacity && !p.bits[i] {
      CountUpdate(p.bits, i, true);
    } else {
      AllSet(p.bits);
    }
    if i :| 0 <= i < capacity && p.bits[i] {
      CountUpdate(p.bits, i, false);
    } else {
      NoneSet(p.bits);
    }
  }

  function WithRecord(p: RecordPage, slot: nat, data: Data): RecordPage
    requires slot < |p.bits| && slot < |p.slots|
  {
    RecordPage(p.recordNum + 1, p.bits[slot := true], p.slots[slot := data])
  }

  function WithoutRecord(p: RecordPage, slot: nat): RecordPage
    requires slot < |p.bits|
  {
    RecordPage(p.recordNum - 1, p.bits[slot := false], p.slots)
  }

  lemma RecordAdded(p: RecordPage, slot: nat, data: Data, capacity: nat)
    requires PageOk(p, capacity) && slot < capacity && !p.bits[slot]
    ensures PageOk(WithRecord(p, slot, data), capacity)
  {
    CountUpdate(p.bits, slot, true);
  }

  lemma RecordDropped(p: RecordPage, slot: nat, capacity: nat)
    requires PageOk(p, capacity) && slot < capacity && p.bits[slot]
    ensures PageOk(WithoutRecord(p, slot), capacity)
  {
    CountUpdate(p.bits, slot, false);
  }

  /** The first set, or first clear, bit from `start` on; -1 when there is none. */
  function NextBit(bits: seq<bool>, start: nat, value: bool): (r: int)
    ensures r == -1 || (start <= r < |bits| && bits[r] == value)
    ensures forall i :: start <= i < (if r == -1 then |bits| else r) ==> bits[i] != value
    decreases |bits| - start
  {
    if start >= |bits| then -1 else if bits[start] == value then start else NextBit(bits, start + 1, value)
  }

  /** The bits of a page are those of a bitmap in bytes. */
  ghost predicate SameBits(m: BitMap, bits: seq<bool>)
    reads m.bytes
  {
    m.Fits() && |bits| == m.size && forall i :: 0 <= i < |bits| ==> bits[i] == m.At(i)
  }

  /** An insertion looks for the first free slot: what it finds in the bytes is what there is in the bits. */
  method FirstFree(m: BitMap, ghost bits: seq<bool>) returns (slot: int)
    requires SameBits(m, bits)
    ensures slot == NextBit(bits, 0, false)
  {
    slot := m.NextUnsetBit(0);
    assert m.IsNextClear(0, slot);
    ghost var next := NextBit(bits, 0, false);
    assert next != -1 ==> !m.At(next);
    assert slot != -1 ==> !bits[slot];
  }

  /** A scan looks for the next taken slot, from the first one or from behind a taken one: likewise. */
  method NextTaken(m: BitMap, start: nat, ghost bits: seq<bool>) returns (slot: int)
    requires SameBits(m, bits) && (start == 0 || (start <= |bits| && bits[start - 1]))
    ensures slot == NextBit(bits, start, true)
  {
    slot := m.NextSetBit(start);
    if start > 0 {
      forall i | start <= i < m.size ensures !m.Skipped(start, i) {
        m.AfterSetBit(start - 1, i);
      }
    }
    assert m.IsNextSet(start, slot);
    ghost var next := NextBit(bits, start, true);
    assert next != -1 ==> m.At(next);
    assert slot != -1 ==> bits[slot];
  }

  /** The data file: its header, and what every page of it holds, allocated or not. */
  class PageFile {
    var header: Content
    var pages: map<int, RecordPage>

    constructor ()
      ensures header == FreshHeader() && pages == map[]
    {
      header, pages := FreshHeader(), map[];
    }

    /** Every page but the header page is there up to the end of the file. */
    ghost predicate Valid()
      reads this
    {
      HeaderOk(header) && forall id :: id in pages <==> 1 <= id < header.pagesNum
    }

    /** Takes a page as the pool does: the first one that is not allocated. */
    method AllocatePage() returns (re: Re, id: int)
      requires Valid()
      modifies this
      ensures Valid() && id == NextPageOf(old(header))
      ensures re == if id < MAX_PAGES then Success else BufferPoolNoBuf
      ensures header == if re == Success then TakePage(old(header), id) else old(header)
      ensures re == Success ==> id > 0 && id in pages
      ensures re != Success ==> pages == old(pages)
      ensures forall i :: i in old(pages) ==> i in pages && pages[i] == old(pages)[i]
      ensures forall i :: i in pages && i != id ==> i in old(pages)
    {
      SomeClear(header);
      if header.allocatedNum < header.pagesNum {
        id := FirstClear(header);
        OneNextPage(header, id);
      } else {
        id := header.pagesNum;
        OneNextPage(header, id);
        if header.pagesNum >= MAX_PAGES {
          return BufferPoolNoBuf, id;
        }
        pages := pages[id := RecordPage(0, [], [])];
      }
      TakeOk(header, id);
      header := TakePage(header, id);
      re := Success;
    }

    method DisposePage(id: int)
      requires Valid() && Allocated(header, id) && id != 0
      modifies `header
      ensures Valid() && header == GivePage(old(header), id)
    {
      GiveOk(header, id);
      header := GivePage(header, id);
    }
  }

  lemma EmptyIfNone(s: set<int>)
    ensures (forall id :: id !in s) ==> s == {}
  {
    if forall id :: id !in s {
      assert s == {};
    }
  }

  /** Some element of a set. */
  method First(s: set<int>) returns (id: int)
    requires s != {}
    ensures id in s
  {
    EmptyIfNone(s);
    id :| id in s;
  }

  class RecordFileHandler {
    const file: PageFile
    const capacity: nat
    var freePages: set<int>

    constructor (file: PageFile, capacity: nat)
      requires file.Valid() && file.header == FreshHeader() && capacity > 0
      ensures this.file == file && this.capacity == capacity && Valid()
      ensures forall rid :: RecordAt(rid) == None
    {
      FreshHeaderOk();
      this.file, this.capacity, freePages := file, capacity, {};
    }

    ghost predicate PageIs(id: int)
      requires id in file.pages
      reads file
    {
      PageOk(file.pages[id], capacity)
    }

    /** Every page is in order, allocated or not. */
    ghost predicate PagesOk()
      reads file
    {
      capacity > 0 && file.Valid() && forall id {:trigger PageIs(id)} :: id in file.pages ==> PageIs(id)
    }

    ghost predicate CleanPage(id: int)
      reads file
    {
      id in file.pages && !Allocated(file.header, id) ==> file.pages[id].recordNum == 0
    }

    /** A page that is not allocated holds no record. */
    ghost predicate Clean()
      reads file
    {
      forall id {:trigger CleanPage(id)} :: CleanPage(id)
    }

    /** The pages listed as free are allocated. */
    ghost predicate FreeAllocated()
      reads this, file
    {
      forall id :: id in freePages ==> id != 0 && Allocated(file.header, id)
    }

    /** Every allocated page with room is listed as free. */
    ghost predicate RoomListed()
      reads this, file
    {
      forall id :: id in file.pages && Allocated(file.header, id) && file.pages[id].recordNum < capacity ==> id in freePages
    }

    /** What every call keeps: whatever is listed as free is a page of the file. */
    ghost predicate Sound()
      reads this, file
    {
      PagesOk() && RoomListed() && forall id :: id in freePages ==> id in file.pages
    }

    ghost predicate Valid()
      reads this, file
    {
      Sound() && Clean() && FreeAllocated()
    }

    /** The record of an allocated page that a record id names: what a scan returns for it. */
    ghost function RecordAt(rid: RecordId): Option<Data>
      reads file
    {
      if rid.page in file.pages && Allocated(file.header, rid.page) && Taken(file.pages[rid.page], rid.slot)
      then Some(file.pages[rid.page].slots[rid.slot]) else None
    }

    /** The heap as a map. */
    ghost function Stored(): Records
      reads file
    {
      imap rid | RecordAt(rid).Some? :: RecordAt(rid).value
    }

    /** Puts a record in the first free slot of a page with room. */
    method InsertInPage(id: int, data: Data) returns (re: Re, rid: RecordId)
      requires Sound() && id in freePages && file.pages[id].recordNum < capacity
      modifies file`pages
      ensures Sound() && (old(Valid()) ==> Valid()) && re == Success && rid.page == id && 0 <= rid.slot < capacity
      ensures forall slot :: 0 <= slot < rid.slot ==> old(Taken(file.pages[id], slot))
      ensures old(RecordAt(rid)) == None && RecordAt(rid) == if Allocated(file.header, id) then Some(data) else None
      ensures forall r :: r != rid ==> RecordAt(r) == old(RecordAt(r))
    {
      assert PageIs(id);
      var page := file.pages[id];
      FullAndEmpty(page, capacity);
      if page.recordNum == capacity {
        return RecordNoMem, RecordId(id, -1);
      }
      var slot := NextBit(page.bits, 0, false);
      RecordAdded(page, slot, data, capacity);
      file.pages := file.pages[id := WithRecord(page, slot, data)];
      re, rid := Success, RecordId(id, slot);
      forall i | i in file.pages ensures PageIs(i) {
        assert i != id ==> old(PageIs(i));
      }
      if old(Valid()) {
        forall i ensures CleanPage(i) {
          assert old(CleanPage(i));
        }
      }
    }

    /** Finds a listed page with room; full pages met on the way are no longer listed. */
    method PickPage() returns (id: int)
      requires Sound()
      modifies `freePages
      ensures Sound() && (old(Valid()) ==> Valid()) && freePages <= old(freePages)
      ensures id != -1 ==> id in freePages && file.pages[id].recordNum < capacity
      ensures id == -1 ==> freePages == {} && forall i :: i in old(freePages) ==> file.pages[i].recordNum == capacity
    {
      while freePages != {}
        invariant Sound() && (old(Valid()) ==> Valid()) && freePages <= old(freePages)
        invariant forall i :: i in old(freePages) && i !in freePages ==> file.pages[i].recordNum == capacity
        decreases freePages
      {
        id := First(freePages);
        assert PageIs(id);
        FullAndEmpty(file.pages[id], capacity);
        if file.pages[id].recordNum < capacity {
          return;
        }
        freePages := freePages - {id};
      }
      id := -1;
    }

    /** Stores a record in a listed page with room, else in a new page. Whether a scan can return the record
        depends on whether that page is allocated: the list is not asked for more than a page of the file. */
    method InsertRecord(data: Data) returns (re: Re, rid: RecordId)
      requires Sound()
      modifies this, file
      ensures Sound() && (old(Valid()) ==> Valid())
      ensures re == Success ==> 0 < rid.page < MAX_PAGES && 0 <= rid.slot < capacity && rid.page in freePages
      ensures re == Success ==> old(RecordAt(rid)) == None && RecordAt(rid) == if Allocated(file.header, rid.page) then Some(data) else None
      ensures forall r :: re != Success || r != rid ==> RecordAt(r) == old(RecordAt(r))
      ensures re == Success ==>
        if exists id :: id in old(freePages) && old(file.pages)[id].recordNum < capacity
        then && rid.page in old(freePages) && freePages <= old(freePages) && file.header == old(file.header)
             && forall slot :: 0 <= slot < rid.slot ==> Taken(old(file.pages)[rid.page], slot)
        else freePages == {rid.page} && Allocated(file.header, rid.page) && rid.slot == 0
      ensures re != Success ==> re == BufferPoolNoBuf && file.header == old(file.header) && NextPageOf(file.header) >= MAX_PAGES
      ensures re != Success ==> forall id :: id in file.pages && Allocated(file.header, id) ==> file.pages[id].recordNum == capacity
    {
      var id := PickPage();
      if id == -1 {
        re, id := NewPage();
      } else {
        re := Success;
      }
      if re == Success {
        ghost var page := file.pages[id];
        re, rid := InsertInPage(id, data);
        assert rid.slot > 0 ==> Taken(page, 0);
      } else {
        rid := RecordId(id, -1);
      }
    }

    /** Takes a page, clears it and lists it as free. */
    method NewPage() returns (re: Re, id: int)
      requires Sound() && freePages == {}
      modifies this, file
      ensures Sound() && (old(Valid()) ==> Valid()) && (re == Success || re == BufferPoolNoBuf)
      ensures forall r :: RecordAt(r) == old(RecordAt(r))
      ensures re == Success ==> freePages == {id} && id < MAX_PAGES && Allocated(file.header, id) && file.pages[id] == EmptyPage(capacity)
      ensures re != Success ==> file.header == old(file.header) && NextPageOf(file.header) >= MAX_PAGES
      ensures re != Success ==> forall i :: i in file.pages && Allocated(file.header, i) ==> file.pages[i].recordNum == capacity
    {
      re, id := file.AllocatePage();
      if re == Success {
        TakeOk(old(file.header), id);
        NoneSet(EmptyPage(capacity).bits);
        file.pages := file.pages[id := EmptyPage(capacity)];
        freePages := freePages + {id};
        forall i | i in file.pages ensures PageIs(i) {
          assert i != id ==> old(PageIs(i));
        }
        if old(Valid()) {
          forall i ensures CleanPage(i) {
            assert old(CleanPage(i));
          }
        }
      } else {
        forall i | i in file.pages ensures PageIs(i) {
          assert old(PageIs(i));
        }
        if old(Valid()) {
          forall i ensures CleanPage(i) {
            assert old(CleanPage(i));
          }
        }
        forall i | i in file.pages && Allocated(file.header, i) ensures file.pages[i].recordNum == capacity {
          assert PageIs(i);
          FullAndEmpty(file.pages[i], capacity);
        }
      }
    }

    /** Changes a record; what is not there is not changed. */
    method UpdateRecord(rid: RecordId, data: Data) returns (re: Re)
      requires Valid() && rid.page != 0 && rid.slot >= 0
      modifies file`pages
      ensures Valid()
      ensures re == if rid.page !in old(file.pages) then IoErrRead else if rid.slot >= capacity then InvalidArgument
                    else if old(RecordAt(rid)) == None then RecordRecordNotExist else Success
      ensures re == Success <==> old(RecordAt(rid)) != None
      ensures re == Success ==> RecordAt(rid) == Some(data)
      ensures forall r :: re != Success || r != rid ==> RecordAt(r) == old(RecordAt(r))
    {
      if rid.page !in file.pages {
        return IoErrRead;
      }
      assert PageIs(rid.page) && CleanPage(rid.page);
      var page := file.pages[rid.page];
      FullAndEmpty(page, capacity);
      if rid.slot >= capacity {
        return InvalidArgument;
      }
      if !page.bits[rid.slot] {
        return RecordRecordNotExist;
      }
      file.pages := file.pages[rid.page := page.(slots := page.slots[rid.slot := data])];
      re := Success;
      forall i | i in file.pages ensures PageIs(i) {
        assert old(PageIs(i));
      }
      forall i ensures CleanPage(i) {
        assert old(CleanPage(i));
      }
    }

    method GetRecord(rid: RecordId) returns (re: Re, data: Data)
      requires Valid() && rid.page != 0 && rid.slot >= 0
      ensures re == if rid.page !in file.pages then IoErrRead else if rid.slot >= capacity then RecordInvalidRId
                    else if RecordAt(rid) == None then RecordRecordNotExist else Success
      ensures re == Success <==> RecordAt(rid) != None
      ensures re == Success ==> RecordAt(rid) == Some(data)
    {
      data := [];
      if rid.page !in file.pages {
        return IoErrRead, data;
      }
      assert PageIs(rid.page) && CleanPage(rid.page);
      var page := file.pages[rid.page];
      FullAndEmpty(page, capacity);
      if rid.slot >= capacity {
        return RecordInvalidRId, data;
      }
      if !page.bits[rid.slot] {
        return RecordRecordNotExist, data;
      }
      re, data := Success, page.slots[rid.slot];
    }

    /** Takes a record off its page; the last one takes the page with it, unless someone else has it pinned. */
    method DropRecord(rid: RecordId, pinned: bool)
      requires PagesOk() && Clean() && RoomListed() && RecordAt(rid) != None && rid.page != 0
      modifies file
      ensures PagesOk() && Clean() && RecordAt(rid) == None && file.pages.Keys == old(file.pages.Keys)
      ensures forall r :: r != rid ==> RecordAt(r) == old(RecordAt(r))
      ensures forall i :: i != rid.page ==>
        (Allocated(file.header, i) <==> Allocated(old(file.header), i)) && (i in file.pages ==> file.pages[i] == old(file.pages)[i])
      ensures Allocated(file.header, rid.page) <==> pinned || exists slot :: RecordAt(RecordId(rid.page, slot)) != None
    {
      assert PageIs(rid.page) && CleanPage(rid.page);
      var page := file.pages[rid.page];
      RecordDropped(page, rid.slot, capacity);
      FullAndEmpty(WithoutRecord(page, rid.slot), capacity);
      file.pages := file.pages[rid.page := WithoutRecord(page, rid.slot)];
      if file.pages[rid.page].recordNum == 0 {
        if !pinned {
          GiveOk(file.header, rid.page);
          file.DisposePage(rid.page);
        }
      } else {
        var slot :| 0 <= slot < capacity && file.pages[rid.page].bits[slot];
        assert RecordAt(RecordId(rid.page, slot)) != None;
      }
      forall i | i in file.pages ensures PageIs(i) {
        assert old(PageIs(i));
      }
      forall i ensures CleanPage(i) {
        assert old(CleanPage(i));
      }
      forall r | r != rid ensures RecordAt(r) == old(RecordAt(r)) {
        if r.page == rid.page && 0 <= r.slot < capacity {
          assert page.bits[r.slot] == file.pages[rid.page].bits[r.slot];
        }
      }
    }

    /** Finds the record to be deleted. */
    method FindRecord(rid: RecordId) returns (re: Re)
      requires PagesOk() && Clean() && rid.page != 0 && rid.slot >= 0
      ensures re == if rid.page !in file.pages then IoErrRead else if rid.slot >= capacity then InvalidArgument
                    else if RecordAt(rid) == None then RecordRecordNotExist else Success
      ensures re == Success <==> RecordAt(rid) != None
    {
      if rid.page !in file.pages {
        return IoErrRead;
      }
      assert PageIs(rid.page) && CleanPage(rid.page);
      FullAndEmpty(file.pages[rid.page], capacity);
      if rid.slot >= capacity {
        return InvalidArgument;
      }
      re := if file.pages[rid.page].bits[rid.slot] then Success else RecordRecordNotExist;
    }

    /** Removes a record, and gives its page up when it was the last one there. As it is meant: handlers give
        their pins back, and a page given up is not listed as free (record.cpp:297-299 lists it again). */
    method DeleteRecord(rid: RecordId) returns (re: Re)
      requires Valid() && rid.page != 0 && rid.slot >= 0
      modifies this, file
      ensures Valid()
      ensures re == if rid.page !in old(file.pages) then IoErrRead else if rid.slot >= capacity then InvalidArgument
                    else if old(RecordAt(rid)) == None then RecordRecordNotExist else Success
      ensures re == Success <==> old(RecordAt(rid)) != None
      ensures re == Success ==> RecordAt(rid) == None
      ensures forall r :: re != Success || r != rid ==> RecordAt(r) == old(RecordAt(r))
      ensures re == Success ==> (Allocated(file.header, rid.page) <==> exists slot :: RecordAt(RecordId(rid.page, slot)) != None)
    {
      re := FindRecord(rid);
      if re == Success {
        DropRecord(rid, false);
        freePages := if file.pages[rid.page].recordNum > 0 then freePages + {rid.page} else freePages - {rid.page};
        assert PageIs(rid.page) && CleanPage(rid.page);
        FullAndEmpty(file.pages[rid.page], capacity);
      }
    }

    /** The deletion as it is written, which lists the page in any case. The list stays in order if and only if
        the page still holds a record, or is kept because a handler that stored or changed a record there has
        never given its pin back. */
    method DeleteAndRelist(rid: RecordId, pinned: bool) returns (re: Re)
      requires Valid() && rid.page != 0 && rid.slot >= 0
      modifies this, file
      ensures Sound() && Clean() && freePages == old(freePages) + if re == Success then {rid.page} else {}
      ensures re == Success <==> old(RecordAt(rid)) != None
      ensures re == Success ==> RecordAt(rid) == None
      ensures forall r :: re != Success || r != rid ==> RecordAt(r) == old(RecordAt(r))
      ensures Valid() <==> re != Success || pinned || exists slot :: RecordAt(RecordId(rid.page, slot)) != None
      ensures Valid() <==> re != Success || Allocated(file.header, rid.page)
    {
      re := FindRecord(rid);
      if re == Success {
        DropRecord(rid, pinned);
        freePages := freePages + {rid.page};
      }
    }
  }

  /** A file that has just been opened, so that none of its pages is pinned, holds one record. The record is
      deleted as written, and another one stored: the insertion succeeds, and no scan returns the record. */
  method LostRecord(handler: RecordFileHandler, only: RecordId, data: Data) returns (re: Re, rid: RecordId)
    requires handler.Valid() && handler.freePages <= {only.page} && only.page != 0 && only.slot >= 0
    requires forall r :: handler.RecordAt(r) != None <==> r == only
    modifies handler, handler.file
    ensures re == Success && forall r :: handler.RecordAt(r) == None
  {
    var deleted := handler.DeleteAndRelist(only, false);
    assert forall r :: handler.RecordAt(r) == None;
    assert !handler.Valid();
    assert handler.freePages == {only.page};
    assert !Allocated(handler.file.header, only.page) && handler.CleanPage(only.page);
    re, rid := handler.InsertRecord(data);
    assert rid.page == only.page;
  }
}
