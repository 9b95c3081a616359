/** The full scan of a table's records. */
module RecordScan {
  import opened Keys
  import opened PageHeader
  import opened RecordHeap

  /** Reads the records of a file that a filter accepts, page by page and slot by slot. */
  class RecordFileScanner {
    const handler: RecordFileHandler
    const filter: Data -> bool
    const pagesNum: int
    /** The page iterator, the page being read if any, the slot to read next there, and the record found. */
    var currentPage: int
    var inPage: bool
    var nextSlot: int
    var next: Option<(RecordId, Data)>

    /** Records at or after the place where the scan stands. */
    ghost predicate Ahead(r: RecordId)
      reads this
    {
      r.page > currentPage || (inPage && r.page == currentPage && nextSlot != -1 && r.slot >= nextSlot)
    }

    /** Whether the scan should return a record. */
    ghost predicate Wanted(r: RecordId)
      reads handler.file
    {
      var d := handler.RecordAt(r);
      d.Some? && filter(d.value)
    }

    ghost predicate Valid()
      reads this, handler.file
    {
      && handler.PagesOk() && pagesNum == handler.file.header.pagesNum
      && 0 <= currentPage < pagesNum
      && (inPage ==> currentPage != 0 && Allocated(handler.file.header, currentPage))
      && (inPage && nextSlot != -1 ==> Taken(handler.file.pages[currentPage], nextSlot))
      && (next.Some? ==> Wanted(next.value.0) && handler.RecordAt(next.value.0) == Some(next.value.1) && !Ahead(next.value.0))
    }

    /** The records still to be returned. */
    ghost predicate Rest(r: RecordId)
      reads this, handler.file
    {
      (next.Some? && next.value.0 == r) || (Wanted(r) && Ahead(r))
    }

    constructor (handler: RecordFileHandler, filter: Data -> bool)
      requires handler.PagesOk()
      ensures this.handler == handler && this.filter == filter && Valid() && next == None
      ensures forall r :: Wanted(r) ==> Ahead(r)
    {
      this.handler, this.filter, pagesNum := handler, filter, handler.file.header.pagesNum;
      currentPage, inPage, nextSlot, next := 0, false, -1, None;
    }

    /** Looks for the next accepted record in the page. */
    method FetchNextRecordInPage() returns (found: bool)
      requires Valid() && inPage
      modifies `nextSlot, `next
      ensures Valid() && found == next.Some?
      ensures found ==> next.value.0.page == currentPage
      ensures forall r :: old(Wanted(r) && Ahead(r)) <==> (found && r == next.value.0) || (Wanted(r) && Ahead(r))
      ensures found ==> forall r :: old(Wanted(r) && Ahead(r)) && r != next.value.0 ==> RidLess(next.value.0, r)
      ensures !found ==> forall r :: Wanted(r) && Ahead(r) ==> r.page > currentPage
    {
      next := None;
      while nextSlot != -1
        invariant Valid() && next == None
        invariant nextSlot != -1 ==> nextSlot >= old(nextSlot) && old(nextSlot) != -1
        invariant forall r :: old(Wanted(r) && Ahead(r)) <==> Wanted(r) && Ahead(r)
        decreases if nextSlot == -1 then 0 else handler.capacity - nextSlot + 1
      {
        assert handler.PageIs(currentPage);
        var page := handler.file.pages[currentPage];
        var rid, data := RecordId(currentPage, nextSlot), page.slots[nextSlot];
        nextSlot := NextBit(page.bits, nextSlot + 1, true);
        if filter(data) {
          next := Some((rid, data));
          return true;
        }
      }
      found := false;
    }

    /** Whether the record found is the first one left to return, and is there unless none is left. */
    ghost predicate Ready()
      reads this, handler.file
    {
      && Valid()
      && (next.Some? ==> forall r :: Wanted(r) && Ahead(r) ==> RidLess(next.value.0, r))
      && (next == None ==> forall r :: !(Wanted(r) && Ahead(r)))
    }

    /** Moves to the next page that is allocated. */
    method NextPage() returns (more: bool)
      requires Valid() && next == None
      requires forall r :: Wanted(r) && Ahead(r) ==> r.page > currentPage
      modifies `currentPage, `inPage, `nextSlot
      ensures Valid() && next == None
      ensures if more then inPage && currentPage > old(currentPage) else currentPage == old(currentPage)
      ensures forall r :: Wanted(r) && Ahead(r) <==> old(Wanted(r) && Ahead(r))
      ensures !more ==> forall r :: !(Wanted(r) && Ahead(r))
    {
      var p := NextBit(handler.file.header.bitmap[..pagesNum], currentPage + 1, true);
      more := p != -1;
      if more {
        assert handler.PageIs(p);
        currentPage, inPage := p, true;
        nextSlot := NextBit(handler.file.pages[p].bits, 0, true);
      }
    }

    /** Looks for the next accepted record, in the page being read and then in the pages after it. */
    method FetchNextRecord()
      requires Valid()
      modifies this
      ensures Ready()
      ensures forall r :: old(Wanted(r) && Ahead(r)) <==> Rest(r)
    {
      var found := false;
      if inPage {
        found := FetchNextRecordInPage();
        if found {
          return;
        }
      }
      next := None;
      var more := true;
      while more
        invariant Valid() && next == None
        invariant forall r :: Wanted(r) && Ahead(r) ==> r.page > currentPage
        invariant forall r :: Wanted(r) && Ahead(r) <==> old(Wanted(r) && Ahead(r))
        invariant !more ==> forall r :: !(Wanted(r) && Ahead(r))
        decreases pagesNum - currentPage, more
      {
        more := NextPage();
        if more {
          found := FetchNextRecordInPage();
          if found {
            return;
          }
        }
      }
    }

    /** How many pages, and slots of the page, the record found has behind it. */
    ghost function PagesLeft(): int
      reads this
    {
      if next == None then 0 else pagesNum - next.value.0.page
    }

    ghost function SlotsLeft(): int
      reads this
    {
      if next == None then 0 else handler.capacity - next.value.0.slot
    }

    lemma Advanced(place: RecordId)
      requires Ready() && place.page < pagesNum && (next.Some? ==> RidLess(place, next.value.0))
      ensures 0 <= PagesLeft() <= pagesNum - place.page && 0 <= SlotsLeft()
      ensures PagesLeft() < pagesNum - place.page || SlotsLeft() < handler.capacity - place.slot
    {
      if next.Some? {
        assert handler.PageIs(next.value.0.page);
      }
    }

    predicate HasNext()
      reads this
    {
      next.Some?
    }

    /** Returns the first record left, and looks for the one after it. */
    method Next() returns (rid: RecordId, data: Data)
      requires Ready() && HasNext()
      modifies this
      ensures Ready() && Wanted(rid) && handler.RecordAt(rid) == Some(data)
      ensures old(Rest(rid)) && forall r :: Rest(r) <==> old(Rest(r)) && r != rid
      ensures forall r :: Rest(r) ==> RidLess(rid, r)
      ensures 0 <= PagesLeft() && 0 <= SlotsLeft()
      ensures PagesLeft() < old(PagesLeft()) || (PagesLeft() == old(PagesLeft()) && SlotsLeft() < old(SlotsLeft()))
    {
      rid, data := next.value.0, next.value.1;
      FetchNextRecord();
      Advanced(rid);
    }
  }

  /** A scan returns every record that the filter accepts, once, in page order and then slot order. */
  method ScanRecord(handler: RecordFileHandler, filter: Data -> bool) returns (found: seq<(RecordId, Data)>)
    requires handler.PagesOk()
    ensures forall i, j :: 0 <= i < j < |found| ==> RidLess(found[i].0, found[j].0)
    ensures forall i :: 0 <= i < |found| ==> handler.RecordAt(found[i].0) == Some(found[i].1) && filter(found[i].1)
    ensures forall r :: handler.RecordAt(r) != None && filter(handler.RecordAt(r).value) ==>
      exists i :: 0 <= i < |found| && found[i].0 == r
  {
    hide RecordFileHandler.PageIs;
    hide RecordFileScanner.Valid;
    found := [];
    var scanner := new RecordFileScanner(handler, filter);
    scanner.FetchNextRecord();
    while scanner.HasNext()
      invariant scanner.Ready() && scanner.handler == handler && scanner.filter == filter
      invariant forall i, j :: 0 <= i < j < |found| ==> RidLess(found[i].0, found[j].0)
      invariant forall i :: 0 <= i < |found| ==> handler.RecordAt(found[i].0) == Some(found[i].1) && filter(found[i].1)
      invariant forall i, r :: 0 <= i < |found| && scanner.Rest(r) ==> RidLess(found[i].0, r)
      invariant forall r :: scanner.Wanted(r) ==> scanner.Rest(r) || exists i :: 0 <= i < |found| && found[i].0 == r
      decreases scanner.PagesLeft(), scanner.SlotsLeft()
    {
      ghost var was := found;
      var rid, data := scanner.Next();
      found := found + [(rid, data)];
      assert found[|was|].0 == rid;
      assert forall i :: 0 <= i < |was| ==> found[i] == was[i];
    }
    forall r | handler.RecordAt(r) != None && filter(handler.RecordAt(r).value) ensures exists i :: 0 <= i < |found| && found[i].0 == r {
      assert scanner.Wanted(r) && !scanner.Rest(r);
    }
  }
}
