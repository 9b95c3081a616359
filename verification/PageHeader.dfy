/** The header page of a file: how many pages the file has, and which are allocated. */
module PageHeader {
  import opened FrameManager

  /** The data of a page: 16 KB without the page's number. */
  const PAGE_DATA_SIZE := 16380

  /** One bit for each page that a header page has room to describe. */
  const MAX_PAGES: nat := (PAGE_DATA_SIZE - 4 - 4) * 8

  /** The bytes of a header for a file of `n` pages: two counters and the bits. */
  function HeaderSize(n: nat): nat {
    4 + 4 + (n + 7) / 8
  }

  /** A file can have exactly as many pages as the header page has room for. */
  lemma MostPages(n: nat)
    ensures HeaderSize(n) <= PAGE_DATA_SIZE <==> n <= MAX_PAGES
    ensures PAGE_DATA_SIZE + 4 == 0x4000
  {
  }

  /** How many bits are set. */
  function CountSet(bits: seq<bool>): (n: nat)
    ensures n <= |bits|
  {
    if bits == [] then 0
    else CountSet(bits[..|bits| - 1]) + if bits[|bits| - 1] then 1 else 0
  }

  lemma {:induction false} CountUpdate(bits: seq<bool>, i: nat, b: bool)
    requires i < |bits|
    ensures CountSet(bits[i := b]) == CountSet(bits) - (if bits[i] then 1 else 0) + if b then 1 else 0
  {
    var n := |bits| - 1;
    if i == n {
      assert bits[i := b][..n] == bits[..n];
    } else {
      assert bits[i := b][..n] == bits[..n][i := b];
      CountUpdate(bits[..n], i, b);
    }
  }

  lemma {:induction false} AllSet(bits: seq<bool>)
    requires forall i :: 0 <= i < |bits| ==> bits[i]
    ensures CountSet(bits) == |bits|
  {
    if bits != [] {
      AllSet(bits[..|bits| - 1]);
    }
  }

  /** The counters describe the bitmap: `allocatedNum` pages below `pagesNum` are allocated, the
      header among them, and none above. */
  ghost predicate HeaderOk(h: Content) {
    && h.Header?
    && 1 <= h.pagesNum <= MAX_PAGES == |h.bitmap|
    && h.allocatedNum == CountSet(h.bitmap[..h.pagesNum])
    && h.bitmap[0]
    && forall i :: h.pagesNum <= i < MAX_PAGES ==> !h.bitmap[i]
  }

  predicate Allocated(h: Content, p: int) {
    h.Header? && 0 <= p < h.pagesNum && p < |h.bitmap| && h.bitmap[p]
  }

  function FreshHeader(): (h: Content) {
    Header(1, 1, [true] + seq(MAX_PAGES - 1, i => false))
  }

  lemma FreshHeaderOk()
    ensures HeaderOk(FreshHeader())
    ensures forall p :: Allocated(FreshHeader(), p) <==> p == 0
  {
    var bits := FreshHeader().bitmap;
    assert bits[..1] == [true];
    assert CountSet([true][..0]) == 0;
  }

  /** The header after page `p` is taken, at the end of the file or below it. */
  function TakePage(h: Content, p: int): Content {
    if !h.Header? || !(0 <= p < |h.bitmap|) then h
    else Header(if p < h.pagesNum then h.pagesNum else h.pagesNum + 1, h.allocatedNum + 1, h.bitmap[p := true])
  }

  function GivePage(h: Content, p: int): Content {
    if !h.Header? || !(0 <= p < |h.bitmap|) then h
    else h.(allocatedNum := h.allocatedNum - 1, bitmap := h.bitmap[p := false])
  }

  lemma TakeOk(h: Content, p: nat)
    requires HeaderOk(h) && p <= h.pagesNum && p < MAX_PAGES && !h.bitmap[p]
    ensures HeaderOk(TakePage(h, p))
    ensures forall q :: Allocated(TakePage(h, p), q) <==> Allocated(h, q) || q == p
  {
    var n, bits := h.pagesNum, h.bitmap;
    if p < n {
      assert bits[p := true][..n] == bits[..n][p := true];
      CountUpdate(bits[..n], p, true);
    } else {
      assert bits[p := true][..n + 1][..n] == bits[..n];
    }
  }

  /** The counter keeps telling the number of allocated pages exactly when the page given up was
      allocated and is not the header. */
  lemma GiveOk(h: Content, p: nat)
    requires HeaderOk(h) && p < MAX_PAGES
    ensures HeaderOk(GivePage(h, p)) <==> Allocated(h, p) && p != 0
    ensures forall q :: Allocated(GivePage(h, p), q) <==> Allocated(h, q) && q != p
  {
    var n, bits := h.pagesNum, h.bitmap;
    if p < n {
      assert bits[p := false][..n] == bits[..n][p := false];
      CountUpdate(bits[..n], p, false);
    } else {
      assert bits[p := false][..n] == bits[..n];
    }
  }

  /** A page can be taken below the end of the file exactly when the counters differ. */
  lemma SomeClear(h: Content)
    requires HeaderOk(h)
    ensures h.allocatedNum <= h.pagesNum
    ensures h.allocatedNum < h.pagesNum <==> exists p :: 0 <= p < h.pagesNum && !h.bitmap[p]
  {
    var bits := h.bitmap[..h.pagesNum];
    if p :| 0 <= p < h.pagesNum && !h.bitmap[p] {
      CountUpdate(bits, p, true);
    } else {
      AllSet(bits);
    }
  }

  /** The page that allocation takes: the first clear bit below the end of the file, else the end. */
  ghost predicate NextPage(h: Content, page: int) {
    && HeaderOk(h) && 0 <= page <= h.pagesNum && !Allocated(h, page)
    && forall q :: 0 <= q < page ==> Allocated(h, q)
  }

  ghost function NextPageFrom(h: Content, i: nat): (p: int)
    requires HeaderOk(h) && i <= h.pagesNum
    requires forall q :: 0 <= q < i ==> Allocated(h, q)
    ensures NextPage(h, p)
    decreases h.pagesNum - i
  {
    if i < h.pagesNum && h.bitmap[i] then NextPageFrom(h, i + 1) else i
  }

  ghost function NextPageOf(h: Content): (p: int)
    requires HeaderOk(h)
    ensures NextPage(h, p)
  {
    NextPageFrom(h, 0)
  }

  lemma OneNextPage(h: Content, p: int)
    requires NextPage(h, p)
    ensures p == NextPageOf(h)
  {
    var q := NextPageOf(h);
    assert p < q ==> Allocated(h, p);
    assert q < p ==> Allocated(h, q);
  }

  /** Searches the bits below the end of the file for a clear one. */
  method FirstClear(h: Content) returns (page: int)
    requires HeaderOk(h) && h.allocatedNum < h.pagesNum
    ensures NextPage(h, page) && page < h.pagesNum
  {
    page := 0;
    SomeClear(h);
    while h.bitmap[page]
      invariant 0 <= page < h.pagesNum
      invariant forall q :: 0 <= q < page ==> h.bitmap[q]
      decreases h.pagesNum - page
    {
      page := page + 1;
    }
  }
}
