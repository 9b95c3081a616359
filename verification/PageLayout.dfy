/** Where a record page keeps its header, its bitmap and its records. */
module PageLayout {
  const PAGE_HEADER_SIZE: nat := 20

  function Align8(size: nat): (a: nat)
    ensures a % 8 == 0 && size <= a < size + 8
  {
    size / 8 * 8 + if size % 8 == 0 then 0 else 8
  }

  /** How many records of `r` bytes, with a bit each, fit behind the header. */
  function PageRecordCapacity(dataSize: nat, r: nat): int {
    ((dataSize - PAGE_HEADER_SIZE - 1) as real / (r as real + 0.125)).Floor
  }

  function PageBitmapSize(capacity: nat): nat {
    capacity / 8 + if capacity % 8 == 0 then 0 else 1
  }

  /** Where the first record starts. */
  function FirstRecordOffset(capacity: nat): nat {
    Align8(PAGE_HEADER_SIZE + PageBitmapSize(capacity))
  }

  function SlotStart(capacity: nat, r: nat, slot: nat): nat {
    FirstRecordOffset(capacity) + r * slot
  }

  lemma MulOrder(a: real, b: real, e: real)
    requires e > 0.0
    ensures a <= b ==> a * e <= b * e
    ensures a < b ==> a * e < b * e
  {
  }

  /** Products of whole numbers are the same as reals. */
  lemma WholeProduct(a: int, b: int)
    ensures (a * b) as real == a as real * b as real
  {
  }

  lemma Distribute3(q: real, x: real, e: real)
    ensures (q - x) * e == q * e - x * e
  {
  }

  /** Less than one share is left over. */
  lemma LeftOver(n: real, e: real, q: real, x: real, d: real)
    requires e > 0.0 && q * e == n && d == q - x && 0.0 <= d < 1.0
    ensures x * e <= n < x * e + e
  {
    MulOrder(0.0, d, e);
    MulOrder(d, 1.0, e);
    Distribute3(q, x, e);
    var de, xe := d * e, x * e;
    assert de == n - xe;
    assert 0.0 <= de;
    assert de < e;
  }

  lemma NotNegative(n: real, e: real, q: real)
    requires n >= 0.0 && e > 0.0 && q * e == n
    ensures q >= 0.0
  {
    MulOrder(q, 0.0, e);
  }

  lemma FloorBound(n: real, e: real, q: real, c: int)
    requires n >= 0.0 && e > 0.0 && q * e == n && c == q.Floor
    ensures c >= 0 && c as real * e <= n < c as real * e + e
  {
    var x: real := c as real;
    LeftOver(n, e, q, x, q - x);
    NotNegative(n, e, q);
  }

  lemma InEighths(c: int, r: nat, m: nat, e: real)
    requires e == r as real + 0.125 && c as real * e <= m as real < c as real * e + e
    ensures c * (8 * r + 1) <= 8 * m < c * (8 * r + 1) + 8 * r + 1
  {
    var k := 8 * r + 1;
    Times8(c as real, e);
    assert 8.0 * e == k as real;
    WholeProduct(c, k);
    assert (c * k) as real <= (8 * m) as real < (c * k + k) as real;
  }

  lemma Times8(x: real, e: real)
    ensures x * (8.0 * e) == 8.0 * (x * e)
  {
  }

  /** The capacity is the most records whose bytes and bits are within the page data less one byte. */
  lemma CapacityBound(d: nat, r: nat, c: int)
    requires d > PAGE_HEADER_SIZE && r > 0 && c == PageRecordCapacity(d, r)
    ensures c >= 0 && c * (8 * r + 1) <= 8 * (d - PAGE_HEADER_SIZE - 1) < c * (8 * r + 1) + 8 * r + 1
  {
    var m := d - PAGE_HEADER_SIZE - 1;
    var n, e := m as real, r as real + 0.125;
    FloorBound(n, e, n / e, c);
    InEighths(c, r, m, e);
  }

  /** The bitmap ends before the first record. */
  lemma BitmapBeforeRecords(c: nat)
    ensures PAGE_HEADER_SIZE + PageBitmapSize(c) <= FirstRecordOffset(c) && c <= 8 * PageBitmapSize(c)
  {
  }

  lemma MulStep(r: nat, i: nat, j: nat)
    requires i < j
    ensures r * i + r <= r * j
  {
    assert r * j == r * (i + 1) + r * (j - i - 1);
  }

  /** No two slots overlap. */
  lemma SlotsDisjoint(c: nat, r: nat, i: nat, j: nat)
    requires i < j
    ensures SlotStart(c, r, i) + r <= SlotStart(c, r, j)
  {
    hide FirstRecordOffset;
    MulStep(r, i, j);
  }

  /** Bits and records together: with `rc` bytes of records for `c` records. */
  lemma BitsAndBytes(d: nat, rc: nat, c: nat)
    requires 8 * rc + c <= 8 * (d - PAGE_HEADER_SIZE - 1) && rc % 8 == 0
    ensures FirstRecordOffset(c) + rc <= Align8(d - 1)
  {
    var b := PageBitmapSize(c);
    assert PAGE_HEADER_SIZE + b + rc <= d - 1;
    assert Align8(PAGE_HEADER_SIZE + b) + rc == Align8(PAGE_HEADER_SIZE + b + rc);
  }

  /** The last slot ends within the page data rounded up. */
  lemma SlotsEnd(d: nat, r: nat, c: nat)
    requires d > PAGE_HEADER_SIZE && r > 0 && r % 8 == 0 && c == PageRecordCapacity(d, r)
    ensures SlotStart(c, r, c) <= Align8(d - 1)
  {
    hide FirstRecordOffset;
    hide PageRecordCapacity;
    CapacityBound(d, r, c);
    Distribute(c, r);
    MultipleOf8(r, c);
    BitsAndBytes(d, r * c, c);
  }

  lemma Distribute(c: nat, r: nat)
    ensures c * (8 * r + 1) == 8 * (r * c) + c
  {
  }

  lemma MultipleOf8(r: nat, c: nat)
    requires r % 8 == 0
    ensures (r * c) % 8 == 0
  {
    var k := r / 8;
    assert r * c == 8 * (k * c);
  }

  lemma RemainderIs(n: nat, k: nat, c: nat)
    requires c * k <= n < (c + 1) * k
    ensures k > 0 && n % k == n - c * k
  {
    DivisionIs(n, k, c);
  }

  lemma DivisionIs(n: nat, k: nat, c: nat)
    requires k > 0 && c * k <= n < (c + 1) * k
    ensures n / k == c
  {
    var q := n / k;
    assert q * k <= n < (q + 1) * k;
    assert q < c ==> (q + 1) * k <= c * k;
    assert c < q ==> (c + 1) * k <= q * k;
  }

  /** Records that start at a multiple of 8 and fill one end within the data if and only if they end within
      its last multiple of 8, bits and header included. */
  lemma WholeWords(d: nat, rc: nat, c: nat)
    requires rc % 8 == 0
    ensures FirstRecordOffset(c) + rc <= d <==> 8 * rc + c <= 8 * (d - d % 8 - PAGE_HEADER_SIZE)
  {
    var b := PageBitmapSize(c);
    var end := d - d % 8;
    assert FirstRecordOffset(c) + rc <= d <==> FirstRecordOffset(c) + rc <= end;
    assert FirstRecordOffset(c) + rc <= end <==> PAGE_HEADER_SIZE + b + rc <= end;
    assert c <= 8 * b < c + 8;
  }

  /** The records fit the page data if and only if, of the bits that the data has behind the header and less
      one byte, enough are left over by records of this size: none when 8 divides the data, 24 for the
      16380 bytes that the data of a page has. */
  lemma SlotsFit(d: nat, r: nat, c: nat)
    requires d > PAGE_HEADER_SIZE && r > 0 && r % 8 == 0 && c == PageRecordCapacity(d, r)
    ensures SlotStart(c, r, c) <= d <==>
      (8 * (d - PAGE_HEADER_SIZE - 1)) % (8 * r + 1) >= 8 * (d % 8 - 1)
  {
    hide FirstRecordOffset;
    hide PageRecordCapacity;
    CapacityBound(d, r, c);
    Distribute(c, r);
    MultipleOf8(r, c);
    WholeWords(d, r * c, c);
    RemainderIs(8 * (d - PAGE_HEADER_SIZE - 1), 8 * r + 1, c);
  }

  /** With records of 24 bytes only 18 are left over, and the last slot of a page ends 4 bytes behind it. */
  lemma SlotsOverrun()
    ensures var c := PageRecordCapacity(16380, 24); c == 678 && SlotStart(c, 24, c) == 16384
    ensures (8 * (16380 - PAGE_HEADER_SIZE - 1)) % (8 * 24 + 1) == 18
  {
    CapacityBound(16380, 24, PageRecordCapacity(16380, 24));
  }
}
