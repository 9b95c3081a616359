/** A bitmap in an array of bytes, and the searches for its next set or clear bit. */
module Bitmap {
  /** The byte with only bit `k` set. */
  function Mask(k: nat): bv8
    requires k < 8
  {
    match k
    case 0 => 0x01 case 1 => 0x02 case 2 => 0x04 case 3 => 0x08
    case 4 => 0x10 case 5 => 0x20 case 6 => 0x40 case _ => 0x80
  }

  predicate Bit(b: bv8, k: nat)
    requires k < 8
  {
    b & Mask(k) != 0
  }

  lemma SetOne(b: bv8, k: nat, j: nat)
    requires k < 8 && j < 8
    ensures Bit(b | Mask(k), j) <==> j == k || Bit(b, j)
  {
  }

  lemma ClearOne(b: bv8, k: nat, j: nat)
    requires k < 8 && j < 8
    ensures Bit(b & !Mask(k), j) <==> j != k && Bit(b, j)
  {
  }

  lemma ZeroByte(b: bv8)
    ensures b == 0 <==> forall k :: 0 <= k < 8 ==> !Bit(b, k)
  {
    assert b != 0 ==> Bit(b, 0) || Bit(b, 1) || Bit(b, 2) || Bit(b, 3) || Bit(b, 4) || Bit(b, 5) || Bit(b, 6) || Bit(b, 7);
  }

  lemma FullByte(b: bv8)
    ensures b == 0xff <==> forall k :: 0 <= k < 8 ==> Bit(b, k)
  {
    assert Bit(b, 0) && Bit(b, 1) && Bit(b, 2) && Bit(b, 3) && Bit(b, 4) && Bit(b, 5) && Bit(b, 6) && Bit(b, 7) ==> b == 0xff;
  }

  method FindFirstSet(b: bv8, start: nat) returns (k: int)
    requires start < 8
    ensures k == -1 || (start <= k < 8 && Bit(b, k))
    ensures forall j :: start <= j < (if k == -1 then 8 else k) ==> !Bit(b, j)
  {
    for i := start to 8
      invariant forall j :: start <= j < i ==> !Bit(b, j)
    {
      if b & Mask(i) != 0 {
        return i;
      }
    }
    k := -1;
  }

  method FindFirstZero(b: bv8, start: nat) returns (k: int)
    requires start < 8
    ensures k == -1 || (start <= k < 8 && !Bit(b, k))
    ensures forall j :: start <= j < (if k == -1 then 8 else k) ==> Bit(b, j)
  {
    for i := start to 8
      invariant forall j :: start <= j < i ==> Bit(b, j)
    {
      if b & Mask(i) == 0 {
        return i;
      }
    }
    k := -1;
  }

  class BitMap {
    const bytes: array<bv8>
    const size: nat

    /** The searches look one byte past the end, so there must be one. */
    constructor (bytes: array<bv8>, size: nat)
      requires 8 * bytes.Length >= size + 8
      ensures this.bytes == bytes && this.size == size && Fits()
    {
      this.bytes, this.size := bytes, size;
    }

    predicate Fits() {
      8 * bytes.Length >= size + 8
    }

    predicate At(i: nat)
      requires i < 8 * bytes.Length
      reads bytes
    {
      Bit(bytes[i / 8], i % 8)
    }

    method GetBit(index: nat) returns (b: bool)
      requires index < 8 * bytes.Length
      ensures b == At(index)
    {
      b := bytes[index / 8] & Mask(index % 8) != 0;
    }

    method SetBit(index: nat)
      requires index < 8 * bytes.Length
      modifies bytes
      ensures forall i :: 0 <= i < 8 * bytes.Length ==> At(i) == (i == index || old(At(i)))
    {
      bytes[index / 8] := bytes[index / 8] | Mask(index % 8);
      forall i | 0 <= i < 8 * bytes.Length ensures At(i) == (i == index || old(At(i))) {
        SetOne(old(bytes[index / 8]), index % 8, i % 8);
      }
    }

    method ClearBit(index: nat)
      requires index < 8 * bytes.Length
      modifies bytes
      ensures forall i :: 0 <= i < 8 * bytes.Length ==> At(i) == (i != index && old(At(i)))
    {
      bytes[index / 8] := bytes[index / 8] & !Mask(index % 8);
      forall i | 0 <= i < 8 * bytes.Length ensures At(i) == (i != index && old(At(i))) {
        ClearOne(old(bytes[index / 8]), index % 8, i % 8);
      }
    }

    // The searches.

    /** A set bit that the search for the next one from `start` passes over: it lies in the first byte
        that is not zero, below the place of `start` in its byte. */
    ghost predicate Skipped(start: nat, i: nat)
      requires i < 8 * bytes.Length
      reads bytes
    {
      && At(i) && i % 8 < start % 8 && start / 8 < i / 8
      && forall b :: start / 8 <= b < i / 8 ==> bytes[b] == 0
    }

    /** `r` is the first set bit from `start` on, or -1 when there is none. */
    ghost predicate IsNextSet(start: nat, r: int)
      requires Fits()
      reads bytes
    {
      && (r == -1 || (start <= r < size && At(r)))
      && forall i :: start <= i < (if r == -1 then size else r) ==> !At(i)
    }

    /** Every set bit from `start` up to `end` is skipped. */
    ghost predicate OnlySkipped(start: nat, end: int)
      requires end <= 8 * bytes.Length
      reads bytes
    {
      forall i {:trigger At(i)} :: start <= i < end && At(i) ==> Skipped(start, i)
    }

    /** One more byte, searched from bit `from` up to bit `to` without finding a set one. */
    lemma ByteSearched(start: nat, iter: nat, from: nat, to: nat)
      requires start / 8 <= iter < bytes.Length && from <= to <= 8
      requires OnlySkipped(start, 8 * iter)
      requires forall j :: from <= j < to ==> !Bit(bytes[iter], j)
      requires from == 0 || (from == start % 8 && forall b :: start / 8 <= b < iter ==> bytes[b] == 0)
      ensures OnlySkipped(start, 8 * iter + to)
    {
      forall i {:trigger At(i)} | start <= i < 8 * iter + to && At(i) ensures Skipped(start, i) {
        if i >= 8 * iter {
          assert i / 8 == iter && i % 8 == i - 8 * iter;
        }
      }
    }

    /** The first set bit from `start` on that is not skipped; so it is the next set bit exactly when
        no set bit is skipped. */
    method NextSetBit(start: nat) returns (r: int)
      requires Fits()
      ensures r == -1 || (start <= r < size && At(r) && !Skipped(start, r))
      ensures OnlySkipped(start, if r == -1 then size else r)
      ensures IsNextSet(start, r) <==> forall i :: start <= i < size ==> !Skipped(start, i)
      ensures start % 8 == 0 || (start < size && bytes[start / 8] != 0) ==> IsNextSet(start, r)
    {
      r := -1;
      var startInByte := start % 8;
      var iter, end := start / 8, if size % 8 == 0 then size / 8 else size / 8 + 1;
      while iter <= end
        invariant start / 8 <= iter && (iter <= end + 1 || iter == start / 8)
        invariant startInByte == 0 || startInByte == start % 8
        invariant startInByte != 0 ==> forall b :: start / 8 <= b < iter ==> bytes[b] == 0
        invariant startInByte == 0 && start % 8 != 0 ==> exists b :: start / 8 <= b < iter && bytes[b] != 0
        invariant iter <= bytes.Length ==> OnlySkipped(start, 8 * iter)
        invariant r == -1
      {
        var b := bytes[iter];
        ZeroByte(b);
        if b != 0 {
          var indexInByte := FindFirstSet(b, startInByte);
          if indexInByte >= 0 {
            r := iter * 8 + indexInByte;
            ByteSearched(start, iter, startInByte, indexInByte);
            assert r / 8 == iter && r % 8 == indexInByte;
            break;
          }
          ByteSearched(start, iter, startInByte, 8);
          startInByte := 0;
        } else {
          ByteSearched(start, iter, 0, 8);
        }
        iter := iter + 1;
      }
      if r >= size {
        r := -1;
      }
    }

    /** After a set bit the search skips nothing: this is how the iterators use it. */
    lemma AfterSetBit(i: nat, j: nat)
      requires Fits() && i < size && At(i) && j < size
      ensures !Skipped(i + 1, j)
    {
      ZeroByte(bytes[i / 8]);
      assert (i + 1) % 8 == 0 || (i + 1) / 8 == i / 8;
    }

    /** A clear bit that the search for the next one from `start` passes over. */
    ghost predicate SkippedClear(start: nat, i: nat)
      requires i < 8 * bytes.Length
      reads bytes
    {
      && !At(i) && i % 8 < start % 8 && start / 8 < i / 8
      && forall b :: start / 8 <= b < i / 8 ==> bytes[b] == 0xff
    }

    /** `r` is the first clear bit from `start` on, or -1 when there is none. */
    ghost predicate IsNextClear(start: nat, r: int)
      requires Fits()
      reads bytes
    {
      && (r == -1 || (start <= r < size && !At(r)))
      && forall i :: start <= i < (if r == -1 then size else r) ==> At(i)
    }

    ghost predicate OnlySkippedClear(start: nat, end: int)
      requires end <= 8 * bytes.Length
      reads bytes
    {
      forall i {:trigger At(i)} :: start <= i < end && !At(i) ==> SkippedClear(start, i)
    }

    lemma ByteSearchedClear(start: nat, iter: nat, from: nat, to: nat)
      requires start / 8 <= iter < bytes.Length && from <= to <= 8
      requires OnlySkippedClear(start, 8 * iter)
      requires forall j :: from <= j < to ==> Bit(bytes[iter], j)
      requires from == 0 || (from == start % 8 && forall b :: start / 8 <= b < iter ==> bytes[b] == 0xff)
      ensures OnlySkippedClear(start, 8 * iter + to)
    {
      forall i {:trigger At(i)} | start <= i < 8 * iter + to && !At(i) ensures SkippedClear(start, i) {
        if i >= 8 * iter {
          assert i / 8 == iter && i % 8 == i - 8 * iter;
        }
      }
    }

    /** The first clear bit from `start` on that is not skipped; so it is the next clear bit exactly when
        no clear bit is skipped. From the start of a byte none is. */
    method NextUnsetBit(start: nat) returns (r: int)
      requires Fits()
      ensures r == -1 || (start <= r < size && !At(r) && !SkippedClear(start, r))
      ensures OnlySkippedClear(start, if r == -1 then size else r)
      ensures IsNextClear(start, r) <==> forall i :: start <= i < size ==> !SkippedClear(start, i)
      ensures start % 8 == 0 || (start < size && bytes[start / 8] != 0xff) ==> IsNextClear(start, r)
    {
      r := -1;
      var startInByte := start % 8;
      var iter, end := start / 8, if size % 8 == 0 then size / 8 else size / 8 + 1;
      while iter <= end
        invariant start / 8 <= iter && (iter <= end + 1 || iter == start / 8)
        invariant startInByte == 0 || startInByte == start % 8
        invariant startInByte != 0 ==> forall b :: start / 8 <= b < iter ==> bytes[b] == 0xff
        invariant startInByte == 0 && start % 8 != 0 ==> exists b :: start / 8 <= b < iter && bytes[b] != 0xff
        invariant iter <= bytes.Length ==> OnlySkippedClear(start, 8 * iter)
        invariant r == -1
      {
        var b := bytes[iter];
        FullByte(b);
        if b != 0xff {
          var indexInByte := FindFirstZero(b, startInByte);
          if indexInByte >= 0 {
            r := iter * 8 + indexInByte;
            ByteSearchedClear(start, iter, startInByte, indexInByte);
            assert r / 8 == iter && r % 8 == indexInByte;
            break;
          }
          ByteSearchedClear(start, iter, startInByte, 8);
          startInByte := 0;
        } else {
          ByteSearchedClear(start, iter, 0, 8);
        }
        iter := iter + 1;
      }
      if r >= size {
        r := -1;
      }
    }
  }

  /** A set bit that is missed: the search from bit 1 over a zero byte passes over bit 8. */
  lemma MissedBit(m: BitMap)
    requires m.size == 16 && m.Fits() && m.bytes[0] == 0 && m.bytes[1] == 1
    ensures m.At(8) && m.Skipped(1, 8) && m.OnlySkipped(1, 16)
  {
    forall i | 1 <= i < 16 && m.At(i) ensures i == 8 {
      SetOne(0, 0, i % 8);
      ZeroByte(0);
    }
  }
}
