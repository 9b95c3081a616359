/** How the index compares attribute values and record ids, and where that is not an order. */
module Comparators {
  import opened Keys

  /** The sign that a comparison of two positions should have. */
  function Sign(d: int): int {
    if d < 0 then -1 else if d == 0 then 0 else 1
  }

  // Record ids

  /** The comparison of record ids as it is written: the arms of the conditional are exchanged. */
  function RidCompare(r: RecordId, s: RecordId): int {
    if r.page - s.page == 0 then r.page - s.page else r.slot - s.slot
  }

  /** It puts two record ids in page and slot order exactly when they are the same, or both their pages
      and their slots differ and in the same direction. */
  lemma RidCompareMeans(r: RecordId, s: RecordId)
    ensures Sign(RidCompare(r, s)) == Sign(if RidLess(r, s) then -1 else if r == s then 0 else 1) <==>
      r == s || (r.page < s.page && r.slot < s.slot) || (r.page > s.page && r.slot > s.slot)
  {
  }

  lemma RidCompareFails()
    ensures var r, s := RecordId(1, 4), RecordId(1, 7); RidLess(r, s) && RidCompare(r, s) == 0
    ensures var r, s := RecordId(1, 7), RecordId(2, 4); RidLess(r, s) && RidCompare(r, s) > 0
  {
  }

  /** The comparison of composite keys over such a comparison of record ids. */
  function KeyCompare(a: int, r: RecordId, b: int, s: RecordId): int {
    if a != b then Sign(a - b) else RidCompare(r, s)
  }

  /** An index tells the entries of a set apart exactly when no two of one attribute value are on one
      page or in one slot. */
  lemma ToldApart(entries: set<(int, RecordId)>)
    ensures (forall e, f :: e in entries && f in entries && e != f ==> KeyCompare(e.0, e.1, f.0, f.1) != 0) <==>
      forall e, f :: e in entries && f in entries && e.0 == f.0 && (e.1.page == f.1.page || e.1.slot == f.1.slot) ==> e == f
  {
  }

  // Integers: the difference of two 32-bit integers, wrapped around

  const INT_LIMIT := 0x8000_0000

  predicate Int32(x: int) {
    -INT_LIMIT <= x < INT_LIMIT
  }

  function Wrap(x: int): (r: int)
    ensures Int32(r) && (Int32(x) ==> r == x)
  {
    (x + INT_LIMIT) % (2 * INT_LIMIT) - INT_LIMIT
  }

  function CompareInt(a: int, b: int): int {
    Wrap(a - b)
  }

  /** It has the right sign exactly when the difference fits. */
  lemma CompareIntMeans(a: int, b: int)
    requires Int32(a) && Int32(b)
    ensures Sign(CompareInt(a, b)) == Sign(a - b) <==> Int32(a - b)
  {
  }

  /** Beyond that it is not an order: three integers that each come before the next, in a circle. */
  lemma CompareIntCircle()
    ensures var a, b, c := -2_000_000_000, 0, 2_000_000_000;
      CompareInt(a, b) < 0 && CompareInt(b, c) < 0 && CompareInt(c, a) < 0
  {
  }

  // Floats, as real numbers

  const EPSILON := 0.000001

  /** As it is written: the second test is against epsilon, not its negation. */
  function CompareFloat(a: real, b: real): int {
    var res := a - b;
    if res > EPSILON then 1 else if res < EPSILON then -1 else 0
  }

  function RealSign(d: real): int {
    if d < 0.0 then -1 else if d == 0.0 then 0 else 1
  }

  /** A value is before itself and before everything that is at most less than epsilon smaller; the
      comparison has the right sign exactly when the first value is smaller, or larger by more than epsilon. */
  lemma CompareFloatMeans(a: real, b: real)
    ensures CompareFloat(a, b) == RealSign(a - b) <==> a < b || a - b > EPSILON
    ensures CompareFloat(a, b) == 0 <==> a - b == EPSILON
    ensures (CompareFloat(a, b) == -1 && CompareFloat(b, a) == -1) <==> -EPSILON < a - b < EPSILON
  {
  }

  // Strings

  type Byte = b: int | 0 <= b < 256

  /** The bytes of a string before its terminator. */
  predicate Text(s: seq<Byte>) {
    forall i :: 0 <= i < |s| ==> s[i] != 0
  }

  /** A string as it is stored in an attribute of `n` bytes. */
  function Padded(s: seq<Byte>, n: nat): (r: seq<Byte>)
    requires |s| <= n
    ensures |r| == n
  {
    s + seq(n - |s|, i => 0)
  }

  /** The comparison of the first `n` bytes of two stored strings. */
  function CompareString(a: seq<Byte>, b: seq<Byte>, n: nat): int
    requires |a| >= n && |b| >= n
  {
    if n == 0 then 0
    else if a[0] != b[0] then a[0] - b[0]
    else if a[0] == 0 then 0
    else CompareString(a[1..], b[1..], n - 1)
  }

  /** Dictionary order. */
  predicate Before(x: seq<Byte>, y: seq<Byte>) {
    y != [] && (x == [] || x[0] < y[0] || (x[0] == y[0] && Before(x[1..], y[1..])))
  }

  /** Stored strings compare in dictionary order. */
  lemma {:induction false} CompareStringMeans(x: seq<Byte>, y: seq<Byte>, n: nat)
    requires |x| <= n && |y| <= n && Text(x) && Text(y)
    ensures CompareString(Padded(x, n), Padded(y, n), n) < 0 <==> Before(x, y)
    ensures CompareString(Padded(x, n), Padded(y, n), n) > 0 <==> Before(y, x)
    ensures CompareString(Padded(x, n), Padded(y, n), n) == 0 <==> x == y
  {
    if x != [] && y != [] {
      assert Padded(x, n)[1..] == Padded(x[1..], n - 1);
      assert Padded(y, n)[1..] == Padded(y[1..], n - 1);
      CompareStringMeans(x[1..], y[1..], n - 1);
      assert x == [x[0]] + x[1..] && y == [y[0]] + y[1..];
    }
  }

  /** A string that fits is below a longer one exactly when it is not above its first `n` bytes. */
  lemma {:induction false} BelowLonger(x: seq<Byte>, u: seq<Byte>, n: nat)
    requires |x| <= n < |u|
    ensures Before(x, u) <==> !Before(u[..n], x)
    ensures Before(u, x) <==> Before(u[..n], x)
  {
    if n > 0 && x != [] {
      BelowLonger(x[1..], u[1..], n - 1);
      assert u[..n][1..] == u[1..][..n - 1];
    }
  }

  function Next(b: Byte): Byte {
    if b == 255 then 0 else b + 1
  }

  /** The last byte one higher, wrapped around. */
  function Bumped(s: seq<Byte>): (r: seq<Byte>)
    requires s != []
    ensures |r| == |s|
  {
    s[..|s| - 1] + [Next(s[|s| - 1])]
  }

  lemma {:induction false} AboveBumped(x: seq<Byte>, p: seq<Byte>)
    requires p != [] && |x| <= |p| && p[|p| - 1] < 255
    ensures Before(p, x) <==> !Before(x, Bumped(p))
  {
    if |p| > 1 && x != [] {
      AboveBumped(x[1..], p[1..]);
      assert Bumped(p)[1..] == Bumped(p[1..]);
    }
  }

  /** A bound fitted to an attribute of `n` bytes: cut off, and then one higher as a left bound. */
  function FixedKey(u: seq<Byte>, wantGreater: bool, n: nat): (r: seq<Byte>)
    requires n > 0
    ensures |r| == n
  {
    if |u| <= n then Padded(u, n) else if wantGreater then Bumped(u[..n]) else u[..n]
  }

  /** Whether comparing a stored string inclusively with the fitted left bound is comparing it with the bound. */
  ghost predicate LeftFits(u: seq<Byte>, x: seq<Byte>, n: nat)
    requires |x| <= n && n > 0
  {
    Before(u, x) <==> CompareString(FixedKey(u, true, n), Padded(x, n), n) <= 0
  }

  /** For a bound that is too long, it is for all stored strings exactly when its last kept byte can be raised. */
  lemma LeftBoundMeans(u: seq<Byte>, n: nat)
    requires 0 < n < |u| && Text(u)
    ensures (forall x | |x| <= n && Text(x) :: LeftFits(u, x, n)) <==> u[n - 1] != 255
  {
    var p := u[..n];
    if u[n - 1] != 255 {
      forall x | |x| <= n && Text(x) ensures LeftFits(u, x, n) {
        BelowLonger(x, u, n);
        AboveBumped(x, p);
        assert Padded(Bumped(p), n) == Bumped(p);
        CompareStringMeans(Bumped(p), x, n);
        Opposite(x, Bumped(p));
      }
    } else {
      var x := u[..n - 1];
      assert Padded(x, n) == FixedKey(u, true, n);
      CompareStringMeans(x, x, n);
      BelowLonger(x, u, n);
      PrefixBefore(x, p);
      Opposite(x, p);
      assert !LeftFits(u, x, n);
    }
  }

  /** Cutting a right bound that is too long never changes its meaning. */
  lemma RightBoundMeans(u: seq<Byte>, x: seq<Byte>, n: nat)
    requires |x| <= n < |u| && 0 < n && Text(u) && Text(x)
    ensures Before(x, u) <==> CompareString(Padded(x, n), FixedKey(u, false, n), n) <= 0
  {
    BelowLonger(x, u, n);
    assert Padded(u[..n], n) == u[..n];
    CompareStringMeans(x, u[..n], n);
    Opposite(x, u[..n]);
  }

  /** Exactly one of two different strings is before the other. */
  lemma {:induction false} Opposite(x: seq<Byte>, y: seq<Byte>)
    ensures !Before(y, x) <==> Before(x, y) || x == y
  {
    if x != [] && y != [] {
      Opposite(x[1..], y[1..]);
      assert x == [x[0]] + x[1..] && y == [y[0]] + y[1..];
    }
  }

  lemma {:induction false} PrefixBefore(x: seq<Byte>, p: seq<Byte>)
    requires |x| < |p| && x == p[..|x|]
    ensures Before(x, p)
  {
    if x != [] {
      assert x[1..] == p[1..][..|x| - 1] && x[0] == p[0];
      PrefixBefore(x[1..], p[1..]);
    }
  }

  // Stored strings as positions: their bytes as the digits of a number

  function Power(n: nat): (r: int)
    ensures r > 0
  {
    if n == 0 then 1 else 256 * Power(n - 1)
  }

  lemma DigitInRange(d: Byte, p: int, r: int)
    requires 0 <= r < p
    ensures 0 <= d * p + r < 256 * p
  {
    assert 0 <= d * p && 0 <= (255 - d) * p;
  }

  /** The first digit decides. */
  lemma DigitOrder(d: int, e: int, p: int, r: int, t: int)
    requires 0 <= r < p && 0 <= t < p && d < e
    ensures d * p + r < e * p + t
  {
    var k := e - d - 1;
    assert 0 <= k * p && e * p == d * p + p + k * p;
  }

  function Rank(s: seq<Byte>): (r: int)
    ensures 0 <= r < Power(|s|)
  {
    if s == [] then 0 else
      DigitInRange(s[0], Power(|s| - 1), Rank(s[1..]));
      s[0] * Power(|s| - 1) + Rank(s[1..])
  }

  /** The comparison of stored strings is the comparison of their ranks. */
  lemma {:induction false} RankMeans(x: seq<Byte>, y: seq<Byte>, n: nat)
    requires |x| <= n && |y| <= n && Text(x) && Text(y)
    ensures Sign(CompareString(Padded(x, n), Padded(y, n), n)) == Sign(Rank(Padded(x, n)) - Rank(Padded(y, n)))
  {
    var a, b := Padded(x, n), Padded(y, n);
    if n > 0 {
      if a[0] > b[0] {
        DigitOrder(b[0], a[0], Power(n - 1), Rank(b[1..]), Rank(a[1..]));
      } else if a[0] < b[0] {
        DigitOrder(a[0], b[0], Power(n - 1), Rank(a[1..]), Rank(b[1..]));
      } else if a[0] == 0 {
        assert x == [] && y == [];
      } else {
        assert a[1..] == Padded(x[1..], n - 1) && b[1..] == Padded(y[1..], n - 1);
        RankMeans(x[1..], y[1..], n - 1);
      }
    }
  }

  /** Raising the last kept byte is going to the next rank, unless it wraps around. */
  lemma {:induction false} RankBumped(p: seq<Byte>)
    requires p != []
    ensures Rank(Bumped(p)) == if p[|p| - 1] == 255 then Rank(p) - 255 else Rank(p) + 1
  {
    if |p| == 1 {
      assert Bumped(p)[1..] == [] && p[1..] == [];
      assert Power(0) == 1;
    } else {
      assert Bumped(p)[1..] == Bumped(p[1..]);
      RankBumped(p[1..]);
    }
  }

  /** A string bound as the scan takes it: the rank of what fits the attribute, and whether more follows. */
  function BoundOf(u: seq<Byte>, n: nat): UserKey {
    if |u| <= n then UserKey(Rank(Padded(u, n)), false) else UserKey(Rank(u[..n]), true)
  }

  /** Bounds given this way mean dictionary order, whether they fit the attribute or not. */
  lemma BoundMeans(u: seq<Byte>, x: seq<Byte>, n: nat, inclusive: bool)
    requires Text(u) && Text(x) && |x| <= n
    ensures AboveLeft(Rank(Padded(x, n)), Some(BoundOf(u, n)), inclusive) <==> Before(u, x) || (inclusive && u == x)
    ensures BelowRight(Rank(Padded(x, n)), Some(BoundOf(u, n)), inclusive) <==> Before(x, u) || (inclusive && u == x)
  {
    if |u| <= n {
      CompareStringMeans(x, u, n);
      RankMeans(x, u, n);
    } else {
      assert Padded(u[..n], n) == u[..n];
      CompareStringMeans(x, u[..n], n);
      RankMeans(x, u[..n], n);
      BelowLonger(x, u, n);
      Opposite(x, u[..n]);
    }
  }

  /** Fitting such a bound to the attribute is what the scan does with it: always for a right bound, and
      for a left one that is too long if and only if its last kept byte can be raised. */
  lemma FixedRank(u: seq<Byte>, n: nat)
    requires Text(u) && n > 0
    ensures FixedAttr(BoundOf(u, n), false) == Rank(FixedKey(u, false, n))
    ensures FixedAttr(BoundOf(u, n), true) == Rank(FixedKey(u, true, n)) <==> |u| <= n || u[n - 1] != 255
  {
    if |u| > n {
      RankBumped(u[..n]);
    }
  }

  /** Fits a bound of `keyLen` bytes to an attribute of `attrLength` bytes. */
  method FixUserKey(userKey: seq<Byte>, keyLen: nat, wantGreater: bool, attrLength: nat)
    returns (fixedKey: array<Byte>, shouldInclusive: bool)
    requires keyLen <= |userKey| && Text(userKey) && attrLength > 0
    ensures fresh(fixedKey) && fixedKey[..] == FixedKey(userKey[..keyLen], wantGreater, attrLength)
    ensures shouldInclusive <==> keyLen > attrLength
  {
    shouldInclusive := false;
    fixedKey := new Byte[attrLength](_ => 0);
    if keyLen <= attrLength {
      forall i | 0 <= i < keyLen {
        fixedKey[i] := userKey[i];
      }
      forall i | keyLen <= i < attrLength {
        fixedKey[i] := 0;
      }
      assert fixedKey[..] == Padded(userKey[..keyLen], attrLength);
      return;
    }
    forall i | 0 <= i < attrLength {
      fixedKey[i] := userKey[i];
    }
    if userKey[attrLength] == 0 {
      return;
    }
    shouldInclusive := true;
    assert fixedKey[..] == userKey[..keyLen][..attrLength];
    if wantGreater {
      fixedKey[attrLength - 1] := Next(fixedKey[attrLength - 1]);
      assert fixedKey[..] == Bumped(userKey[..keyLen][..attrLength]);
    }
  }
}
