/** Record ids and the composite keys (attribute value, record id) of an index. */
module Keys {
  datatype RecordId = RecordId(page: int, slot: int)

  /** Page and slot numbers are non-negative 32-bit integers. */
  const ID_LIMIT := 0x8000_0000

  predicate ValidRid(r: RecordId) {
    0 <= r.page < ID_LIMIT && 0 <= r.slot < ID_LIMIT
  }

  /** Record ids in page order, then slot order: what the comparison of record ids is meant to be. As it is
      written (record.cpp:35-37) it is something else, see `Comparators.RidCompare`. */
  predicate RidLess(r: RecordId, s: RecordId) {
    r.page < s.page || (r.page == s.page && r.slot < s.slot)
  }

  const MIN_RID := RecordId(0, 0)
  const MAX_RID := RecordId(ID_LIMIT - 1, ID_LIMIT - 1)

  /** The reserved record id is the largest one that two signed 32-bit numbers can make. */
  lemma LargestRid(r: RecordId)
    ensures ValidRid(r) <==> r.page >= 0 && r.slot >= 0 && r.page <= 2147483647 && r.slot <= 2147483647
    ensures ValidRid(r) ==> r == MAX_RID || RidLess(r, MAX_RID)
  {
  }

  /** The position of a composite key in key order. */
  function MakeKey(attr: int, r: RecordId): int {
    (attr * ID_LIMIT + r.page) * ID_LIMIT + r.slot
  }

  function KeyAttr(k: int): int { k / ID_LIMIT / ID_LIMIT }
  function KeyRid(k: int): RecordId { RecordId(k / ID_LIMIT % ID_LIMIT, k % ID_LIMIT) }

  /** Every position is the key of exactly one pair. */
  lemma KeyParts(attr: int, r: RecordId)
    requires ValidRid(r)
    ensures KeyAttr(MakeKey(attr, r)) == attr && KeyRid(MakeKey(attr, r)) == r
  {
    var high := attr * ID_LIMIT + r.page;
    assert MakeKey(attr, r) / ID_LIMIT == high;
  }

  lemma KeyOfParts(k: int)
    ensures ValidRid(KeyRid(k)) && MakeKey(KeyAttr(k), KeyRid(k)) == k
  {
  }

  /** Keys compare by attribute, then page, then slot. */
  lemma KeyOrder(a: int, r: RecordId, b: int, s: RecordId)
    requires ValidRid(r) && ValidRid(s)
    ensures MakeKey(a, r) < MakeKey(b, s) <==>
      a < b || (a == b && RidLess(r, s))
  {
  }

  datatype Option<T> = None | Some(value: T)

  /** A bound of a range scan: the rank of the attribute value, and for a string longer
      than the attribute, of its kept prefix together with `over`. */
  datatype UserKey = UserKey(attr: int, over: bool)

  /** Whether a stored attribute value is at or above, or strictly above, a left bound. */
  predicate AboveLeft(x: int, l: Option<UserKey>, inclusive: bool) {
    l.Some? ==> if l.value.over || !inclusive then x > l.value.attr else x >= l.value.attr
  }

  predicate BelowRight(x: int, r: Option<UserKey>, inclusive: bool) {
    r.Some? ==> if r.value.over || inclusive then x <= r.value.attr else x < r.value.attr
  }

  /** The bound fitted to the attribute: one higher for an over-long left bound, and then inclusive. */
  function FixedAttr(u: UserKey, wantGreater: bool): int {
    if u.over && wantGreater then u.attr + 1 else u.attr
  }

  function LeftKey(u: UserKey, inclusive: bool): int {
    MakeKey(FixedAttr(u, true), if inclusive || u.over then MIN_RID else MAX_RID)
  }

  function RightKey(u: UserKey, inclusive: bool): int {
    MakeKey(FixedAttr(u, false), if inclusive || u.over then MAX_RID else MIN_RID)
  }

  /** Bounds the scan refuses. */
  predicate Refused(l: Option<UserKey>, leftInclusive: bool, r: Option<UserKey>, rightInclusive: bool) {
    l.Some? && r.Some? &&
    (l.value.attr > r.value.attr || (l.value.attr == r.value.attr && !(leftInclusive && rightInclusive)))
  }

  /** `y` lies between two bounds that are taken for real numbers, the part that is cut off an over-long one
      being ignored. */
  predicate Between(y: real, l: UserKey, leftInclusive: bool, r: UserKey, rightInclusive: bool) {
    && (if leftInclusive then l.attr as real <= y else (l.attr as real) < y)
    && (if rightInclusive then y <= r.attr as real else y < r.attr as real)
  }

  /** Bounds are refused exactly when the interval that they span is empty. Then no attribute value lies in the
      range either, unless the left bound is included and is the kept part of an over-long right bound that is
      not: that value lies in the range all the same. */
  lemma RefusedMeans(l: UserKey, leftInclusive: bool, r: UserKey, rightInclusive: bool)
    ensures Refused(Some(l), leftInclusive, Some(r), rightInclusive) <==>
      forall y :: !Between(y, l, leftInclusive, r, rightInclusive)
    ensures Refused(Some(l), leftInclusive, Some(r), rightInclusive) ==>
      ((forall x :: !(AboveLeft(x, Some(l), leftInclusive) && BelowRight(x, Some(r), rightInclusive))) <==>
       !(l.attr == r.attr && leftInclusive && !l.over && !rightInclusive && r.over))
  {
    var y := (l.attr as real + r.attr as real) / 2.0;
    assert Between(y, l, leftInclusive, r, rightInclusive) <==> !Refused(Some(l), leftInclusive, Some(r), rightInclusive);
    if l.attr == r.attr && leftInclusive && !l.over && !rightInclusive && r.over {
      assert AboveLeft(l.attr, Some(l), leftInclusive) && BelowRight(l.attr, Some(r), rightInclusive);
    }
  }

  /** A range that is open at one side is not refused. */
  lemma OpenNotRefused(l: Option<UserKey>, leftInclusive: bool, r: Option<UserKey>, rightInclusive: bool)
    requires l.None? || r.None?
    ensures !Refused(l, leftInclusive, r, rightInclusive)
  {
  }

  /** Comparing composite keys with the sentinel keys is comparing attribute values with the
      bound, for every record id but the largest one. */
  lemma LeftKeyMeans(k: int, u: UserKey, inclusive: bool)
    ensures LeftKey(u, inclusive) <= k <==>
      AboveLeft(KeyAttr(k), Some(u), inclusive) || (!inclusive && !u.over && k == MakeKey(u.attr, MAX_RID))
  {
    KeyOfParts(k);
  }

  lemma RightKeyMeans(k: int, u: UserKey, inclusive: bool)
    ensures k < RightKey(u, inclusive) <==>
      BelowRight(KeyAttr(k), Some(u), inclusive) && !((inclusive || u.over) && k == MakeKey(u.attr, MAX_RID))
  {
    KeyOfParts(k);
  }

  lemma AcceptedOrder(l: UserKey, leftInclusive: bool, r: UserKey, rightInclusive: bool)
    requires !Refused(Some(l), leftInclusive, Some(r), rightInclusive)
    ensures LeftKey(l, leftInclusive) <= RightKey(r, rightInclusive) + 1
    ensures LeftKey(l, leftInclusive) == RightKey(r, rightInclusive) + 1 ==> KeyRid(RightKey(r, rightInclusive)) == MAX_RID
  {
  }
}
