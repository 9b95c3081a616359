/** Recovery of the redo log: the blocks of the file parsed back into records. */
module LogRecovery {
  import opened ReturnCodes
  import opened Keys
  import opened LogRecords
  import opened LogBuffer

  /** Record `i` lies in more than one block. */
  ghost predicate Crosses(recs: seq<LogRecord>, i: nat)
    requires i < |recs|
  {
    Start(recs, i + 1) > 0 && Start(recs, i) / BLOCK_DATA_SIZE < (Start(recs, i + 1) - 1) / BLOCK_DATA_SIZE
  }

  /** Record `i` comes right behind a record that started in an earlier block, and starts where the parser does
      not look for a record: too near the end of a block for its header, or at the start of a block that it
      fills and goes on behind, whose header says that no record starts there. The parser takes it for more of
      that record. */
  ghost predicate Swallowed(recs: seq<LogRecord>, i: nat)
    requires i < |recs|
  {
    i > 0 && Crosses(recs, i - 1) &&
    (BLOCK_DATA_SIZE - Start(recs, i) % BLOCK_DATA_SIZE < RECORD_HEADER_SIZE ||
     (Start(recs, i) % BLOCK_DATA_SIZE == 0 && Length(recs[i]) > BLOCK_DATA_SIZE))
  }

  /** The records among the first `i` that recovery returns. */
  ghost function Kept(recs: seq<LogRecord>, i: nat): seq<LogRecord>
    requires i <= |recs|
  {
    if i == 0 then []
    else if Swallowed(recs, i - 1) then Kept(recs, i - 1)
    else Kept(recs, i - 1) + [recs[i - 1]]
  }

  lemma {:induction false} KeptAll(recs: seq<LogRecord>, i: nat)
    requires i <= |recs|
    ensures |Kept(recs, i)| <= i
    ensures Kept(recs, i) == recs[..i] <==> forall k {:trigger Swallowed(recs, k)} :: 0 <= k < i ==> !Swallowed(recs, k)
    ensures |Kept(recs, i)| == i ==> Kept(recs, i) == recs[..i]
  {
    hide Swallowed;
    if i > 0 {
      KeptAll(recs, i - 1);
      assert recs[..i] == recs[..i - 1] + [recs[i - 1]];
      if Kept(recs, i) == recs[..i] && !Swallowed(recs, i - 1) {
        assert Kept(recs, i - 1) == Kept(recs, i)[..i - 1] == recs[..i - 1];
      }
    }
  }

  /** Swallowed records in a row add nothing. */
  lemma {:induction false} KeptSkips(recs: seq<LogRecord>, h: nat, g: nat)
    requires h < g <= |recs| && !Swallowed(recs, h)
    requires forall k :: h < k < g ==> Swallowed(recs, k)
    ensures Kept(recs, g) == Kept(recs, h) + [recs[h]]
  {
    if g > h + 1 {
      KeptSkips(recs, h, g - 1);
    }
  }

  /** Every record after `h` that starts before `pos` is swallowed. */
  ghost predicate StartedAreSwallowed(recs: seq<LogRecord>, h: nat, pos: int) {
    forall g {:trigger Swallowed(recs, g)} :: h < g < |recs| && Start(recs, g) < pos ==> Swallowed(recs, g)
  }

  /** The place in the stream of byte `o` of block `k`. */
  function Pos(k: nat, o: int): int {
    BLOCK_DATA_SIZE * k + o - BLOCK_HEADER_SIZE
  }

  /** How far the parser is: before byte `o` of block `k`, with every record before `h` done with, and
      the bytes from the start of record `h` on pending. */
  ghost predicate Reading(recs: seq<LogRecord>, k: nat, o: int, pending: seq<byte>, h: nat) {
    && BLOCK_HEADER_SIZE <= o <= BLOCK_SIZE && h <= |recs|
    && Start(recs, h) <= Pos(k, o) <= |Stream(recs)|
    && pending == Stream(recs)[Start(recs, h)..Pos(k, o)]
    && (h < |recs| ==> !Swallowed(recs, h))
    && StartedAreSwallowed(recs, h, Pos(k, o))
    && (BLOCK_HEADER_SIZE < o < BLOCK_SIZE ==> Boundary(recs, Pos(k, o)))
    && (pending != [] ==> EndCrossed(recs, Pos(k, o)))
    && (pending == [] && 0 < h == |recs| ==> !Crosses(recs, h - 1))
  }

  lemma PosInBlock(k: nat, o: int)
    requires BLOCK_HEADER_SIZE <= o < BLOCK_SIZE
    ensures Pos(k, o) % BLOCK_DATA_SIZE == o - BLOCK_HEADER_SIZE && Pos(k, o) / BLOCK_DATA_SIZE == k
  {
  }

  lemma SlicesJoin(s: seq<byte>, a: nat, b: nat, c: nat)
    requires a <= b <= c <= |s|
    ensures s[a..b] + s[b..c] == s[a..c]
  {
  }

  /** If a record ends at `pos`, it started in an earlier block than it ends in. */
  ghost predicate EndCrossed(recs: seq<LogRecord>, pos: int) {
    forall g {:trigger Crosses(recs, g)} :: 0 <= g < |recs| && Start(recs, g + 1) == pos ==> Crosses(recs, g)
  }

  ghost predicate AllOk(recs: seq<LogRecord>) {
    forall i :: 0 <= i < |recs| ==> RecordOk(recs[i])
  }

  /** No record starts inside another. */
  lemma NoStartBetween(recs: seq<LogRecord>, c: nat, g: nat)
    requires c < |recs| && g <= |recs| && Start(recs, c) < Start(recs, g)
    ensures Start(recs, c + 1) <= Start(recs, g)
  {
    if g <= c {
      if g < c { StartsGrow(recs, g, c); }
    } else if c + 1 < g {
      StartsGrow(recs, c + 1, g);
    }
  }

  lemma SamePlace(recs: seq<LogRecord>, g: nat, h: nat)
    requires g <= |recs| && h <= |recs| && Start(recs, g) == Start(recs, h)
    ensures g == h
  {
    if g < h { StartsGrow(recs, g, h); } else if h < g { StartsGrow(recs, h, g); }
  }

  /** The record that block `k` begins with, when its header says that it is not the start of one that lies in
      it, and the bytes of it that the block has. */
  lemma LeadingPart(recs: seq<LogRecord>, k: nat) returns (c: nat, end: nat)
    requires BLOCK_DATA_SIZE * k < |Stream(recs)| && FirstField(recs, BLOCK_DATA_SIZE * k) != BLOCK_HEADER_SIZE
    ensures c < |recs| && Start(recs, c) <= BLOCK_DATA_SIZE * k < end <= Start(recs, c + 1) <= |Stream(recs)|
    ensures end == BLOCK_DATA_SIZE * k + FirstField(recs, BLOCK_DATA_SIZE * k) - BLOCK_HEADER_SIZE <= BLOCK_DATA_SIZE * (k + 1)
    ensures end == Start(recs, c + 1) || end == BLOCK_DATA_SIZE * (k + 1)
    ensures end == Start(recs, c + 1) ==> Crosses(recs, c)
    ensures Start(recs, c) == BLOCK_DATA_SIZE * k ==> Length(recs[c]) > BLOCK_DATA_SIZE
  {
    hide Stream;
    var pos := BLOCK_DATA_SIZE * k;
    c := Cover(recs, pos);
    RecordInStream(recs, c);
    end := pos + FirstField(recs, pos) - BLOCK_HEADER_SIZE;
  }

  /** A record that starts where such a block does is swallowed when another is pending. */
  lemma LeadSwallowed(recs: seq<LogRecord>, k: nat, g: nat)
    requires 0 < g < |recs| && EndCrossed(recs, BLOCK_DATA_SIZE * k) && Start(recs, g) == BLOCK_DATA_SIZE * k
    requires Length(recs[g]) > BLOCK_DATA_SIZE
    ensures Swallowed(recs, g)
  {
    hide Crosses;
    assert Start(recs, (g - 1) + 1) == BLOCK_DATA_SIZE * k;
    assert Crosses(recs, g - 1);
  }

  /** No record but the one that goes on there ends behind its part. */
  lemma PartEnds(recs: seq<LogRecord>, c: nat, pos: nat, end: nat)
    requires c < |recs| && Start(recs, c) <= pos < end <= Start(recs, c + 1)
    requires end == Start(recs, c + 1) ==> Crosses(recs, c)
    ensures EndCrossed(recs, end)
  {
    hide Crosses;
    forall g {:trigger Crosses(recs, g)} | 0 <= g < |recs| && Start(recs, g + 1) == end ensures Crosses(recs, g) {
      NoStartBetween(recs, c, g + 1);
      SamePlace(recs, c + 1, g + 1);
    }
  }

  /** Reading what a block begins with up to where its header says that a record starts. */
  lemma ReadLeading(recs: seq<LogRecord>, k: nat, pending: seq<byte>, h: nat)
    requires AllOk(recs) && Reading(recs, k, BLOCK_HEADER_SIZE, pending, h)
    requires BLOCK_DATA_SIZE * k < |Stream(recs)| && FirstField(recs, BLOCK_DATA_SIZE * k) != BLOCK_HEADER_SIZE
    ensures var l := FirstField(recs, BLOCK_DATA_SIZE * k) - BLOCK_HEADER_SIZE;
      && 0 < l <= BLOCK_DATA_SIZE && BLOCK_DATA_SIZE * k + l <= |Stream(recs)|
      && Reading(recs, k, BLOCK_HEADER_SIZE + l, pending + Stream(recs)[BLOCK_DATA_SIZE * k..BLOCK_DATA_SIZE * k + l], h)
  {
    hide Stream;
    hide Swallowed;
    hide Crosses;
    hide FirstField;
    var pos := BLOCK_DATA_SIZE * k;
    var c, end := LeadingPart(recs, k);
    SlicesJoin(Stream(recs), Start(recs, h), pos, end);
    PartEnds(recs, c, pos, end);
    forall g | h < g < |recs| && Start(recs, g) < end ensures Swallowed(recs, g) {
      if Start(recs, g) > pos {
        NoStartBetween(recs, c, g);
      } else if Start(recs, g) == pos {
        StartsGrow(recs, h, g);
        CoverStarts(recs, c, g, pos);
        LeadSwallowed(recs, k, g);
      }
    }
  }

  /** The record that covers the place where another starts is that one. */
  lemma CoverStarts(recs: seq<LogRecord>, c: nat, g: nat, pos: nat)
    requires c < |recs| && g <= |recs| && Start(recs, c) <= pos < Start(recs, c + 1) && Start(recs, g) == pos
    ensures c == g
  {
    if Start(recs, c) < pos {
      NoStartBetween(recs, c, g);
    } else {
      SamePlace(recs, c, g);
    }
  }

  /** Where the parser stands between records. */
  ghost predicate Between(recs: seq<LogRecord>, k: nat, o: int) {
    && BLOCK_HEADER_SIZE <= o < BLOCK_SIZE && Pos(k, o) < |Stream(recs)|
    && (o == BLOCK_HEADER_SIZE ==> FirstField(recs, BLOCK_DATA_SIZE * k) == BLOCK_HEADER_SIZE)
  }

  /** A block whose header says so begins with a record that is not longer than it. */
  lemma BlockStart(recs: seq<LogRecord>, k: nat) returns (g: nat)
    requires BLOCK_DATA_SIZE * k < |Stream(recs)| && FirstField(recs, BLOCK_DATA_SIZE * k) == BLOCK_HEADER_SIZE
    ensures g < |recs| && Start(recs, g) == BLOCK_DATA_SIZE * k && Length(recs[g]) <= BLOCK_DATA_SIZE
  {
    hide Stream;
    g := Cover(recs, BLOCK_DATA_SIZE * k);
    RecordInStream(recs, g);
  }

  /** The record that starts there. */
  lemma NextRecord(recs: seq<LogRecord>, k: nat, o: int, pending: seq<byte>, h: nat) returns (g: nat)
    requires Reading(recs, k, o, pending, h) && Between(recs, k, o)
    ensures h <= g < |recs| && Start(recs, g) == Pos(k, o)
    ensures pending == [] <==> g == h
  {
    hide Stream;
    hide Swallowed;
    hide EndCrossed;
    hide FirstField;
    var pos := Pos(k, o);
    StartsEnd(recs);
    if o == BLOCK_HEADER_SIZE {
      g := BlockStart(recs, k);
    } else {
      g :| g <= |recs| && Start(recs, g) == pos;
    }
    if g < h { StartsGrow(recs, g, h); }
    if pending == [] { SamePlace(recs, g, h); }
  }

  /** A record that starts in the tail of a block while another is pending is swallowed. */
  lemma TailSwallowed(recs: seq<LogRecord>, k: nat, o: int, g: nat)
    requires EndCrossed(recs, Pos(k, o)) && BLOCK_HEADER_SIZE <= o < BLOCK_SIZE
    requires 0 < g < |recs| && Start(recs, g) == Pos(k, o) && BLOCK_SIZE - o < RECORD_HEADER_SIZE
    ensures Swallowed(recs, g)
  {
    hide Stream;
    hide Crosses;
    PosInBlock(k, o);
    assert Start(recs, (g - 1) + 1) == Pos(k, o);
    assert Crosses(recs, g - 1);
  }

  /** Nothing starts between the start of record `g` and the end of the block it fills. */
  lemma NoneStarts(recs: seq<LogRecord>, h: nat, g: nat, end: nat)
    requires h <= g < |recs| && end <= Start(recs, g + 1) && StartedAreSwallowed(recs, h, Start(recs, g))
    requires g != h ==> Swallowed(recs, g)
    ensures StartedAreSwallowed(recs, h, end)
  {
    hide Swallowed;
    forall x {:trigger Swallowed(recs, x)} | h < x < |recs| && Start(recs, x) < end ensures Swallowed(recs, x) {
      if Start(recs, x) > Start(recs, g) {
        NoStartBetween(recs, g, x);
      } else if Start(recs, x) == Start(recs, g) {
        SamePlace(recs, x, g);
      }
    }
  }

  lemma TailStarts(recs: seq<LogRecord>, k: nat, o: int, pending: seq<byte>, h: nat)
    requires AllOk(recs) && Reading(recs, k, o, pending, h) && Between(recs, k, o)
    requires BLOCK_SIZE - o < RECORD_HEADER_SIZE
    ensures BLOCK_DATA_SIZE * (k + 1) < |Stream(recs)| && StartedAreSwallowed(recs, h, BLOCK_DATA_SIZE * (k + 1))
    ensures EndCrossed(recs, BLOCK_DATA_SIZE * (k + 1))
  {
    hide Stream;
    hide Swallowed;
    hide Crosses;
    var g := NextRecord(recs, k, o, pending, h);
    RecordInStream(recs, g);
    if g != h {
      TailSwallowed(recs, k, o, g);
    }
    NoneStarts(recs, h, g, BLOCK_DATA_SIZE * (k + 1));
    PartEnds(recs, g, Pos(k, o), BLOCK_DATA_SIZE * (k + 1));
  }

  /** A record whose header does not fit the rest of the block: the rest is kept, and the record is
      swallowed when another was pending. */
  lemma ReadTail(recs: seq<LogRecord>, k: nat, o: int, pending: seq<byte>, h: nat)
    requires AllOk(recs) && Reading(recs, k, o, pending, h) && Between(recs, k, o)
    requires BLOCK_SIZE - o < RECORD_HEADER_SIZE
    ensures BLOCK_DATA_SIZE * (k + 1) <= |Stream(recs)|
    ensures Reading(recs, k, BLOCK_SIZE, pending + Stream(recs)[Pos(k, o)..BLOCK_DATA_SIZE * (k + 1)], h)
  {
    hide Stream;
    hide Swallowed;
    hide Crosses;
    hide Boundary;
    hide EndCrossed;
    TailStarts(recs, k, o, pending, h);
    SlicesJoin(Stream(recs), Start(recs, h), Pos(k, o), BLOCK_DATA_SIZE * (k + 1));
  }

  /** A record that lies wholly in the rest of the block. */
  lemma ReadWhole(recs: seq<LogRecord>, k: nat, o: int, h: nat)
    requires AllOk(recs) && Reading(recs, k, o, [], h) && Between(recs, k, o)
    ensures h < |recs| && Start(recs, h) == Pos(k, o) && Start(recs, h + 1) == Pos(k, o) + Length(recs[h]) <= |Stream(recs)|
    ensures Length(recs[h]) <= BLOCK_SIZE - o ==> Reading(recs, k, o + Length(recs[h]), [], h + 1)
    ensures Kept(recs, h + 1) == Kept(recs, h) + [recs[h]]
  {
    hide Stream;
    var g := NextRecord(recs, k, o, [], h);
    RecordInStream(recs, h);
    NotCrossing(recs, k, o, h);
    forall x: nat | h + 1 < x < |recs| ensures Start(recs, x) >= Start(recs, h + 1) {
      StartsGrow(recs, h + 1, x);
    }
  }

  lemma NotCrossing(recs: seq<LogRecord>, k: nat, o: int, h: nat)
    requires BLOCK_HEADER_SIZE <= o < BLOCK_SIZE && h < |recs| && Start(recs, h) == Pos(k, o)
    requires Start(recs, h + 1) == Pos(k, o) + Length(recs[h])
    ensures Length(recs[h]) <= BLOCK_SIZE - o ==> !Crosses(recs, h)
  {
    hide Stream;
    PosInBlock(k, o);
    if Length(recs[h]) <= BLOCK_SIZE - o {
      PosInBlock(k, o + Length(recs[h]) - 1);
    }
  }

  /** A record that goes on in the next block. */
  lemma ReadPart(recs: seq<LogRecord>, k: nat, o: int, h: nat)
    requires AllOk(recs) && Reading(recs, k, o, [], h) && Between(recs, k, o)
    requires h < |recs| && Start(recs, h) == Pos(k, o) && Start(recs, h + 1) == Pos(k, o) + Length(recs[h]) <= |Stream(recs)|
    requires Length(recs[h]) > BLOCK_SIZE - o
    ensures BLOCK_DATA_SIZE * (k + 1) <= |Stream(recs)|
    ensures Reading(recs, k, BLOCK_SIZE, Stream(recs)[Pos(k, o)..BLOCK_DATA_SIZE * (k + 1)], h)
  {
    hide Stream;
    hide Swallowed;
    NoneStarts(recs, h, h, BLOCK_DATA_SIZE * (k + 1));
    PartEnds(recs, h, Pos(k, o), BLOCK_DATA_SIZE * (k + 1));
  }

  /** Pending bytes begin with the record that they started with. */
  lemma PendingStarts(recs: seq<LogRecord>, h: nat, pos: nat)
    requires h < |recs| && Start(recs, h + 1) <= pos <= |Stream(recs)|
    ensures Start(recs, h) <= pos && Encode(recs[h]) <= Stream(recs)[Start(recs, h)..pos]
  {
    hide Stream;
    RecordInStream(recs, h);
    var s := Stream(recs)[Start(recs, h)..pos];
    assert s[..Length(recs[h])] == Stream(recs)[Start(recs, h)..Start(recs, h + 1)];
  }

  /** The pending record is complete when the next one starts, at `g`. */
  lemma PendingDone(recs: seq<LogRecord>, h: nat, g: nat)
    requires h < g <= |recs| && !Swallowed(recs, h) && StartedAreSwallowed(recs, h, Start(recs, g))
    requires Start(recs, g) <= |Stream(recs)|
    ensures Start(recs, h) <= Start(recs, g) && Encode(recs[h]) <= Stream(recs)[Start(recs, h)..Start(recs, g)]
    ensures Kept(recs, g) == Kept(recs, h) + [recs[h]]
    ensures StartedAreSwallowed(recs, g, Start(recs, g))
  {
    hide Stream;
    hide Swallowed;
    forall x {:trigger Swallowed(recs, x)} | h < x < g ensures Swallowed(recs, x) {
      StartsGrow(recs, x, g);
    }
    KeptSkips(recs, h, g);
    StartsGrow(recs, h, g);
    NoStartBetween(recs, h, g);
    PendingStarts(recs, h, Start(recs, g));
    forall x: nat | g < x < |recs| ensures Start(recs, x) >= Start(recs, g) {
      StartsGrow(recs, g, x);
    }
  }

  /** A record that the parser looks for is not swallowed. */
  lemma LookedFor(recs: seq<LogRecord>, k: nat, o: int, g: nat)
    requires Between(recs, k, o) && BLOCK_SIZE - o >= RECORD_HEADER_SIZE
    requires g < |recs| && Start(recs, g) == Pos(k, o)
    ensures !Swallowed(recs, g)
  {
    hide Stream;
    hide Crosses;
    hide FirstField;
    PosInBlock(k, o);
    if o == BLOCK_HEADER_SIZE {
      var c := BlockStart(recs, k);
      SamePlace(recs, c, g);
    }
  }

  lemma EmitPending(recs: seq<LogRecord>, k: nat, o: int, pending: seq<byte>, h: nat) returns (g: nat)
    requires AllOk(recs) && Reading(recs, k, o, pending, h) && Between(recs, k, o)
    requires BLOCK_SIZE - o >= RECORD_HEADER_SIZE && pending != []
    ensures h < g < |recs| && Encode(recs[h]) <= pending
    ensures Reading(recs, k, o, [], g) && Kept(recs, g) == Kept(recs, h) + [recs[h]]
  {
    hide Stream;
    hide Swallowed;
    hide Crosses;
    hide FirstField;
    hide EndCrossed;
    g := NextRecord(recs, k, o, pending, h);
    PendingDone(recs, h, g);
    LookedFor(recs, k, o, g);
  }

  /** The data of a block are its part of the stream. */
  lemma DataSlice(b: Block, recs: seq<LogRecord>, k: nat, a: nat, c: nat)
    requires BlockOk(b, recs, |Stream(recs)|, k) && a <= c <= BLOCK_DATA_SIZE
    requires BLOCK_DATA_SIZE * k + c <= |Stream(recs)|
    ensures c <= |b.data| && b.data[a..c] == Stream(recs)[BLOCK_DATA_SIZE * k + a..BLOCK_DATA_SIZE * k + c]
  {
    hide Stream;
    hide FirstField;
    ChunkSlice(Stream(recs), |Stream(recs)|, k, a, c);
  }

  lemma ChunkSlice(s: seq<byte>, n: nat, k: nat, a: nat, c: nat)
    requires a <= c <= BLOCK_DATA_SIZE && BLOCK_DATA_SIZE * k + c <= n <= |s|
    ensures c <= |Chunk(s, n, k)| && Chunk(s, n, k)[a..c] == s[BLOCK_DATA_SIZE * k + a..BLOCK_DATA_SIZE * k + c]
  {
    SliceOfSlice(s, BLOCK_DATA_SIZE * k, if n < BLOCK_DATA_SIZE * (k + 1) then n else BLOCK_DATA_SIZE * (k + 1), a, c);
  }

  lemma SliceOfSlice(s: seq<byte>, lo: nat, hi: nat, a: nat, c: nat)
    requires lo <= hi <= |s| && a <= c <= hi - lo
    ensures s[lo..hi][a..c] == s[lo + a..lo + c]
  {
    var t, u := s[lo..hi][a..c], s[lo + a..lo + c];
    forall i | 0 <= i < c - a ensures t[i] == u[i] {
    }
  }

  /** What the header of a block says about its leading bytes. */
  lemma FirstOffset(b: Block, recs: seq<LogRecord>, k: nat)
    requires BlockOk(b, recs, |Stream(recs)|, k) && BLOCK_DATA_SIZE * k < |Stream(recs)|
    ensures b.firstRecordOffset == FirstField(recs, BLOCK_DATA_SIZE * k)
  {
    hide FirstField;
    DataLength(b, recs, |Stream(recs)|, k);
  }

  /** The bytes from the start of a record on, in the rest of a block that has room for its header. */
  lemma HeaderInBlock(b: Block, recs: seq<LogRecord>, k: nat, o: int, h: nat)
    requires AllOk(recs) && BlockOk(b, recs, |Stream(recs)|, k)
    requires BLOCK_HEADER_SIZE <= o && RECORD_HEADER_SIZE <= BLOCK_SIZE - o
    requires h < |recs| && Start(recs, h) == Pos(k, o) && Start(recs, h + 1) == Pos(k, o) + Length(recs[h]) <= |Stream(recs)|
    ensures RECORD_HEADER_SIZE <= |b.data| - (o - BLOCK_HEADER_SIZE)
    ensures StatedLength(b.data[o - BLOCK_HEADER_SIZE..]) == Length(recs[h])
    ensures Length(recs[h]) <= BLOCK_SIZE - o ==>
      Length(recs[h]) <= |b.data| - (o - BLOCK_HEADER_SIZE) && Decode(b.data[o - BLOCK_HEADER_SIZE..]) == recs[h]
  {
    hide Stream;
    hide BlockOk;
    hide Encode;
    var a := o - BLOCK_HEADER_SIZE;
    var l := Length(recs[h]);
    RecordInStream(recs, h);
    DataSlice(b, recs, k, a, a + 16);
    var d := b.data[a..];
    assert d[..16] == b.data[a..a + 16] == Stream(recs)[Start(recs, h)..Start(recs, h) + 16];
    assert Stream(recs)[Start(recs, h)..Start(recs, h + 1)][..16] == Stream(recs)[Start(recs, h)..Start(recs, h) + 16];
    HeaderWords(recs[h], d);
    if l <= BLOCK_SIZE - o {
      DataSlice(b, recs, k, a, a + l);
      assert d[..l] == b.data[a..a + l];
      RecordRoundTrip(recs[h], d);
    }
  }

  /** The bytes that a block has of a record that goes on behind it. */
  lemma PartInBlock(b: Block, recs: seq<LogRecord>, k: nat, o: int, h: nat)
    requires AllOk(recs) && BlockOk(b, recs, |Stream(recs)|, k) && Reading(recs, k, o, [], h) && Between(recs, k, o)
    requires h < |recs| && Start(recs, h) == Pos(k, o) && Start(recs, h + 1) == Pos(k, o) + Length(recs[h]) <= |Stream(recs)|
    requires Length(recs[h]) > BLOCK_SIZE - o
    ensures BLOCK_DATA_SIZE <= |b.data| && Reading(recs, k, BLOCK_SIZE, b.data[o - BLOCK_HEADER_SIZE..BLOCK_DATA_SIZE], h)
  {
    hide Start;
    hide Stream;
    hide BlockOk;
    hide AllOk;
    hide Between;
    hide Crosses;
    hide Swallowed;
    hide EndCrossed;
    hide Boundary;
    hide StartedAreSwallowed;
    ReadPart(recs, k, o, h);
    DataSlice(b, recs, k, o - BLOCK_HEADER_SIZE, BLOCK_DATA_SIZE);
  }

  /** Reads the record that starts at `offset`, all of it or the part that lies in the block. */
  method RecoverRecord(block: Block, offset: int, ghost recs: seq<LogRecord>, ghost k: nat, ghost h: nat)
    returns (newOffset: int, newPending: seq<byte>, emitted: Option<LogRecord>, ghost newH: nat)
    requires AllOk(recs) && BlockOk(block, recs, |Stream(recs)|, k) && Reading(recs, k, offset, [], h)
    requires RECORD_HEADER_SIZE <= BLOCK_SIZE - offset && Between(recs, k, offset)
    ensures Reading(recs, k, newOffset, newPending, newH) && newOffset > offset
    ensures emitted == None ==> newH == h
    ensures emitted != None ==> h < |recs| && emitted == Some(recs[h]) && Kept(recs, newH) == Kept(recs, h) + [recs[h]]
  {
    hide Start;
    hide AllOk;
    hide Between;
    hide Crosses;
    hide Boundary;
    hide EndCrossed;
    hide Stream;
    hide Encode;
    hide Swallowed;
    hide BlockOk;
    hide FirstField;
    hide Kept;
    hide Decode;
    newPending, emitted, newH := [], None, h;
    ReadWhole(recs, k, offset, h);
    HeaderInBlock(block, recs, k, offset, h);
    var len := StatedLength(block.data[offset - BLOCK_HEADER_SIZE..]);
    if len <= BLOCK_SIZE - offset {
      emitted := Some(Decode(block.data[offset - BLOCK_HEADER_SIZE..]));
      newOffset, newH := offset + len, h + 1;
    } else {
      PartInBlock(block, recs, k, offset, h);
      newPending := block.data[offset - BLOCK_HEADER_SIZE..BLOCK_DATA_SIZE];
      newOffset := BLOCK_SIZE;
    }
  }

  /** One step of the parser in block `k`. Its offsets count bytes of the block: the source adds them to a
      pointer to block headers (clog_manager.cpp:323-324), which is not what is meant. The test for a tail
      shorter than a header comes before a pending record is handed over, as in the source (311, 319). */
  method BlockRecover(block: Block, offset: int, pending: seq<byte>, ghost recs: seq<LogRecord>, ghost k: nat, ghost h: nat)
    returns (newOffset: int, newPending: seq<byte>, emitted: Option<LogRecord>, ghost newH: nat)
    requires AllOk(recs) && BlockOk(block, recs, |Stream(recs)|, k) && Reading(recs, k, offset, pending, h)
    requires offset < BLOCK_SIZE && Pos(k, offset) < |Stream(recs)|
    ensures Reading(recs, k, newOffset, newPending, newH) && newOffset >= offset
    ensures emitted == None ==> newH == h && newOffset > offset
    ensures emitted != None ==> h < |recs| && emitted == Some(recs[h]) && Kept(recs, newH) == Kept(recs, h) + [recs[h]]
    ensures emitted != None && newOffset == offset ==> pending != [] && newPending == []
  {
    hide Crosses;
    hide Boundary;
    hide EndCrossed;
    hide Stream;
    hide Encode;
    hide Swallowed;
    hide BlockOk;
    hide FirstField;
    hide Kept;
    hide Decode;
    newOffset, newPending, emitted, newH := offset, pending, None, h;
    FirstOffset(block, recs, k);
    if offset == BLOCK_HEADER_SIZE && block.firstRecordOffset != BLOCK_HEADER_SIZE {
      var len := block.firstRecordOffset - BLOCK_HEADER_SIZE;
      ReadLeading(recs, k, pending, h);
      DataSlice(block, recs, k, 0, len);
      newPending := pending + block.data[offset - BLOCK_HEADER_SIZE..offset - BLOCK_HEADER_SIZE + len];
      newOffset := offset + len;
    } else if BLOCK_SIZE - offset < RECORD_HEADER_SIZE {
      ReadTail(recs, k, offset, pending, h);
      DataSlice(block, recs, k, offset - BLOCK_HEADER_SIZE, BLOCK_DATA_SIZE);
      newPending := pending + block.data[offset - BLOCK_HEADER_SIZE..BLOCK_DATA_SIZE];
      newOffset := BLOCK_SIZE;
    } else if pending != [] {
      newH := EmitPending(recs, k, offset, pending, h);
      RecordRoundTrip(recs[h], pending);
      emitted := Some(Decode(pending));
      newPending := [];
    } else {
      newOffset, newPending, emitted, newH := RecoverRecord(block, offset, recs, k, h);
    }
  }

  // What recovery hands to the transactions.

  /** Whether record `r` marks the start or the commit of a transaction. */
  predicate Marks(r: LogRecord) {
    r.kind == MiniTxnBegin || r.kind == MiniTxnCommit
  }

  /** The records to redo, in order. */
  ghost function Redo(recs: seq<LogRecord>): seq<LogRecord> {
    if recs == [] then []
    else if Marks(recs[|recs| - 1]) then Redo(recs[..|recs| - 1])
    else Redo(recs[..|recs| - 1]) + [recs[|recs| - 1]]
  }

  /** These are the places of records, in order. */
  ghost predicate Ascending(places: seq<nat>) {
    forall j, k :: 0 <= j < k < |places| ==> places[j] < places[k]
  }

  /** They are the records that mark no transaction, each once and in the order of the log. */
  lemma {:induction false} RedoMeans(recs: seq<LogRecord>) returns (places: seq<nat>)
    ensures Ascending(places) && forall i: nat :: i in places <==> i < |recs| && !Marks(recs[i])
    ensures |places| == |Redo(recs)| && forall k :: 0 <= k < |places| ==> places[k] < |recs| && Redo(recs)[k] == recs[places[k]]
  {
    places := [];
    if recs != [] {
      var n := |recs| - 1;
      var front := recs[..n];
      var before := RedoMeans(front);
      forall k | 0 <= k < |before| ensures before[k] < n && recs[before[k]] == front[before[k]] {
        assert before[k] in before;
      }
      places := if Marks(recs[n]) then before else before + [n];
      forall i: nat ensures i in places <==> i < |recs| && !Marks(recs[i]) {
        hide Redo;
        hide Ascending;
        assert i < n ==> front[i] == recs[i];
        assert i in places <==> i in before || (!Marks(recs[n]) && i == n);
      }
    }
  }

  /** Whether each transaction that was marked has committed. */
  ghost function Committed(recs: seq<LogRecord>): map<int, bool> {
    if recs == [] then map[]
    else
      var m, r := Committed(recs[..|recs| - 1]), recs[|recs| - 1];
      if r.kind == MiniTxnCommit then m[r.txn := true]
      else if r.kind == MiniTxnBegin && r.txn !in m then m[r.txn := false]
      else m
  }

  /** A transaction counts as committed exactly when the log holds its commit, wherever it stands. */
  lemma {:induction false} CommittedMeans(recs: seq<LogRecord>, t: int)
    ensures t in Committed(recs) <==> exists i :: 0 <= i < |recs| && Marks(recs[i]) && recs[i].txn == t
    ensures t in Committed(recs) && Committed(recs)[t] <==>
      exists i :: 0 <= i < |recs| && recs[i].kind == MiniTxnCommit && recs[i].txn == t
  {
    if recs != [] {
      var front := recs[..|recs| - 1];
      CommittedMeans(front, t);
      if i :| 0 <= i < |front| && Marks(front[i]) && front[i].txn == t {
        assert recs[i] == front[i];
      }
      if i :| 0 <= i < |front| && front[i].kind == MiniTxnCommit && front[i].txn == t {
        assert recs[i] == front[i];
      }
      forall i | 0 <= i < |front| ensures recs[i] == front[i] {}
    }
  }

  class CLogMiniTxnManager {
    var redoList: seq<LogRecord>
    var txnCommitted: map<int, bool>

    constructor ()
      ensures Holds([])
    {
      redoList, txnCommitted := [], map[];
    }

    /** The state after some records. */
    ghost predicate Holds(recs: seq<LogRecord>)
      reads this
    {
      redoList == Redo(recs) && txnCommitted == Committed(recs)
    }

    method CLogRecordManage(r: LogRecord, ghost before: seq<LogRecord>)
      requires Holds(before)
      modifies this
      ensures Holds(before + [r])
    {
      assert (before + [r])[..|before|] == before;
      match r.kind {
        case MiniTxnCommit => txnCommitted := txnCommitted[r.txn := true];
        case MiniTxnBegin =>
          if r.txn !in txnCommitted {
            txnCommitted := txnCommitted[r.txn := false];
          }
        case _ => redoList := redoList + [r];
      }
    }
  }

  /** The number after the last of some records. */
  ghost function AfterLast(recs: seq<LogRecord>): int {
    if recs == [] then 0 else recs[|recs| - 1].lsn + Length(recs[|recs| - 1])
  }

  /** The parser stays within the data of the block. */
  lemma InBlock(b: Block, recs: seq<LogRecord>, k: nat, o: int, pending: seq<byte>, h: nat)
    requires BlockOk(b, recs, |Stream(recs)|, k) && Reading(recs, k, o, pending, h)
    ensures h <= |recs| && o <= BLOCK_HEADER_SIZE + |b.data|
    ensures o < BLOCK_HEADER_SIZE + |b.data| ==> o < BLOCK_SIZE && Pos(k, o) < |Stream(recs)|
  {
    hide Stream;
    hide FirstField;
    DataLength(b, recs, |Stream(recs)|, k);
  }

  /** Parses one block to its end. */
  method RecoverBlock(block: Block, before: seq<byte>, lsn: int, txns: CLogMiniTxnManager,
                      ghost recs: seq<LogRecord>, ghost k: nat, ghost h: nat)
    returns (pending: seq<byte>, newLsn: int, ghost newH: nat)
    requires AllOk(recs) && BlockOk(block, recs, |Stream(recs)|, k)
    requires h <= |recs| && Reading(recs, k, BLOCK_HEADER_SIZE, before, h)
    requires txns.Holds(Kept(recs, h)) && lsn == AfterLast(Kept(recs, h))
    modifies txns
    ensures Reading(recs, k, BLOCK_HEADER_SIZE + |block.data|, pending, newH) && newH <= |recs|
    ensures txns.Holds(Kept(recs, newH)) && newLsn == AfterLast(Kept(recs, newH))
  {
    hide Stream;
    hide BlockOk;
    hide Reading;
    hide Kept;
    hide CLogMiniTxnManager.Holds;
    pending, newLsn, newH := before, lsn, h;
    var offset := BLOCK_HEADER_SIZE;
    while offset < BLOCK_HEADER_SIZE + |block.data|
      invariant Reading(recs, k, offset, pending, newH) && offset <= BLOCK_HEADER_SIZE + |block.data| && newH <= |recs|
      invariant txns.Holds(Kept(recs, newH)) && newLsn == AfterLast(Kept(recs, newH))
      decreases BLOCK_HEADER_SIZE + |block.data| - offset, |pending|
    {
      InBlock(block, recs, k, offset, pending, newH);
      var emitted;
      ghost var was := newH;
      offset, pending, emitted, newH := BlockRecover(block, offset, pending, recs, k, newH);
      if emitted.Some? {
        newLsn := emitted.value.lsn + Length(emitted.value);
        txns.CLogRecordManage(emitted.value, Kept(recs, was));
      }
      InBlock(block, recs, k, offset, pending, newH);
    }
  }

  /** At the end of the log: either every record is done with, or one that crossed into the last
      block is pending. */
  lemma AtEnd(recs: seq<LogRecord>, k: nat, o: int, pending: seq<byte>, h: nat)
    requires AllOk(recs) && Reading(recs, k, o, pending, h) && Pos(k, o) == |Stream(recs)|
    ensures pending == [] ==> h == |recs| && (recs != [] ==> !Crosses(recs, |recs| - 1))
    ensures pending != [] ==> h < |recs| && Encode(recs[h]) <= pending && Crosses(recs, |recs| - 1)
    ensures pending != [] ==> Kept(recs, |recs|) == Kept(recs, h) + [recs[h]]
  {
    hide Stream;
    hide Swallowed;
    hide Kept;
    hide Encode;
    StartsEnd(recs);
    if pending == [] {
      SamePlace(recs, h, |recs|);
    } else {
      PendingDone(recs, h, |recs|);
      assert Start(recs, (|recs| - 1) + 1) == Pos(k, o);
    }
  }

  lemma NextBlock(recs: seq<LogRecord>, k: nat, pending: seq<byte>, h: nat)
    requires Reading(recs, k, BLOCK_SIZE, pending, h)
    ensures Reading(recs, k + 1, BLOCK_HEADER_SIZE, pending, h)
  {
    hide Stream;
    hide Swallowed;
  }

  lemma NothingKept(recs: seq<LogRecord>)
    ensures Kept(recs, 0) == [] && AfterLast([]) == 0
  {
  }

  lemma FirstBlock(recs: seq<LogRecord>)
    ensures Reading(recs, 0, BLOCK_HEADER_SIZE, [], 0)
  {
    assert recs[..0] == [];
  }

  /** What the last kept record adds to the number that recovery leaves: nothing when it was pending. */
  ghost function LsnAfterRecovery(recs: seq<LogRecord>): int {
    var kept := Kept(recs, |recs|);
    if recs != [] && Crosses(recs, |recs| - 1) && kept != [] then AfterLast(kept[..|kept| - 1]) else AfterLast(kept)
  }

  /** What the buffer for a pending record holds behind its bytes. */
  function Padding(): seq<byte> {
    seq(MAX_RECORD_SIZE, i => 0)
  }

  /** The record that pending bytes at the end of the file are taken for, if there are any. */
  function Cut(pending: seq<byte>): seq<LogRecord> {
    if pending == [] then [] else [Decode(pending + Padding())]
  }

  /** Hands over the pending bytes as a record, if there are any, whole or not. The log's number does not
      move past it. */
  method FinishPending(pending: seq<byte>, txns: CLogMiniTxnManager, ghost kept: seq<LogRecord>)
    requires txns.Holds(kept)
    modifies txns
    ensures txns.Holds(kept + Cut(pending))
  {
    hide CLogMiniTxnManager.Holds;
    if pending != [] {
      txns.CLogRecordManage(Decode(pending + Padding()), kept);
    } else {
      assert kept + [] == kept;
    }
  }

  /** At the end of the log what is handed over is the record that was pending. */
  lemma AllRead(recs: seq<LogRecord>, k: nat, o: int, pending: seq<byte>, h: nat)
    requires AllOk(recs) && Reading(recs, k, o, pending, h) && Pos(k, o) == |Stream(recs)| && h <= |recs|
    ensures Kept(recs, |recs|) == Kept(recs, h) + Cut(pending)
    ensures LsnAfterRecovery(recs) == AfterLast(Kept(recs, h))
  {
    hide Stream;
    hide Reading;
    hide Kept;
    hide Encode;
    AtEnd(recs, k, o, pending, h);
    if pending != [] {
      assert Encode(recs[h]) <= pending + Padding();
      RecordRoundTrip(recs[h], pending + Padding());
      assert Kept(recs, |recs|)[..|Kept(recs, |recs|)| - 1] == Kept(recs, h);
    }
  }

  /** Of a record that is cut after its header, all but the rest of the payload is taken over: zeros stand
      in for it. */
  lemma CutRecord(r: LogRecord, p: seq<byte>)
    requires RecordOk(r) && RECORD_HEADER_SIZE <= |p| < Length(r) && p == Encode(r)[..|p|]
    ensures Cut(p) == [r.(payload := r.payload[..|p| - RECORD_HEADER_SIZE] + seq(Length(r) - |p|, i => 0))]
  {
    hide Encode;
    var b := p + Padding();
    assert b[..RECORD_HEADER_SIZE] == Encode(r)[..RECORD_HEADER_SIZE];
    HeaderWords(r, b);
    PayloadOf(r, p);
    assert b[RECORD_HEADER_SIZE..Length(r)] == p[RECORD_HEADER_SIZE..] + seq(Length(r) - |p|, i => 0);
  }

  lemma PayloadOf(r: LogRecord, p: seq<byte>)
    requires RECORD_HEADER_SIZE <= |p| <= Length(r) && p == Encode(r)[..|p|]
    ensures p[RECORD_HEADER_SIZE..] == r.payload[..|p| - RECORD_HEADER_SIZE]
  {
    assert Encode(r)[RECORD_HEADER_SIZE..] == r.payload;
  }

  /** Of a commit, eight bytes of which do not reach the file, no transaction is taken to have committed;
      with a byte more it is. */
  lemma CutCommit(r: LogRecord, p: seq<byte>)
    requires RecordOk(r) && r.kind == MiniTxnCommit && 0 < |p| < RECORD_HEADER_SIZE && p == Encode(r)[..|p|]
    ensures Cut(p)[0].kind == MiniTxnCommit <==> |p| > 8
    ensures |p| > 8 ==> Cut(p)[0].txn == r.txn
  {
    var b := p + Padding();
    var e := Encode(r);
    assert e[8..12] == Word(2) == [2, 0, 0, 0];
    assert b[8] == (if |p| > 8 then 2 else 0) && b[9] == 0 && b[10] == 0 && b[11] == 0;
    if |p| > 8 {
      assert e[4..8] == Word(r.txn) && b[4..8] == e[4..8];
      WordRoundTrip(b, 4, r.txn);
    }
  }

  /** The last block, which has room left, goes back into the buffer to be filled up. */
  method RestoreLast(buf: CLogBuffer, block: Block, ghost recs: seq<LogRecord>, ghost k: nat)
    requires buf.buffer.Length == BUFFER_BLOCKS && buf.current == 0 && buf.writeBlockOffset == 0
    requires buf.currentBlockOffset == BLOCK_SIZE * (k + 1)
    requires BlockOk(block, recs, |Stream(recs)|, k) && 0 < |block.data| < BLOCK_DATA_SIZE
    modifies buf, buf.buffer
    ensures buf.Buffered(recs, |Stream(recs)|, k)
  {
    hide Stream;
    hide FirstField;
    DataLength(block, recs, |Stream(recs)|, k);
    buf.buffer[0] := block;
    buf.writeBlockOffset := 0;
    buf.writeOffset := |block.data| + BLOCK_HEADER_SIZE;
    assert buf.HoldsAt(recs, |Stream(recs)|, k, 0);
  }

  /** The file holds exactly the blocks of the first `m` bytes of a log. */
  ghost predicate PartInFile(blocks: map<int, Block>, recs: seq<LogRecord>, m: nat) {
    && m <= |Stream(recs)| && Stored(blocks, recs, m, BlockCount(m))
    && forall k :: k in blocks && k > 0 ==> k <= BlockCount(m)
  }

  /** A block of such a file is full, or the last one of a log that is all there. */
  lemma BlockOfPart(blocks: map<int, Block>, recs: seq<LogRecord>, m: nat, k: nat)
    requires PartInFile(blocks, recs, m) && (m == |Stream(recs)| || m % BLOCK_DATA_SIZE == 0) && k + 1 in blocks
    ensures BLOCK_DATA_SIZE * k < m && BlockOk(blocks[k + 1], recs, |Stream(recs)|, k)
    ensures |blocks[k + 1].data| < BLOCK_DATA_SIZE ==> m == |Stream(recs)|
    ensures blocks[k + 1].blockOffset == BLOCK_SIZE * (k + 1)
    ensures |blocks[k + 1].data| == if m < BLOCK_DATA_SIZE * (k + 1) then m - BLOCK_DATA_SIZE * k else BLOCK_DATA_SIZE
  {
    hide Stream;
    hide FirstField;
    assert StoredAt(blocks, recs, m, k);
    if m != |Stream(recs)| {
      FullBlockStays(blocks[k + 1], recs, m, |Stream(recs)|, k);
    }
  }

  /** Reads the blocks of the file one after the other: hands over the records that are not swallowed,
      and what is left of one at the end; leaves the number of the next record, and sets the buffer up to
      continue a log that is all there. */
  method Recover(file: CLogFile, buf: CLogBuffer, txns: CLogMiniTxnManager, ghost recs: seq<LogRecord>, ghost m: nat)
    returns (lsn: int, ghost h: nat, ghost q: nat)
    requires AllOk(recs) && PartInFile(file.blocks, recs, m) && (m == |Stream(recs)| || m % BLOCK_DATA_SIZE == 0)
    requires txns.Holds([]) && buf.Empty(0)
    modifies buf, buf.buffer, txns
    ensures h <= |recs| && Start(recs, h) <= m && StartedAreSwallowed(recs, h, m)
    ensures txns.Holds(Kept(recs, h) + Cut(Stream(recs)[Start(recs, h)..m])) && lsn == AfterLast(Kept(recs, h))
    ensures m == |Stream(recs)| ==> txns.Holds(Kept(recs, |recs|)) && lsn == LsnAfterRecovery(recs)
    ensures m == |Stream(recs)| ==> buf.Buffered(recs, m, q)
  {
    hide Stream;
    hide Reading;
    hide BlockOk;
    hide LsnAfterRecovery;
    hide AfterLast;
    hide Kept;
    hide Swallowed;
    hide Cut;
    hide CLogMiniTxnManager.Holds;
    var k: nat, pending: seq<byte> := 0, [];
    h, lsn, q := 0, 0, 0;
    FirstBlock(recs);
    NothingKept(recs);
    while k + 1 in file.blocks
      invariant BLOCK_DATA_SIZE * k <= m && h <= |recs|
      invariant Reading(recs, k, BLOCK_HEADER_SIZE, pending, h) && buf.Empty(k)
      invariant txns.Holds(Kept(recs, h)) && lsn == AfterLast(Kept(recs, h))
      decreases m - BLOCK_DATA_SIZE * k
    {
      var block := file.blocks[k + 1];
      BlockOfPart(file.blocks, recs, m, k);
      buf.currentBlockOffset := block.blockOffset;
      pending, lsn, h := RecoverBlock(block, pending, lsn, txns, recs, k, h);
      if |block.data| < BLOCK_DATA_SIZE {
        RestoreLast(buf, block, recs, k);
        FinishPending(pending, txns, Kept(recs, h));
        AllRead(recs, k, BLOCK_HEADER_SIZE + |block.data|, pending, h);
        PendingIs(recs, k, BLOCK_HEADER_SIZE + |block.data|, pending, h);
        return lsn, h, k;
      }
      NextBlock(recs, k, pending, h);
      k := k + 1;
    }
    assert StoredAt(file.blocks, recs, m, k) || k >= BlockCount(m);
    q := k;
    FinishPending(pending, txns, Kept(recs, h));
    PendingIs(recs, k, BLOCK_HEADER_SIZE, pending, h);
    if m == |Stream(recs)| {
      AllRead(recs, k, BLOCK_HEADER_SIZE, pending, h);
    }
  }

  lemma PendingIs(recs: seq<LogRecord>, k: nat, o: int, pending: seq<byte>, h: nat)
    requires Reading(recs, k, o, pending, h)
    ensures h <= |recs| && 0 <= Start(recs, h) <= Pos(k, o) <= |Stream(recs)|
    ensures pending == Stream(recs)[Start(recs, h)..Pos(k, o)] && StartedAreSwallowed(recs, h, Pos(k, o))
  {
  }

  /** What recovery returns from the file of a log is what was appended, exactly when no record is swallowed. */
  lemma RecoversExactly(recs: seq<LogRecord>)
    ensures Kept(recs, |recs|) == recs <==> forall i {:trigger Swallowed(recs, i)} :: 0 <= i < |recs| ==> !Swallowed(recs, i)
  {
    KeptAll(recs, |recs|);
    assert recs[..|recs|] == recs;
  }

  /** In a numbered log, what comes behind the last record is the end. */
  lemma AfterNumbered(recs: seq<LogRecord>)
    requires Numbered(recs)
    ensures AfterLast(recs) == |Stream(recs)|
  {
    hide Encode;
    if recs == [] {
      EmptyStream();
    } else {
      StartsEnd(recs);
      RecordInStream(recs, |recs| - 1);
    }
  }

  /** Then the next number is the end of the log, unless the last record crossed into the last block:
      its own number is given out again. */
  lemma NumbersContinue(recs: seq<LogRecord>)
    requires Numbered(recs) && Kept(recs, |recs|) == recs && recs != []
    ensures LsnAfterRecovery(recs) ==
      if Crosses(recs, |recs| - 1) then recs[|recs| - 1].lsn else |Stream(recs)|
  {
    hide Stream;
    hide Crosses;
    hide Kept;
    var front := recs[..|recs| - 1];
    assert Numbered(front) by {
      forall i | 0 <= i < |front| ensures front[i].lsn == Start(front, i) { StartOfPrefix(recs, |front|, i); }
    }
    AfterNumbered(recs);
    AfterNumbered(front);
    hide AfterLast;
  }

  lemma EmptyStream()
    ensures Stream([]) == []
  {
  }

  /** A log that recovery does not return: the second record crosses into the next block, and ends
      there with too little room left for the third one's header. */
  lemma SwallowedExample(a: LogRecord, b: LogRecord, c: LogRecord)
    requires Length(a) == 496 && Length(b) == 504 && Length(c) == 24
    ensures Swallowed([a, b, c], 2) && Kept([a, b, c], 3) == [a, b]
  {
    var recs := [a, b, c];
    assert recs[..0] == [] && recs[..1] == [a] && recs[..2] == [a, b] && recs[..3] == recs;
    EmptyStream();
    StreamPush([], a);
    StreamPush([a], b);
    assert [] + [a] == [a] && [a] + [b] == [a, b];
    assert Start(recs, 0) == 0 && Start(recs, 1) == 496 && Start(recs, 2) == 1000;
    assert !Swallowed(recs, 0) && !Swallowed(recs, 1) && Swallowed(recs, 2);
    assert Kept(recs, 1) == [a] && Kept(recs, 2) == [a, b];
  }

  // The first records of a log.

  lemma StartOfPrefix(recs: seq<LogRecord>, j: nat, i: nat)
    requires i <= j <= |recs|
    ensures Start(recs[..j], i) == Start(recs, i)
  {
    assert recs[..j][..i] == recs[..i];
  }

  lemma {:induction false} KeptOfPrefix(recs: seq<LogRecord>, j: nat, h: nat)
    requires h <= j <= |recs|
    ensures Kept(recs[..j], h) == Kept(recs, h)
  {
    hide Swallowed;
    if h > 0 {
      KeptOfPrefix(recs, j, h - 1);
      SwallowedInPrefix(recs, j, h - 1);
    }
  }

  lemma SwallowedInPrefix(recs: seq<LogRecord>, j: nat, i: nat)
    requires i < j <= |recs|
    ensures Swallowed(recs[..j], i) <==> Swallowed(recs, i)
  {
    hide Start;
    StartOfPrefix(recs, j, i);
    StartOfPrefix(recs, j, i + 1);
    if i > 0 {
      StartOfPrefix(recs, j, i - 1);
    }
  }

  /** A block of the first bytes of a log is one of the records that these are. */
  lemma {:induction false} BlockOfPrefix(b: Block, recs: seq<LogRecord>, j: nat, m: nat, q: nat)
    requires j <= |recs| && m <= Start(recs, j) && BlockOk(b, recs, m, q)
    ensures BlockOk(b, recs[..j], m, q)
  {
    hide BlockOk;
    if j == |recs| {
      assert recs[..j] == recs;
    } else {
      var front := recs[..|recs| - 1];
      assert recs == front + [recs[|recs| - 1]] && front[..j] == recs[..j];
      StartOfPrefix(recs, |front|, j);
      StreamPrefix(front, j);
      BlockWithout(b, front, recs[|recs| - 1], m, q);
      BlockOfPrefix(b, front, j, m, q);
    }
  }

  lemma BlockWithout(b: Block, front: seq<LogRecord>, r: LogRecord, m: nat, q: nat)
    requires m <= |Stream(front)| && BlockOk(b, front + [r], m, q)
    ensures BlockOk(b, front, m, q)
  {
    hide Stream;
    hide FirstField;
    StreamPush(front, r);
    assert Stream(front + [r])[..|Stream(front)|] == Stream(front);
    assert Chunk(Stream(front + [r]), m, q) == Chunk(Stream(front), m, q);
    DataLength(b, front + [r], m, q);
    if b.data != [] {
      FirstExtends(front, r, BLOCK_DATA_SIZE * q);
    }
  }

  lemma PartOfPrefix(blocks: map<int, Block>, recs: seq<LogRecord>, j: nat, m: nat)
    requires j <= |recs| && m == Start(recs, j) && PartInFile(blocks, recs, m)
    ensures PartInFile(blocks, recs[..j], m) && m == |Stream(recs[..j])|
  {
    hide BlockOk;
    forall k {:trigger StoredAt(blocks, recs[..j], m, k)} | 0 <= k < BlockCount(m) ensures StoredAt(blocks, recs[..j], m, k) {
      assert StoredAt(blocks, recs, m, k);
      BlockOfPrefix(blocks[k + 1], recs, j, m, k);
    }
  }

  /** A log whose file holds its last block as it is now has all of it there. */
  lemma AllSynced(m: CLogManager)
    requires m.Valid()
    ensures m.Durable() <==> m.synced == |Stream(m.records)|
  {
    hide Stream;
    hide FirstField;
    var n := |Stream(m.records)|;
    if m.Durable() && n > 0 {
      var k := BlockCount(n) - 1;
      assert StoredAt(m.clogFile.blocks, m.records, n, k);
      assert StoredAt(m.clogFile.blocks, m.records, m.synced, k);
      DataLength(m.clogFile.blocks[k + 1], m.records, n, k);
      DataLength(m.clogFile.blocks[k + 1], m.records, m.synced, k);
    }
  }

  lemma {:induction false} EvenStarts(recs: seq<LogRecord>, i: nat)
    requires i <= |recs| && forall j :: 0 <= j < |recs| ==> Length(recs[j]) == 560
    ensures Start(recs, i) == 560 * i
  {
    if i == 0 {
      assert recs[..0] == [];
    } else {
      EvenStarts(recs, i - 1);
      RecordInStream(recs, i - 1);
    }
  }

  /** Eleven records of 560 bytes, as insertions of longer rows are logged: the ninth ends with a block, the tenth
      begins the next one and goes on behind it, and is not returned. */
  lemma LongExample(recs: seq<LogRecord>)
    requires |recs| == 11 && forall i :: 0 <= i < 11 ==> Length(recs[i]) == 560
    ensures Swallowed(recs, 9) && Kept(recs, 11) == recs[..9] + [recs[10]]
  {
    hide Start;
    forall i | 0 <= i <= 11 ensures Start(recs, i) == 560 * i {
      EvenStarts(recs, i);
    }
    forall i {:trigger Swallowed(recs, i)} | 0 <= i < 11 ensures Swallowed(recs, i) <==> i == 9 {
      assert Start(recs, i) == 560 * i;
    }
    assert Crosses(recs, 8);
    KeptAll(recs, 9);
    assert Kept(recs, 10) == Kept(recs, 9);
  }

  /** The first records of a log whose file ends with the last of them, or all of them. */
  lemma SyncedRecords(m: CLogManager) returns (j: nat)
    requires m.Valid() && AllOk(m.records)
    ensures j <= |m.records| && AllOk(m.records[..j]) && m.synced <= Start(m.records, j)
    ensures PartInFile(m.clogFile.blocks, m.records[..j], m.synced)
    ensures m.synced == |Stream(m.records[..j])| || m.synced % BLOCK_DATA_SIZE == 0
    ensures m.Durable() ==> m.records[..j] == m.records && m.synced == |Stream(m.records)|
  {
    hide Stream;
    hide BlockOk;
    AllSynced(m);
    var recs := m.records;
    StartsEnd(recs);
    if Boundary(recs, m.synced) && m.synced != |Stream(recs)| {
      j :| j <= |recs| && Start(recs, j) == m.synced;
      PartOfPrefix(m.clogFile.blocks, recs, j, m.synced);
    } else {
      j := |recs|;
      assert recs[..j] == recs;
    }
  }

  /** What recovery from the first records says of all of them. */
  lemma PartIsWhole(recs: seq<LogRecord>, j: nat, h: nat, s: nat)
    requires h <= j <= |recs| && Start(recs[..j], h) <= s <= Start(recs, j) && StartedAreSwallowed(recs[..j], h, s)
    ensures Start(recs, h) == Start(recs[..j], h) && Kept(recs, h) == Kept(recs[..j], h)
    ensures s <= |Stream(recs)| && s <= |Stream(recs[..j])|
    ensures Stream(recs)[Start(recs, h)..s] == Stream(recs[..j])[Start(recs, h)..s]
    ensures StartedAreSwallowed(recs, h, s)
  {
    hide Stream;
    hide Swallowed;
    StartOfPrefix(recs, j, h);
    KeptOfPrefix(recs, j, h);
    StreamPrefix(recs, j);
    assert Stream(recs)[..Start(recs, j)] == Stream(recs[..j]);
    forall g {:trigger Swallowed(recs, g)} | h < g < |recs| && Start(recs, g) < s ensures Swallowed(recs, g) {
      if g < j {
        StartOfPrefix(recs, j, g);
        SwallowedInPrefix(recs, j, g);
      } else if g > j {
        StartsGrow(recs, j, g);
      }
    }
  }

  /** A restart from the file, wherever the last flush ended: the transactions get the records that lie
      there and are not swallowed, and what there is of the record that was being written. When all of the
      log is there, they get what recovery returns from it, and the new buffer continues where it ends. */
  method Restart(m: CLogManager) returns (buf: CLogBuffer, txns: CLogMiniTxnManager, lsn: int, ghost h: nat, ghost q: nat)
    requires m.Valid() && AllOk(m.records)
    ensures fresh(buf) && fresh(buf.buffer) && fresh(txns)
    ensures h <= |m.records| && Start(m.records, h) <= m.synced && StartedAreSwallowed(m.records, h, m.synced)
    ensures txns.Holds(Kept(m.records, h) + Cut(Stream(m.records)[Start(m.records, h)..m.synced]))
    ensures lsn == AfterLast(Kept(m.records, h))
    ensures m.Durable() ==> txns.Holds(Kept(m.records, |m.records|)) && lsn == LsnAfterRecovery(m.records)
    ensures m.Durable() ==> buf.Buffered(m.records, |Stream(m.records)|, q)
  {
    hide Stream;
    hide Swallowed;
    hide CLogMiniTxnManager.Holds;
    buf := new CLogBuffer();
    txns := new CLogMiniTxnManager();
    ghost var recs, s := m.records, m.synced;
    ghost var j := SyncedRecords(m);
    ghost var part := recs[..j];
    assert Kept(part, 0) == [];
    lsn, h, q := Recover(m.clogFile, buf, txns, part, s);
    PartIsWhole(recs, j, h, s);
  }

  /** A restart from a file that holds all of the log, ready for the next record: the records are the same, and
      when recovery returned all of them, their numbering goes on unless the last one crosses into another block. */
  method Reopen(m: CLogManager) returns (next: CLogManager, txns: CLogMiniTxnManager)
    requires m.Valid() && AllOk(m.records) && m.Durable()
    ensures next.Valid() && next.Durable() && next.records == m.records && next.clogFile == m.clogFile
    ensures fresh(next) && fresh(next.clogBuffer) && fresh(next.clogBuffer.buffer) && fresh(txns)
    ensures txns.Holds(Kept(m.records, |m.records|)) && next.globalLsn == LsnAfterRecovery(m.records)
    ensures Numbered(m.records) && Kept(m.records, |m.records|) == m.records ==>
      (next.InStep() <==> m.records == [] || !Crosses(m.records, |m.records| - 1))
  {
    hide Stream;
    hide Swallowed;
    hide BlockOk;
    hide CLogBuffer.Buffered;
    hide Start;
    hide Kept;
    hide LsnAfterRecovery;
    hide Crosses;
    hide CLogMiniTxnManager.Holds;
    var buf, lsn;
    ghost var h, q;
    AllSynced(m);
    buf, txns, lsn, h, q := Restart(m);
    next := new CLogManager.Recovered(buf, m.clogFile, lsn, m.records, q);
    if Numbered(m.records) && Kept(m.records, |m.records|) == m.records {
      GoesOn(m.records);
    }
  }

  /** The next number is the end of the log unless the last record crosses. */
  lemma GoesOn(recs: seq<LogRecord>)
    requires Numbered(recs) && Kept(recs, |recs|) == recs
    ensures LsnAfterRecovery(recs) == |Stream(recs)| <==> recs == [] || !Crosses(recs, |recs| - 1)
  {
    hide Stream;
    hide Crosses;
    EmptyStream();
    if recs != [] {
      NumbersContinue(recs);
      StartsEnd(recs);
      RecordInStream(recs, |recs| - 1);
    }
  }
}
