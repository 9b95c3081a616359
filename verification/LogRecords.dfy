/** Redo log records as bytes, and the byte stream of a list of records cut into blocks. */
module LogRecords {
  const BLOCK_SIZE := 512
  const BLOCK_HEADER_SIZE := 8
  const BLOCK_DATA_SIZE := 504
  const RECORD_HEADER_SIZE := 16
  const MAX_RECORD_SIZE := 8 * BLOCK_SIZE

  type byte = x: int | 0 <= x < 256

  /** What a record is about; `Other` is what a header that is not that of a record can say. */
  datatype Kind = Other | MiniTxnBegin | MiniTxnCommit | InsertRow | DeleteRow

  /** A record: its header fields, and the bytes that follow the header, which starts at its first byte.
      (The source also writes the pointer to the virtual functions, and does not read it back:
      clog_manager.cpp:57, 105-111.) */
  datatype LogRecord = LogRecord(lsn: int, txn: int, kind: Kind, payload: seq<byte>)

  /** The header fields are non-negative 32-bit integers, and the record is not longer than recovery is made
      for (clog_manager.h:147). */
  predicate RecordOk(r: LogRecord) {
    0 <= r.lsn < 0x8000_0000 && 0 <= r.txn < 0x8000_0000 && r.kind != Other && |r.payload| <= MAX_RECORD_SIZE - RECORD_HEADER_SIZE
  }

  // Header fields are little-endian words.

  function Word(x: int): (w: seq<byte>)
    ensures |w| == 4
  {
    [x % 256, x / 256 % 256, x / 0x1_0000 % 256, x / 0x100_0000 % 256]
  }

  function WordAt(b: seq<byte>, i: nat): int
    requires i + 4 <= |b|
  {
    b[i] as int + 256 * b[i + 1] as int + 0x1_0000 * b[i + 2] as int + 0x100_0000 * b[i + 3] as int
  }

  lemma WordParts(x: int)
    requires 0 <= x < 0x1_0000_0000
    ensures x % 256 + 256 * (x / 256 % 256) + 0x1_0000 * (x / 0x1_0000 % 256) + 0x100_0000 * (x / 0x100_0000 % 256) == x
  {
    var a := x / 256;
    var b := a / 256;
    assert x / 0x1_0000 == b;
    assert x / 0x100_0000 == b / 256;
    assert x == 256 * a + x % 256 && a == 256 * b + a % 256 && b == 256 * (b / 256) + b % 256;
  }

  lemma WordRoundTrip(b: seq<byte>, i: nat, x: int)
    requires 0 <= x < 0x1_0000_0000 && i + 4 <= |b| && b[i..i + 4] == Word(x)
    ensures WordAt(b, i) == x
  {
    WordParts(x);
    var w := b[i..i + 4];
    assert w[0] == b[i] && w[1] == b[i + 1] && w[2] == b[i + 2] && w[3] == b[i + 3];
  }

  /** The numbers of the record types. */
  function KindCode(k: Kind): (n: int)
    ensures 0 <= n <= 4
  {
    match k
    case Other => 0
    case MiniTxnBegin => 1
    case MiniTxnCommit => 2
    case InsertRow => 3
    case DeleteRow => 4
  }

  function KindOf(n: int): Kind {
    if n == 1 then MiniTxnBegin else if n == 2 then MiniTxnCommit else if n == 3 then InsertRow else if n == 4 then DeleteRow
    else Other
  }

  function Length(r: LogRecord): nat {
    RECORD_HEADER_SIZE + |r.payload|
  }

  function Encode(r: LogRecord): (b: seq<byte>)
    ensures |b| == Length(r)
  {
    Word(r.lsn) + Word(r.txn) + Word(KindCode(r.kind)) + Word(Length(r)) + r.payload
  }

  /** The length that a header states. */
  function StatedLength(b: seq<byte>): int
    requires |b| >= RECORD_HEADER_SIZE
  {
    WordAt(b, 12)
  }

  /** The record at the start of some bytes; what follows it is ignored. */
  function Decode(b: seq<byte>): LogRecord
    requires |b| >= RECORD_HEADER_SIZE
  {
    var payload := if RECORD_HEADER_SIZE <= StatedLength(b) <= |b| then b[RECORD_HEADER_SIZE..StatedLength(b)] else [];
    LogRecord(WordAt(b, 0), WordAt(b, 4), KindOf(WordAt(b, 8)), payload)
  }

  lemma HeaderWords(r: LogRecord, b: seq<byte>)
    requires RecordOk(r) && |b| >= RECORD_HEADER_SIZE && b[..RECORD_HEADER_SIZE] == Encode(r)[..RECORD_HEADER_SIZE]
    ensures WordAt(b, 0) == r.lsn && WordAt(b, 4) == r.txn && WordAt(b, 8) == KindCode(r.kind)
    ensures StatedLength(b) == Length(r)
  {
    var e := Encode(r);
    var h := b[..16];
    assert b[0..4] == h[0..4] == e[0..4] == Word(r.lsn);
    assert b[4..8] == h[4..8] == e[4..8] == Word(r.txn);
    assert b[8..12] == h[8..12] == e[8..12] == Word(KindCode(r.kind));
    assert b[12..16] == h[12..16] == e[12..16] == Word(Length(r));
    WordRoundTrip(b, 0, r.lsn);
    WordRoundTrip(b, 4, r.txn);
    WordRoundTrip(b, 8, KindCode(r.kind));
    WordRoundTrip(b, 12, Length(r));
  }

  /** The number that four bytes spell, the lowest byte first. */
  predicate Spells(b: seq<byte>, i: nat, x: int)
    requires i + 4 <= |b|
  {
    b[i] as int + b[i + 1] as int * 0x100 + b[i + 2] as int * 0x1_0000 + b[i + 3] as int * 0x100_0000 == x
  }

  /** Where the parts of a record are in its bytes: number, transaction, type and length, then the payload. */
  lemma RecordLayout(r: LogRecord)
    requires RecordOk(r)
    ensures var e := Encode(r);
      && Spells(e, 0, r.lsn) && Spells(e, 4, r.txn) && Spells(e, 12, |e|) && e[16..] == r.payload
      && Spells(e, 8, if r.kind == MiniTxnBegin then 1 else if r.kind == MiniTxnCommit then 2 else if r.kind == InsertRow then 3 else 4)
  {
    HeaderWords(r, Encode(r));
  }

  /** Whatever follows its bytes, a record is read back as it was written. */
  lemma RecordRoundTrip(r: LogRecord, b: seq<byte>)
    requires RecordOk(r) && Encode(r) <= b
    ensures StatedLength(b) == Length(r) && Decode(b) == r
  {
    assert b[..16] == Encode(r)[..16];
    HeaderWords(r, b);
    assert b[16..Length(r)] == Encode(r)[16..] == r.payload;
  }

  // The stream of a list of records.

  function Stream(recs: seq<LogRecord>): seq<byte> {
    if recs == [] then [] else Stream(recs[..|recs| - 1]) + Encode(recs[|recs| - 1])
  }

  /** Where record `i` starts in the stream. */
  function Start(recs: seq<LogRecord>, i: nat): nat
    requires i <= |recs|
  {
    |Stream(recs[..i])|
  }

  lemma StreamPush(recs: seq<LogRecord>, r: LogRecord)
    ensures Stream(recs + [r]) == Stream(recs) + Encode(r)
  {
    assert (recs + [r])[..|recs|] == recs;
  }

  lemma {:induction false} StreamPrefix(recs: seq<LogRecord>, i: nat)
    requires i <= |recs|
    ensures Stream(recs[..i]) <= Stream(recs)
  {
    if i == |recs| {
      assert recs[..i] == recs;
    } else {
      var front := recs[..|recs| - 1];
      StreamPrefix(front, i);
      assert front[..i] == recs[..i];
    }
  }

  /** Record `i` occupies the stream from its start to the start of the next. */
  lemma RecordInStream(recs: seq<LogRecord>, i: nat)
    requires i < |recs|
    ensures Start(recs, i + 1) == Start(recs, i) + Length(recs[i]) <= |Stream(recs)|
    ensures Stream(recs)[Start(recs, i)..Start(recs, i + 1)] == Encode(recs[i])
  {
    assert recs[..i + 1] == recs[..i] + [recs[i]];
    StreamPush(recs[..i], recs[i]);
    StreamPrefix(recs, i + 1);
    var t := Stream(recs[..i + 1]);
    assert Stream(recs)[..|t|] == t;
  }

  lemma StartsEnd(recs: seq<LogRecord>)
    ensures Start(recs, |recs|) == |Stream(recs)|
  {
    assert recs[..|recs|] == recs;
  }

  lemma {:induction false} StartsGrow(recs: seq<LogRecord>, i: nat, j: nat)
    requires i < j <= |recs|
    ensures Start(recs, i) + RECORD_HEADER_SIZE <= Start(recs, j)
  {
    RecordInStream(recs, j - 1);
    if i < j - 1 {
      StartsGrow(recs, i, j - 1);
    }
  }

  // The blocks that hold the first `n` bytes of a stream.

  /** The part of the first `n` bytes that block `q` holds. */
  function Chunk(s: seq<byte>, n: nat, q: nat): seq<byte>
    requires BLOCK_DATA_SIZE * q <= n <= |s|
  {
    s[BLOCK_DATA_SIZE * q..if n < BLOCK_DATA_SIZE * (q + 1) then n else BLOCK_DATA_SIZE * (q + 1)]
  }

  /** The record that holds byte `pos` of the stream. */
  ghost function Cover(recs: seq<LogRecord>, pos: nat): (i: nat)
    requires pos < |Stream(recs)|
    ensures i < |recs| && Start(recs, i) <= pos < Start(recs, i + 1)
  {
    var front := recs[..|recs| - 1];
    RecordInStream(recs, |recs| - 1);
    StartsEnd(recs);
    if pos >= |Stream(front)| then |recs| - 1
    else
      var i := Cover(front, pos);
      assert front[..i] == recs[..i] && front[..i + 1] == recs[..i + 1];
      i
  }

  lemma CoverUnique(recs: seq<LogRecord>, pos: nat, i: nat)
    requires pos < |Stream(recs)| && i < |recs| && Start(recs, i) <= pos < Start(recs, i + 1)
    ensures Cover(recs, pos) == i
  {
    var j := Cover(recs, pos);
    if i < j {
      StartsGrow(recs, i, j);
      if i + 1 < j { StartsGrow(recs, i + 1, j); }
    } else if j < i {
      StartsGrow(recs, j, i);
      if j + 1 < i { StartsGrow(recs, j + 1, i); }
    }
  }

  /** Where the header of a block says that its first record starts, when the block is begun with what is left
      of a record of `length` bytes from byte `offset` on: behind that, or behind the block when that is more
      than the block holds. */
  function FirstFor(length: nat, offset: nat): nat
    requires offset < length
  {
    if length - offset > BLOCK_DATA_SIZE then BLOCK_SIZE
    else BLOCK_HEADER_SIZE + if offset == 0 then 0 else length - offset
  }

  /** What the header of the block that starts at `pos` says. */
  ghost function FirstField(recs: seq<LogRecord>, pos: nat): nat
    requires pos < |Stream(recs)|
  {
    var i := Cover(recs, pos);
    RecordInStream(recs, i);
    FirstFor(Length(recs[i]), pos - Start(recs, i))
  }

  lemma FirstFieldOf(recs: seq<LogRecord>, pos: nat, i: nat)
    requires pos < |Stream(recs)| && i < |recs| && Start(recs, i) <= pos < Start(recs, i) + Length(recs[i])
    ensures FirstField(recs, pos) == FirstFor(Length(recs[i]), pos - Start(recs, i))
  {
    hide Stream;
    hide Cover;
    RecordInStream(recs, i);
    CoverUnique(recs, pos, i);
  }

  /** A record that starts with a block: its header says so, unless the record goes on behind the block. */
  lemma FirstStarts(recs: seq<LogRecord>, pos: nat, i: nat)
    requires pos < |Stream(recs)| && i < |recs| && Start(recs, i) == pos
    ensures FirstField(recs, pos) == if Length(recs[i]) > 504 then 512 else 8
  {
    FirstFieldOf(recs, pos, i);
  }

  /** A record that began before: the header says where in the block it ends, or that it does not end there. */
  lemma FirstEnds(recs: seq<LogRecord>, pos: nat, i: nat)
    requires pos < |Stream(recs)| && i < |recs| && Start(recs, i) < pos < Start(recs, i) + Length(recs[i])
    ensures var end := Start(recs, i) + Length(recs[i]) - pos;
      FirstField(recs, pos) == if end > 504 then 512 else 8 + end
  {
    FirstFieldOf(recs, pos, i);
  }

  /** More records at the end do not change it. */
  lemma FirstExtends(recs: seq<LogRecord>, r: LogRecord, pos: nat)
    requires pos < |Stream(recs)|
    ensures pos < |Stream(recs + [r])| && FirstField(recs + [r], pos) == FirstField(recs, pos)
  {
    StreamPush(recs, r);
    var i := Cover(recs, pos);
    assert (recs + [r])[..i] == recs[..i] && (recs + [r])[..i + 1] == recs[..i + 1];
    CoverUnique(recs + [r], pos, i);
  }

  /** A record ends at `pos`. */
  ghost predicate Boundary(recs: seq<LogRecord>, pos: int) {
    exists g: nat :: g <= |recs| && Start(recs, g) == pos
  }

  lemma BoundaryExtends(recs: seq<LogRecord>, r: LogRecord, pos: int)
    requires Boundary(recs, pos) || pos == |Stream(recs)|
    ensures Boundary(recs + [r], pos)
  {
    if Boundary(recs, pos) {
      var g: nat :| g <= |recs| && Start(recs, g) == pos;
      assert (recs + [r])[..g] == recs[..g] && Start(recs + [r], g) == pos;
    } else {
      assert (recs + [r])[..|recs|] == recs && Start(recs + [r], |recs|) == pos;
    }
  }

  /** Some byte sequences one after the other. */
  ghost function Concat(parts: seq<seq<byte>>): seq<byte> {
    if parts == [] then [] else Concat(parts[..|parts| - 1]) + parts[|parts| - 1]
  }

  /** The chunk of block `k` goes on where the chunks before it end. */
  lemma NextChunk(s: seq<byte>, n: nat, k: nat)
    requires BLOCK_DATA_SIZE * k < n <= |s|
    ensures var end := if n < BLOCK_DATA_SIZE * (k + 1) then n else BLOCK_DATA_SIZE * (k + 1);
      s[..BLOCK_DATA_SIZE * k] + Chunk(s, n, k) == s[..end]
  {
    var from := BLOCK_DATA_SIZE * k;
    var end := if n < BLOCK_DATA_SIZE * (k + 1) then n else BLOCK_DATA_SIZE * (k + 1);
    assert s[..end][..from] == s[..from] && s[..end][from..] == s[from..end];
  }

  /** The chunks of the first blocks, one after the other, are the stream up to the end of the last. */
  lemma {:induction false} JoinChunks(s: seq<byte>, n: nat, parts: seq<seq<byte>>)
    requires n <= |s|
    requires forall k :: 0 <= k < |parts| ==> BLOCK_DATA_SIZE * k < n && parts[k] == Chunk(s, n, k)
    ensures Concat(parts) == s[..if n < BLOCK_DATA_SIZE * |parts| then n else BLOCK_DATA_SIZE * |parts|]
  {
    if parts != [] {
      var front := parts[..|parts| - 1];
      JoinChunks(s, n, front);
      NextChunk(s, n, |front|);
      assert parts[|front|] == Chunk(s, n, |front|);
    }
  }

  /** Records are numbered by where they start in the stream. */
  ghost predicate Numbered(recs: seq<LogRecord>) {
    forall i :: 0 <= i < |recs| ==> recs[i].lsn == Start(recs, i)
  }

  lemma NumberedPush(recs: seq<LogRecord>, r: LogRecord)
    requires Numbered(recs) && r.lsn == |Stream(recs)|
    ensures Numbered(recs + [r])
  {
    forall i | 0 <= i < |recs + [r]| ensures (recs + [r])[i].lsn == Start(recs + [r], i) {
      assert (recs + [r])[..i] == recs[..i];
      if i == |recs| {
        assert recs[..i] == recs;
      }
    }
  }

  /** Byte `j` of record `i` of a numbered list is byte `lsn + j` of the stream. */
  lemma LsnInStream(recs: seq<LogRecord>, i: nat, j: nat)
    requires Numbered(recs) && i < |recs| && j < Length(recs[i])
    ensures recs[i].lsn >= 0 && recs[i].lsn + j < |Stream(recs)|
    ensures Stream(recs)[recs[i].lsn + j] == Encode(recs[i])[j]
  {
    hide Stream;
    hide Encode;
    RecordInStream(recs, i);
    var a, s := Start(recs, i), Stream(recs);
    assert s[a..Start(recs, i + 1)][j] == s[a + j];
  }
}
