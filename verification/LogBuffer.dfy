/** The writer of the redo log: a buffer of blocks, flushed to the log file. */
module LogBuffer {
  import opened ReturnCodes
  import opened LogRecords

  const BUFFER_SIZE := 4 * 1024 * 1024
  const BUFFER_BLOCKS: nat := 8192

  /** A block: where it stands in the file, where its first record starts, and the data it holds so far. */
  datatype Block = Block(blockOffset: int, firstRecordOffset: int, data: seq<byte>)

  const ZERO_BLOCK := Block(0, 0, [])

  /** Block `q` of the log holds its part of the first `n` bytes of the stream. */
  ghost predicate BlockOk(b: Block, recs: seq<LogRecord>, n: nat, q: nat) {
    && BLOCK_DATA_SIZE * q <= n <= |Stream(recs)|
    && b.blockOffset == BLOCK_SIZE * (q + 1)
    && b.data == Chunk(Stream(recs), n, q)
    && (b.data != [] ==> b.firstRecordOffset == FirstField(recs, BLOCK_DATA_SIZE * q))
  }

  /** Appending the next bytes of the stream to the chunk of a block. */
  lemma ChunkGrows(s: seq<byte>, n: nat, q: nat, part: seq<byte>)
    requires BLOCK_DATA_SIZE * q <= n && n + |part| <= |s| && n + |part| <= BLOCK_DATA_SIZE * (q + 1)
    requires s[n..n + |part|] == part
    ensures Chunk(s, n, q) + part == Chunk(s, n + |part|, q)
  {
    assert Chunk(s, n, q) == s[BLOCK_DATA_SIZE * q..n];
    assert Chunk(s, n + |part|, q) == s[BLOCK_DATA_SIZE * q..n + |part|];
  }

  lemma NextPart(recs: seq<LogRecord>, r: LogRecord, offset: nat, len: nat)
    requires offset + len <= Length(r)
    ensures |Stream(recs + [r])| == |Stream(recs)| + Length(r)
    ensures Stream(recs + [r])[|Stream(recs)| + offset..|Stream(recs)| + offset + len] == Encode(r)[offset..offset + len]
  {
    StreamPush(recs, r);
  }

  /** A block that begins with the record `r` from byte `offset` on. */
  lemma FreshFirst(recs: seq<LogRecord>, r: LogRecord, offset: nat)
    requires offset < Length(r)
    ensures |Stream(recs)| + offset < |Stream(recs + [r])|
    ensures FirstField(recs + [r], |Stream(recs)| + offset) == FirstFor(Length(r), offset)
  {
    StreamPush(recs, r);
    var all := recs + [r];
    assert all[..|recs|] == recs && all[..|recs| + 1] == all;
    CoverUnique(all, |Stream(recs)| + offset, |recs|);
  }

  lemma DataLength(b: Block, recs: seq<LogRecord>, n: nat, q: nat)
    requires BlockOk(b, recs, n, q)
    ensures |b.data| == if n < BLOCK_DATA_SIZE * (q + 1) then n - BLOCK_DATA_SIZE * q else BLOCK_DATA_SIZE
  {
  }

  /** The part of record `r` from byte `offset` on, copied into the block where the stream of `recs`
      and the part before it end. */
  lemma CopyOk(b: Block, recs: seq<LogRecord>, r: LogRecord, all: seq<LogRecord>, offset: nat, n: nat, q: nat, len: nat, first: int)
    requires all == recs + [r] && n == |Stream(recs)| + offset
    requires offset + len <= Length(r) && len > 0
    requires BlockOk(b, all, n, q) && n + len <= BLOCK_DATA_SIZE * (q + 1)
    requires first == if b.data == [] then FirstFor(Length(r), offset) else b.firstRecordOffset
    ensures BlockOk(Block(b.blockOffset, first, b.data + Encode(r)[offset..offset + len]), all, n + len, q)
    ensures n + len <= |Stream(all)|
  {
    hide Stream;
    hide Chunk;
    hide FirstField;
    NextPart(recs, r, offset, len);
    ChunkGrows(Stream(all), n, q, Encode(r)[offset..offset + len]);
    if b.data == [] {
      DataLength(b, all, n, q);
      FreshFirst(recs, r, offset);
    }
  }

  /** The log file: its header block, and the blocks of the log after it, by number. */
  class CLogFile {
    var blocks: map<int, Block>

    constructor ()
      ensures blocks == map[0 := ZERO_BLOCK]
    {
      blocks := map[0 := ZERO_BLOCK];
    }

    /** Writes consecutive blocks from a byte offset on. */
    method Write(offset: nat, data: seq<Block>)
      requires offset % BLOCK_SIZE == 0
      modifies this
      ensures blocks == Overwritten(old(blocks), offset / BLOCK_SIZE, data)
    {
      blocks := Overwritten(blocks, offset / BLOCK_SIZE, data);
    }
  }

  /** The file with consecutive blocks replaced or added. */
  function Overwritten(blocks: map<int, Block>, at: nat, data: seq<Block>): (w: map<int, Block>)
    ensures forall k :: k in w <==> k in blocks || at <= k < at + |data|
    ensures forall k :: k in w ==> w[k] == if at <= k < at + |data| then data[k - at] else blocks[k]
  {
    if data == [] then blocks
    else Overwritten(blocks, at, data[..|data| - 1])[at + |data| - 1 := data[|data| - 1]]
  }

  ghost predicate StoredAt(blocks: map<int, Block>, recs: seq<LogRecord>, n: nat, k: nat) {
    k + 1 in blocks && BlockOk(blocks[k + 1], recs, n, k)
  }

  /** The first `q` blocks of the log are in the file. */
  ghost predicate Stored(blocks: map<int, Block>, recs: seq<LogRecord>, n: nat, q: nat) {
    forall k {:trigger StoredAt(blocks, recs, n, k)} :: 0 <= k < q ==> StoredAt(blocks, recs, n, k)
  }

  /** Blocks written behind the first `q` ones. */
  lemma WrittenStored(blocks: map<int, Block>, data: seq<Block>, recs: seq<LogRecord>, n: nat, q: nat)
    requires Stored(blocks, recs, n, q)
    requires forall k :: 0 <= k < |data| ==> BlockOk(data[k], recs, n, q + k)
    ensures Stored(Overwritten(blocks, q + 1, data), recs, n, q + |data|)
  {
    hide BlockOk;
    var w := Overwritten(blocks, q + 1, data);
    forall k {:trigger StoredAt(w, recs, n, k)} | 0 <= k < q + |data| ensures StoredAt(w, recs, n, k) {
      if k < q {
        assert StoredAt(blocks, recs, n, k);
      } else {
        assert w[k + 1] == data[k - q] && BlockOk(data[k - q], recs, n, q + (k - q));
      }
    }
  }

  /** How many blocks the first `n` bytes of the stream take. */
  function BlockCount(n: nat): nat {
    (n + BLOCK_DATA_SIZE - 1) / BLOCK_DATA_SIZE
  }

  class CLogBuffer {
    var currentBlockOffset: int
    var writeBlockOffset: int
    var writeOffset: int
    const buffer: array<Block>
    /** Which block of the buffer is written. */
    ghost var current: nat

    constructor ()
      ensures Empty(0) && fresh(buffer)
    {
      currentBlockOffset, writeBlockOffset, writeOffset, current := 0, 0, 0, 0;
      buffer := new Block[BUFFER_BLOCKS](_ => ZERO_BLOCK);
    }

    /** Nothing is buffered; `q` blocks of the log are full and written. */
    ghost predicate Empty(q: nat)
      reads this, buffer
    {
      && buffer.Length == BUFFER_BLOCKS && buffer[0] == ZERO_BLOCK
      && currentBlockOffset == BLOCK_SIZE * q && writeBlockOffset == current == 0 && writeOffset == 0
    }

    /** The buffer holds blocks `q` to `q + m` of the log, the last of which may have room left. */
    ghost predicate Filled(recs: seq<LogRecord>, n: nat, q: nat, m: nat)
      reads this, buffer
    {
      && buffer.Length == BUFFER_BLOCKS && m == current < BUFFER_BLOCKS
      && currentBlockOffset == BLOCK_SIZE * (q + m + 1) && writeBlockOffset == BLOCK_SIZE * m
      && BLOCK_DATA_SIZE * (q + m) <= n <= BLOCK_DATA_SIZE * (q + m + 1)
      && writeOffset == BLOCK_SIZE * m + BLOCK_HEADER_SIZE + n - BLOCK_DATA_SIZE * (q + m)
      && forall k {:trigger HoldsAt(recs, n, q, k)} :: 0 <= k <= m ==> HoldsAt(recs, n, q, k)
    }

    /** Block `q + k` of the log is in its place in the buffer. */
    ghost predicate HoldsAt(recs: seq<LogRecord>, n: nat, q: nat, k: nat)
      requires k < buffer.Length
      reads buffer
    {
      BlockOk(buffer[k], recs, n, q + k)
    }

    /** The buffer holds what the first `n` bytes of the stream put into block `q` and later ones. */
    ghost predicate Buffered(recs: seq<LogRecord>, n: nat, q: nat)
      reads this, buffer
    {
      Opened(recs, n, q) && (writeOffset != 0 ==> BLOCK_DATA_SIZE * (q + current) < n)
    }

    /** Likewise, but the last block may still be empty. */
    ghost predicate Opened(recs: seq<LogRecord>, n: nat, q: nat)
      reads this, buffer
    {
      && BLOCK_DATA_SIZE * q <= n <= |Stream(recs)|
      && if writeOffset == 0 then Empty(q) && n == BLOCK_DATA_SIZE * q
         else Filled(recs, n, q, current)
    }

    /** Starts block `q + m` in the buffer, where the first `n` bytes of the stream end. */
    method OpenBlock(ghost recs: seq<LogRecord>, ghost n: nat, ghost q: nat, ghost m: nat)
      requires m < BUFFER_BLOCKS == buffer.Length && n == BLOCK_DATA_SIZE * (q + m) <= |Stream(recs)|
      requires currentBlockOffset == BLOCK_SIZE * (q + m + 1) && writeBlockOffset == BLOCK_SIZE * m && m == current
      requires writeOffset == BLOCK_SIZE * m + BLOCK_HEADER_SIZE
      requires forall k {:trigger HoldsAt(recs, n, q, k)} :: 0 <= k < m ==> HoldsAt(recs, n, q, k)
      modifies buffer
      ensures Filled(recs, n, q, m) && buffer[m].data == []
    {
      buffer[writeBlockOffset / BLOCK_SIZE] := Block(currentBlockOffset, 0, []);
      forall k {:trigger HoldsAt(recs, n, q, k)} | 0 <= k <= m ensures HoldsAt(recs, n, q, k) {
        if k < m {
          assert old(HoldsAt(recs, n, q, k));
        }
      }
    }

    /** Copies the part of `r` from `offset` on into the current block. */
    method CopyPart(r: LogRecord, offset: nat, len: nat, first: int, ghost recs: seq<LogRecord>, ghost all: seq<LogRecord>,
                    ghost n: nat, ghost q: nat, ghost m: nat)
      requires all == recs + [r] && n == |Stream(recs)| + offset
      requires offset + len <= Length(r) && len > 0 && Filled(all, n, q, m)
      requires |buffer[m].data| + len <= BLOCK_DATA_SIZE
      requires buffer[m].data == [] ==> first == FirstFor(Length(r), offset)
      modifies buffer, `writeOffset
      ensures Filled(all, n + len, q, m)
      ensures |buffer[m].data| == old(|buffer[m].data|) + len
    {
      hide Stream;
      hide Chunk;
      hide FirstField;
      assert HoldsAt(all, n, q, m);
      var b := buffer[writeBlockOffset / BLOCK_SIZE];
      var start := if b.data == [] then first else b.firstRecordOffset;
      DataLength(b, all, n, q + m);
      CopyOk(b, recs, r, all, offset, n, q + m, len, start);
      buffer[writeBlockOffset / BLOCK_SIZE] := Block(b.blockOffset, start, b.data + Encode(r)[offset..offset + len]);
      writeOffset := writeOffset + len;
      forall k {:trigger HoldsAt(all, n + len, q, k)} | 0 <= k <= m ensures HoldsAt(all, n + len, q, k) {
        if k < m {
          assert old(HoldsAt(all, n, q, k));
          FullBlockStays(buffer[k], all, n, n + len, q + k);
        }
      }
    }

    /** Opens the first block of an empty buffer. */
    method OpenFirst(ghost recs: seq<LogRecord>, ghost n: nat, ghost q: nat)
      requires Empty(q) && n == BLOCK_DATA_SIZE * q <= |Stream(recs)|
      modifies this, buffer
      ensures Filled(recs, n, q, 0) && buffer[0].data == []
    {
      hide Stream;
      hide Chunk;
      currentBlockOffset := currentBlockOffset + BLOCK_SIZE;
      writeOffset := BLOCK_HEADER_SIZE;
      OpenBlock(recs, n, q, 0);
    }

    /** Opens the block after a full one. */
    method OpenNext(ghost recs: seq<LogRecord>, ghost n: nat, ghost q: nat, ghost m: nat)
      requires Filled(recs, n, q, m) && |buffer[m].data| == BLOCK_DATA_SIZE && m + 1 < BUFFER_BLOCKS
      modifies this, buffer
      ensures Filled(recs, n, q, m + 1) && buffer[m + 1].data == []
    {
      hide Stream;
      hide Chunk;
      assert HoldsAt(recs, n, q, m);
      DataLength(buffer[m], recs, n, q + m);
      label before:
      writeBlockOffset, current := writeBlockOffset + BLOCK_SIZE, current + 1;
      currentBlockOffset := currentBlockOffset + BLOCK_SIZE;
      writeOffset := writeOffset + BLOCK_HEADER_SIZE;
      forall k {:trigger HoldsAt(recs, n, q, k)} | 0 <= k < m + 1 ensures HoldsAt(recs, n, q, k) {
        assert old@before(HoldsAt(recs, n, q, k));
      }
      OpenBlock(recs, n, q, m + 1);
    }

    /** The block to write to, the first one being opened when nothing is buffered, and how full it is. */
    method CurrentBlock(ghost recs: seq<LogRecord>, ghost n: nat, ghost q: nat) returns (m: nat, used: nat)
      requires Opened(recs, n, q)
      modifies this, buffer
      ensures Filled(recs, n, q, m) && used == |buffer[m].data| == n - BLOCK_DATA_SIZE * (q + m)
      ensures old(writeOffset) != 0 ==> writeOffset == old(writeOffset)
    {
      hide Stream;
      hide Chunk;
      hide BlockOk;
      if writeOffset == 0 && writeBlockOffset == 0 {
        OpenFirst(recs, n, q);
      }
      m := writeBlockOffset / BLOCK_SIZE;
      assert HoldsAt(recs, n, q, m);
      DataLength(buffer[m], recs, n, q + m);
      used := |buffer[m].data|;
    }

    /** Appends the part of `r` from `offset` on, and says how much of `r` is in the buffer: all of it,
        unless the buffer became full before. */
    method AppendCLogRecord(r: LogRecord, offset: nat, ghost recs: seq<LogRecord>, ghost all: seq<LogRecord>, ghost q: nat)
      returns (re: Re, newOffset: nat)
      requires RecordOk(r) && offset < Length(r) && all == recs + [r]
      requires Opened(all, |Stream(recs)| + offset, q)
      modifies this, buffer
      ensures offset <= newOffset <= Length(r) && Buffered(all, |Stream(recs)| + newOffset, q)
      ensures re == Success <==> |Stream(recs)| + Length(r) <= BLOCK_DATA_SIZE * (q + BUFFER_BLOCKS)
      ensures re == Success ==> newOffset == Length(r)
      ensures re != Success ==> re == LogBufFull && |Stream(recs)| + newOffset == BLOCK_DATA_SIZE * (q + BUFFER_BLOCKS)
      decreases Length(r) - offset, if writeOffset == BLOCK_SIZE * (current + 1) || writeOffset == 0 then 1 else 0
    {
      hide Stream;
      hide Chunk;
      hide BlockOk;
      hide Encode;
      hide RecordOk;
      hide HoldsAt;
      ghost var n := |Stream(recs)| + offset;
      if writeOffset >= BUFFER_SIZE {
        return LogBufFull, offset;
      }
      var left := Length(r) - offset;
      NextPart(recs, r, offset, left);
      var m, used := CurrentBlock(all, n, q);
      if used == BLOCK_DATA_SIZE {
        OpenNext(all, n, q, m);
        re, newOffset := AppendCLogRecord(r, offset, recs, all, q);
      } else if left <= BLOCK_DATA_SIZE - used {
        CopyPart(r, offset, left, BLOCK_HEADER_SIZE + if offset == 0 then 0 else left, recs, all, n, q, m);
        re, newOffset := Success, offset + left;
      } else {
        var room := BLOCK_DATA_SIZE - used;
        CopyPart(r, offset, room, BLOCK_SIZE, recs, all, n, q, m);
        re, newOffset := AppendCLogRecord(r, offset + room, recs, all, q);
      }
    }

    /** Forgets the buffered blocks. */
    method Reset(ghost q: nat)
      requires buffer.Length == BUFFER_BLOCKS && currentBlockOffset == BLOCK_SIZE * q
      modifies `writeBlockOffset, `writeOffset, `current, buffer
      ensures Empty(q)
    {
      writeBlockOffset, writeOffset, current := 0, 0, 0;
      forall k | 0 <= k < buffer.Length {
        buffer[k] := ZERO_BLOCK;
      }
    }

    /** Moves the last block, which has room left, to the start of the buffer. */
    method KeepLast(ghost recs: seq<LogRecord>, ghost n: nat, ghost q: nat, ghost m: nat)
      requires Filled(recs, n, q, m) && m != 0 && n < BLOCK_DATA_SIZE * (q + m + 1)
      modifies `writeBlockOffset, `writeOffset, `current, buffer
      ensures Filled(recs, n, q + m, 0)
    {
      hide Stream;
      hide Chunk;
      assert HoldsAt(recs, n, q, m);
      DataLength(buffer[m], recs, n, q + m);
      var last := writeBlockOffset / BLOCK_SIZE;
      writeOffset := |buffer[last].data| + BLOCK_HEADER_SIZE;
      buffer[0] := buffer[last];
      writeBlockOffset, current := 0, 0;
      forall k | 1 <= k < buffer.Length {
        buffer[k] := ZERO_BLOCK;
      }
      assert HoldsAt(recs, n, q + m, 0);
    }

    /** Writes the buffered blocks to their places in the file. */
    method WriteOut(file: CLogFile, count: nat, ghost recs: seq<LogRecord>, ghost n: nat, ghost q: nat, ghost m: nat)
      requires Filled(recs, n, q, m) && count == m + 1 && Stored(file.blocks, recs, n, q)
      modifies file
      ensures Stored(file.blocks, recs, n, q + m + 1)
      ensures forall k :: k in file.blocks <==> k in old(file.blocks) || q + 1 <= k <= q + m + 1
      ensures 0 in file.blocks ==> file.blocks[0] == old(file.blocks)[0]
    {
      hide Stream;
      hide Chunk;
      hide BlockOk;
      hide StoredAt;
      hide Overwritten;
      assert buffer[0].blockOffset == BLOCK_SIZE * (q + 1) && buffer[0].blockOffset / BLOCK_SIZE == q + 1 by {
        assert HoldsAt(recs, n, q, 0);
        OffsetOf(buffer[0], recs, n, q);
      }
      forall k | 0 <= k <= m ensures BlockOk(buffer[..count][k], recs, n, q + k) {
        assert HoldsAt(recs, n, q, k);
      }
      WrittenStored(file.blocks, buffer[..count], recs, n, q);
      ghost var was, data := file.blocks, buffer[..count];
      file.Write(buffer[0].blockOffset, buffer[..count]);
      assert file.blocks == Overwritten(was, q + 1, data);
      assert q + |data| == q + m + 1;
    }

    /** Nothing is buffered: the empty first block goes where the header block is. */
    method WriteNothing(file: CLogFile, ghost recs: seq<LogRecord>, ghost n: nat, ghost q: nat)
      requires Empty(q) && Stored(file.blocks, recs, n, q)
      modifies file
      ensures Stored(file.blocks, recs, n, q) && file.blocks == old(file.blocks)[0 := ZERO_BLOCK]
    {
      hide Stream;
      hide Chunk;
      file.Write(buffer[0].blockOffset, buffer[..1]);
      forall k {:trigger StoredAt(file.blocks, recs, n, k)} | 0 <= k < q ensures StoredAt(file.blocks, recs, n, k) {
        assert StoredAt(old(file.blocks), recs, n, k);
      }
    }

    /** Writes the buffer to the file, and keeps only the last block, if it has room left. Afterwards
        the file holds every byte of the stream so far. An empty buffer overwrites the header block. */
    method FlushBuffer(file: CLogFile, ghost recs: seq<LogRecord>, ghost n: nat, ghost q: nat) returns (ghost q': nat)
      requires Buffered(recs, n, q) && Stored(file.blocks, recs, n, q)
      modifies this, buffer, file
      ensures q <= q' && Buffered(recs, n, q') && Stored(file.blocks, recs, n, BlockCount(n))
      ensures old(writeOffset) == 0 ==> file.blocks == old(file.blocks)[0 := ZERO_BLOCK] && q' == q
      ensures old(writeOffset) != 0 ==> forall k :: k in file.blocks <==> k in old(file.blocks) || q + 1 <= k <= BlockCount(n)
      ensures old(writeOffset) != 0 && 0 in old(file.blocks) ==> 0 in file.blocks && file.blocks[0] == old(file.blocks)[0]
      ensures BLOCK_DATA_SIZE * q' <= n < BLOCK_DATA_SIZE * (q' + 1)
    {
      hide Stream;
      hide Chunk;
      hide BlockOk;
      q' := q;
      if writeOffset == BUFFER_SIZE {
        WriteOut(file, BUFFER_BLOCKS, recs, n, q, BUFFER_BLOCKS - 1);
        q' := q + BUFFER_BLOCKS;
        Reset(q');
      } else {
        var m := writeBlockOffset / BLOCK_SIZE;
        if writeOffset == 0 {
          WriteNothing(file, recs, n, q);
        } else {
          assert HoldsAt(recs, n, q, m);
          DataLength(buffer[m], recs, n, q + m);
          WriteOut(file, m + 1, recs, n, q, m);
        }
        if |buffer[m].data| == BLOCK_DATA_SIZE {
          q' := q + m + 1;
          Reset(q');
        } else if writeBlockOffset != 0 {
          q' := q + m;
          KeepLast(recs, n, q, m);
        }
      }
    }
  }

  lemma OffsetOf(b: Block, recs: seq<LogRecord>, n: nat, q: nat)
    requires BlockOk(b, recs, n, q)
    ensures b.blockOffset == BLOCK_SIZE * (q + 1)
  {
  }

  /** A full block is not changed by what follows. */
  lemma FullBlockStays(b: Block, recs: seq<LogRecord>, n: nat, n': nat, q: nat)
    requires BlockOk(b, recs, n, q) && BLOCK_DATA_SIZE * (q + 1) <= n <= n' <= |Stream(recs)|
    ensures BlockOk(b, recs, n', q)
  {
  }

  lemma ChunkByte(s: seq<byte>, n: nat, p: nat)
    requires p < n <= |s|
    ensures var c := Chunk(s, n, p / BLOCK_DATA_SIZE); p % BLOCK_DATA_SIZE < |c| && c[p % BLOCK_DATA_SIZE] == s[p]
  {
    assert BLOCK_DATA_SIZE * (p / BLOCK_DATA_SIZE) + p % BLOCK_DATA_SIZE == p;
  }

  /** More records change nothing about the blocks of the earlier ones. */
  lemma BlockExtends(b: Block, recs: seq<LogRecord>, r: LogRecord, n: nat, q: nat)
    requires BlockOk(b, recs, n, q)
    ensures BlockOk(b, recs + [r], n, q)
  {
    StreamPush(recs, r);
    var s, t := Stream(recs), Stream(recs + [r]);
    assert t[..|s|] == s;
    assert Chunk(t, n, q) == Chunk(s, n, q);
    if b.data != [] {
      DataLength(b, recs, n, q);
      FirstExtends(recs, r, BLOCK_DATA_SIZE * q);
    }
  }

  lemma StoredExtends(blocks: map<int, Block>, recs: seq<LogRecord>, r: LogRecord, n: nat, q: nat)
    requires Stored(blocks, recs, n, q)
    ensures Stored(blocks, recs + [r], n, q)
  {
    hide BlockOk;
    forall k {:trigger StoredAt(blocks, recs + [r], n, k)} | 0 <= k < q ensures StoredAt(blocks, recs + [r], n, k) {
      assert StoredAt(blocks, recs, n, k);
      BlockExtends(blocks[k + 1], recs, r, n, k);
    }
  }

  /** Blocks that were full stay as they are while the stream grows. */
  lemma StoredGrows(blocks: map<int, Block>, recs: seq<LogRecord>, n: nat, n': nat, q: nat)
    requires Stored(blocks, recs, n, q) && BLOCK_DATA_SIZE * q <= n <= n' <= |Stream(recs)|
    ensures Stored(blocks, recs, n', q)
  {
    hide BlockOk;
    forall k {:trigger StoredAt(blocks, recs, n', k)} | 0 <= k < q ensures StoredAt(blocks, recs, n', k) {
      assert StoredAt(blocks, recs, n, k);
      FullBlockStays(blocks[k + 1], recs, n, n', k);
    }
  }

  lemma BufferedExtends(buf: CLogBuffer, recs: seq<LogRecord>, r: LogRecord, n: nat, q: nat)
    requires buf.Buffered(recs, n, q)
    ensures buf.Buffered(recs + [r], n, q)
  {
    hide BlockOk;
    StreamPush(recs, r);
    if buf.writeOffset != 0 {
      forall k {:trigger buf.HoldsAt(recs + [r], n, q, k)} | 0 <= k <= buf.current ensures buf.HoldsAt(recs + [r], n, q, k) {
        assert buf.HoldsAt(recs, n, q, k);
        BlockExtends(buf.buffer[k], recs, r, n, q + k);
      }
    }
  }

  /** The log: records get numbers, are appended, and reach the file when the buffer is full or a
      transaction commits. */
  /** How far a log is: the bytes of its records, the blocks that have left the buffer, and the bytes that are in
      the file. */
  datatype Progress = Progress(length: nat, flushed: nat, synced: nat)

  /** A record is answered as appended when all of it fits the buffer. */
  function AnswerTo(p: Progress, length: nat): Re {
    if p.length + length <= BLOCK_DATA_SIZE * (p.flushed + BUFFER_BLOCKS) then Success else LogBufFull
  }

  /** How many blocks `n` bytes of the log fill. */
  function FullBlocks(n: nat): nat {
    n / BLOCK_DATA_SIZE
  }

  /** How far the log is after a record: a commit flushes what the buffer took, and so does a full buffer. */
  function AfterAppend(p: Progress, length: nat, commit: bool): Progress {
    var taken := if AnswerTo(p, length) == Success then p.length + length else BLOCK_DATA_SIZE * (p.flushed + BUFFER_BLOCKS);
    if AnswerTo(p, length) == Success && !commit then p.(length := taken)
    else Progress(p.length + length, FullBlocks(taken), taken)
  }

  /** A log takes 4128768 bytes, the data of 4 MB of blocks, before it answers for the first time that the buffer
      is full; and again as much from the block on where a flush left it. */
  lemma RoomInBuffer(p: Progress, length: nat)
    ensures AnswerTo(p, length) == Success <==> p.length + length - 504 * p.flushed <= 4128768
    ensures 4128768 / 504 * 512 == BUFFER_SIZE == 0x40_0000
  {
  }

  /** What is taken of a record decides the answer, and what is flushed. */
  lemma AppendMeans(p: Progress, length: nat, commit: bool, re: Re, done: nat)
    requires re == Success <==> p.length + length <= BLOCK_DATA_SIZE * (p.flushed + BUFFER_BLOCKS)
    requires if re == Success then done == length
             else re == LogBufFull && p.length + done == BLOCK_DATA_SIZE * (p.flushed + BUFFER_BLOCKS)
    ensures re == AnswerTo(p, length)
    ensures AfterAppend(p, length, commit) ==
      if re == LogBufFull || commit then Progress(p.length + length, FullBlocks(p.length + done), p.length + done)
      else p.(length := p.length + length)
  {
  }

  class CLogManager {
    const clogBuffer: CLogBuffer
    const clogFile: CLogFile
    var globalLsn: int
    /** The records appended so far, how many blocks are out of the buffer, and how many are in the file,
        with how many bytes of the log. */
    ghost var records: seq<LogRecord>
    ghost var flushed: nat
    ghost var written: nat
    ghost var synced: nat

    ghost predicate Valid()
      reads `records, `flushed, `written, `synced, clogBuffer, clogBuffer.buffer, clogFile
    {
      && clogBuffer.Buffered(records, |Stream(records)|, flushed)
      && Stored(clogFile.blocks, records, |Stream(records)|, flushed)
      && flushed <= written <= BlockCount(|Stream(records)|)
      && (forall k :: k in clogFile.blocks <==> 0 <= k <= written)
      && synced <= |Stream(records)| && written == BlockCount(synced)
      && Stored(clogFile.blocks, records, synced, written)
      && SyncedAt(records)
    }

    ghost function ProgressNow(): Progress
      reads `records, `flushed, `synced
    {
      Progress(|Stream(records)|, flushed, synced)
    }

    /** The file ends where a record ends, or with a full block. */
    ghost predicate SyncedAt(recs: seq<LogRecord>)
      reads `written, `synced
    {
      Boundary(recs, synced) || synced == BLOCK_DATA_SIZE * written
    }

    /** Every byte of the log so far is in the file. */
    ghost predicate Durable()
      reads this, clogFile
    {
      Stored(clogFile.blocks, records, |Stream(records)|, BlockCount(|Stream(records)|))
    }

    constructor ()
      ensures InStep() && records == [] && globalLsn == 0 && fresh(clogBuffer) && fresh(clogBuffer.buffer) && fresh(clogFile)
    {
      clogBuffer := new CLogBuffer();
      clogFile := new CLogFile();
      globalLsn, records, flushed, written, synced := 0, [], 0, 0, 0;
    }

    /** The manager that recovery leaves: the buffer and the next number as recovery set them up for a file
        that holds all of a log. */
    constructor Recovered(buffer: CLogBuffer, file: CLogFile, lsn: int, ghost recs: seq<LogRecord>, ghost q: nat)
      requires buffer.Buffered(recs, |Stream(recs)|, q)
      requires Stored(file.blocks, recs, |Stream(recs)|, BlockCount(|Stream(recs)|))
      requires forall k :: k in file.blocks <==> 0 <= k <= BlockCount(|Stream(recs)|)
      ensures Valid() && Durable() && records == recs && globalLsn == lsn && clogBuffer == buffer && clogFile == file
    {
      clogBuffer, clogFile, globalLsn := buffer, file, lsn;
      records, flushed, written, synced := recs, q, BlockCount(|Stream(recs)|), |Stream(recs)|;
      new;
      StartsEnd(recs);
      assert Boundary(recs, synced);
    }

    method GetNextLsn(len: nat) returns (lsn: int)
      modifies `globalLsn
      ensures lsn == old(globalLsn) && globalLsn == old(globalLsn) + len
    {
      lsn := globalLsn;
      globalLsn := globalLsn + len;
    }

    method MakeRecord(kind: Kind, txn: int, payload: seq<byte>) returns (r: LogRecord)
      modifies `globalLsn
      ensures r == LogRecord(old(globalLsn), txn, kind, payload) && globalLsn == old(globalLsn) + Length(r)
    {
      var lsn := GetNextLsn(RECORD_HEADER_SIZE + |payload|);
      r := LogRecord(lsn, txn, kind, payload);
    }

    /** Flushes the buffer; a partly appended record `all` ends with may be in it. */
    method Sync(ghost all: seq<LogRecord>, ghost n: nat)
      requires clogBuffer.Buffered(all, n, flushed) && Stored(clogFile.blocks, all, n, flushed)
      requires clogBuffer.writeOffset != 0
      requires flushed <= written <= BlockCount(n) && forall k :: k in clogFile.blocks <==> 0 <= k <= written
      modifies clogBuffer, clogBuffer.buffer, clogFile, `flushed, `written, `synced
      ensures clogBuffer.Buffered(all, n, flushed) && Stored(clogFile.blocks, all, n, BlockCount(n))
      ensures synced == n
      ensures old(flushed) <= flushed <= written == BlockCount(n)
      ensures forall k :: k in clogFile.blocks <==> 0 <= k <= written
      ensures BLOCK_DATA_SIZE * flushed <= n < BLOCK_DATA_SIZE * (flushed + 1)
      ensures flushed == FullBlocks(n)
    {
      flushed := clogBuffer.FlushBuffer(clogFile, all, n, flushed);
      written, synced := BlockCount(n), n;
    }

    /** The rest of a record that filled the buffer, after the flush that made room. */
    method AppendRest(r: LogRecord, offset: nat, ghost all: seq<LogRecord>, ghost n: nat)
      requires RecordOk(r) && offset < Length(r) && all == records + [r] && n == |Stream(records)| + offset
      requires clogBuffer.Buffered(all, n, flushed) && Stored(clogFile.blocks, all, n, flushed)
      requires n == BLOCK_DATA_SIZE * flushed && flushed == written && synced == n
      requires forall k :: k in clogFile.blocks <==> 0 <= k <= written
      modifies clogBuffer, clogBuffer.buffer, `records
      ensures Valid() && records == all && !Durable()
    {
      hide BlockOk;
      NextPart(records, r, offset, Length(r) - offset);
      var again, done := clogBuffer.AppendCLogRecord(r, offset, records, all, flushed);
      StoredGrows(clogFile.blocks, all, n, |Stream(all)|, flushed);
      records := all;
      assert !StoredAt(clogFile.blocks, records, |Stream(records)|, written);
    }

    /** Flushes what the buffer took of a record, and appends the rest. */
    method SyncAndFinish(r: LogRecord, offset: nat, ghost all: seq<LogRecord>, ghost n: nat)
      requires RecordOk(r) && offset <= Length(r) && all == records + [r] && n == |Stream(records)| + offset
      requires clogBuffer.Buffered(all, n, flushed) && Stored(clogFile.blocks, all, n, flushed)
      requires clogBuffer.writeOffset != 0
      requires flushed <= written <= BlockCount(n) && forall k :: k in clogFile.blocks <==> 0 <= k <= written
      requires if offset == Length(r) then n == |Stream(all)| && Boundary(all, n) else n % BLOCK_DATA_SIZE == 0
      modifies clogBuffer, clogBuffer.buffer, clogFile, `records, `flushed, `written, `synced
      ensures Valid() && records == all && (Durable() <==> offset == Length(r))
      ensures flushed == FullBlocks(n) && synced == n
    {
      hide BlockOk;
      hide Stream;
      hide Boundary;
      hide CLogBuffer.Buffered;
      Sync(all, n);
      if offset != Length(r) {
        AppendRest(r, offset, all, n);
      }
      records := all;
    }

    /** As much of a record as the buffer takes. */
    method AppendFirst(r: LogRecord, ghost all: seq<LogRecord>) returns (re: Re, done: nat)
      requires Valid() && RecordOk(r) && all == records + [r]
      modifies clogBuffer, clogBuffer.buffer
      ensures clogBuffer.Buffered(all, |Stream(records)| + done, flushed) && clogBuffer.writeOffset != 0
      ensures Stored(clogFile.blocks, all, |Stream(records)| + done, flushed)
      ensures re == Success <==> |Stream(records)| + Length(r) <= BLOCK_DATA_SIZE * (flushed + BUFFER_BLOCKS)
      ensures if re == Success then done == Length(r) && |Stream(records)| + done == |Stream(all)|
              else re == LogBufFull && done < Length(r) && |Stream(records)| + done == BLOCK_DATA_SIZE * (flushed + BUFFER_BLOCKS)
      ensures written <= BlockCount(|Stream(records)| + done)
    {
      hide BlockOk;
      hide Stream;
      hide CLogBuffer.Filled;
      BufferedExtends(clogBuffer, records, r, |Stream(records)|, flushed);
      StoredExtends(clogFile.blocks, records, r, |Stream(records)|, flushed);
      NextPart(records, r, 0, Length(r));
      re, done := clogBuffer.AppendCLogRecord(r, 0, records, all, flushed);
      StoredGrows(clogFile.blocks, all, |Stream(records)|, |Stream(records)| + done, flushed);
    }

    /** What is in the file is still that part of the log, and a flush now would end with a record. */
    lemma SyncedExtends(r: LogRecord)
      requires Valid()
      ensures var all := records + [r];
        && |Stream(records)| <= |Stream(all)| && Boundary(all, |Stream(all)|)
        && Stored(clogFile.blocks, all, synced, written) && SyncedAt(all)
    {
      StoredExtends(clogFile.blocks, records, r, synced, written);
      if Boundary(records, synced) {
        BoundaryExtends(records, r, synced);
      }
      StreamPush(records, r);
      StartsEnd(records + [r]);
    }

    /** Appends a record. The log always takes it; a full buffer is reported all the same, and then a
        commit is not in the file yet. */
    method AppendRecord(r: LogRecord) returns (re: Re)
      requires Valid() && RecordOk(r)
      modifies clogBuffer, clogBuffer.buffer, clogFile, `records, `flushed, `written, `synced
      ensures Valid() && records == old(records) + [r]
      ensures re == AnswerTo(old(ProgressNow()), Length(r))
      ensures ProgressNow() == AfterAppend(old(ProgressNow()), Length(r), r.kind == MiniTxnCommit)
      ensures re == Success && r.kind != MiniTxnCommit ==> clogFile.blocks == old(clogFile.blocks)
      ensures r.kind == MiniTxnCommit ==> (Durable() <==> re == Success)
    {
      hide BlockOk;
      StreamPush(records, r);
      hide AnswerTo;
      hide AfterAppend;
      hide RecordOk;
      hide StoredAt;
      hide Stored;
      hide BlockCount;
      hide FullBlocks;
      hide Stream;
      hide Boundary;
      hide CLogBuffer.Buffered;
      ghost var all, n := records + [r], |Stream(records)|;
      SyncedExtends(r);
      var startOffset;
      re, startOffset := AppendFirst(r, all);
      AppendMeans(Progress(n, flushed, synced), Length(r), r.kind == MiniTxnCommit, re, startOffset);
      if re == LogBufFull || r.kind == MiniTxnCommit {
        SyncAndFinish(r, startOffset, all, n + startOffset);
      }
      records := all;
    }

    /** Every record is numbered by where it starts, and the next number is where the next one will. */
    ghost predicate InStep()
      reads this, clogBuffer, clogBuffer.buffer, clogFile
    {
      Valid() && Numbered(records) && globalLsn == |Stream(records)|
    }

    /** Makes a record and appends it, as every change and every transaction does. */
    method MakeAndAppend(kind: Kind, txn: int, payload: seq<byte>) returns (re: Re, r: LogRecord)
      requires InStep() && RecordOk(LogRecord(|Stream(records)|, txn, kind, payload))
      modifies this, clogBuffer, clogBuffer.buffer, clogFile
      ensures InStep() && records == old(records) + [r]
      ensures r == LogRecord(|Stream(old(records))|, txn, kind, payload)
      ensures re == AnswerTo(old(ProgressNow()), Length(r))
      ensures ProgressNow() == AfterAppend(old(ProgressNow()), Length(r), kind == MiniTxnCommit)
      ensures re == Success && kind != MiniTxnCommit ==> clogFile.blocks == old(clogFile.blocks)
      ensures kind == MiniTxnCommit ==> (Durable() <==> re == Success)
    {
      hide Valid;
      hide Stream;
      NumberedPush(records, LogRecord(globalLsn, txn, kind, payload));
      StreamPush(records, LogRecord(globalLsn, txn, kind, payload));
      r := MakeRecord(kind, txn, payload);
      re := AppendRecord(r);
    }

    /** Block `k` of the log, where it is: in the buffer, else in the file. */
    ghost function BlockAt(k: nat): Block
      reads this, clogBuffer, clogBuffer.buffer, clogFile
    {
      if k < flushed then if k + 1 in clogFile.blocks then clogFile.blocks[k + 1] else ZERO_BLOCK
      else if k - flushed < clogBuffer.buffer.Length then clogBuffer.buffer[k - flushed] else ZERO_BLOCK
    }

    lemma BlockAtOk(k: nat)
      requires Valid() && BLOCK_DATA_SIZE * k < |Stream(records)|
      ensures BlockOk(BlockAt(k), records, |Stream(records)|, k)
    {
      if k < flushed {
        assert StoredAt(clogFile.blocks, records, |Stream(records)|, k);
      } else {
        assert clogBuffer.HoldsAt(records, |Stream(records)|, flushed, k - flushed);
      }
    }

    /** Nothing is lost, repeated or moved: the data of the blocks in the file and then in the buffer are
        the bytes of the records in order. */
    lemma Conservation()
      requires Valid()
      ensures Concat(seq(BlockCount(|Stream(records)|), k requires k >= 0 reads this, clogBuffer, clogBuffer.buffer, clogFile =>
        BlockAt(k).data)) == Stream(records)
    {
      var n := |Stream(records)|;
      var parts := seq(BlockCount(n), k requires k >= 0 reads this, clogBuffer, clogBuffer.buffer, clogFile => BlockAt(k).data);
      forall k | 0 <= k < |parts| ensures BLOCK_DATA_SIZE * k < n && parts[k] == Chunk(Stream(records), n, k) {
        BlockAtOk(k);
      }
      JoinChunks(Stream(records), n, parts);
      assert Stream(records)[..n] == Stream(records);
    }

    /** Byte `j` of a record is at byte `lsn + j` of the data, so its place in the file follows from its number. */
    lemma LsnLocates(i: nat, j: nat)
      requires InStep() && i < |records| && j < Length(records[i])
      ensures var p := records[i].lsn + j; var b := BlockAt(p / BLOCK_DATA_SIZE);
        && p >= 0 && p % BLOCK_DATA_SIZE < |b.data| && b.data[p % BLOCK_DATA_SIZE] == Encode(records[i])[j]
        && b.blockOffset == BLOCK_SIZE * (1 + p / BLOCK_DATA_SIZE)
    {
      hide Stream;
      hide Encode;
      hide Valid;
      LsnInStream(records, i, j);
      var p := records[i].lsn + j;
      BlockAtOk(p / BLOCK_DATA_SIZE);
      ChunkByte(Stream(records), |Stream(records)|, p);
    }
  }

  /** What is to be logged: the contents of a record without its number. */
  datatype Event = Event(kind: Kind, txn: int, payload: seq<byte>)

  /** The records of some events, numbered from where the log stands. */
  ghost function RecordsOf(recs: seq<LogRecord>, events: seq<Event>): seq<LogRecord> {
    if events == [] then recs else
      var before, e := RecordsOf(recs, events[..|events| - 1]), events[|events| - 1];
      before + [LogRecord(|Stream(before)|, e.txn, e.kind, e.payload)]
  }

  ghost predicate EventsOk(recs: seq<LogRecord>, events: seq<Event>) {
    forall i :: 0 <= i < |events| ==>
      RecordOk(LogRecord(|Stream(RecordsOf(recs, events[..i]))|, events[i].txn, events[i].kind, events[i].payload))
  }

  function EventLength(e: Event): nat { RECORD_HEADER_SIZE + |e.payload| }

  /** How far the log is after some events. */
  ghost function ProgressAfter(p: Progress, events: seq<Event>): Progress {
    if events == [] then p else
      var e := events[|events| - 1];
      AfterAppend(ProgressAfter(p, events[..|events| - 1]), EventLength(e), e.kind == MiniTxnCommit)
  }

  /** Any run of the log, through full buffers and commits, from a log numbered from 0: it ends with the
      records of the events, numbered by where they start, as much of it in the file as the commits and the
      full buffers put there, and every record is answered by the room there was for it. */
  method Run(m: CLogManager, events: seq<Event>) returns (answers: seq<Re>)
    requires m.InStep() && EventsOk(m.records, events)
    modifies m, m.clogBuffer, m.clogBuffer.buffer, m.clogFile
    ensures m.InStep() && m.records == RecordsOf(old(m.records), events)
    ensures m.ProgressNow() == ProgressAfter(old(m.ProgressNow()), events)
    ensures |answers| == |events| && forall i :: 0 <= i < |events| ==>
      answers[i] == AnswerTo(ProgressAfter(old(m.ProgressNow()), events[..i]), EventLength(events[i]))
  {
    hide CLogManager.Valid;
    hide CLogManager.ProgressNow;
    hide AnswerTo;
    hide AfterAppend;
    hide Stream;
    hide RecordOk;
    answers := [];
    for i := 0 to |events|
      invariant m.InStep() && m.records == RecordsOf(old(m.records), events[..i])
      invariant m.ProgressNow() == ProgressAfter(old(m.ProgressNow()), events[..i])
      invariant |answers| == i && forall j :: 0 <= j < i ==>
        answers[j] == AnswerTo(ProgressAfter(old(m.ProgressNow()), events[..j]), EventLength(events[j]))
    {
      assert events[..i + 1][..i] == events[..i];
      var re, r := m.MakeAndAppend(events[i].kind, events[i].txn, events[i].payload);
      answers := answers + [re];
    }
    assert events[..|events|] == events;
  }

  /** What the file has is part of the log, and what is not out of the buffer fits it. */
  predicate ProgressOk(p: Progress) {
    p.synced <= p.length && BLOCK_DATA_SIZE * p.flushed <= p.length <= BLOCK_DATA_SIZE * (p.flushed + BUFFER_BLOCKS)
  }

  lemma AppendProgress(p: Progress, length: nat, commit: bool)
    requires ProgressOk(p) && length <= MAX_RECORD_SIZE
    ensures ProgressOk(AfterAppend(p, length, commit)) && p.synced <= AfterAppend(p, length, commit).synced
  {
    var taken := if AnswerTo(p, length) == Success then p.length + length else BLOCK_DATA_SIZE * (p.flushed + BUFFER_BLOCKS);
    assert BLOCK_DATA_SIZE * (taken / BLOCK_DATA_SIZE) <= taken < BLOCK_DATA_SIZE * (taken / BLOCK_DATA_SIZE + 1);
  }

  lemma {:induction false} RunProgress(p: Progress, events: seq<Event>)
    requires ProgressOk(p) && forall i :: 0 <= i < |events| ==> EventLength(events[i]) <= MAX_RECORD_SIZE
    ensures ProgressOk(ProgressAfter(p, events))
  {
    if events != [] {
      hide AfterAppend;
      hide ProgressOk;
      RunProgress(p, events[..|events| - 1]);
      var e := events[|events| - 1];
      AppendProgress(ProgressAfter(p, events[..|events| - 1]), EventLength(e), e.kind == MiniTxnCommit);
    }
  }

  /** Whatever follows a commit that was answered as appended, all of the log up to it stays in the file. */
  lemma {:induction false} CommitsStay(p: Progress, events: seq<Event>, i: nat)
    requires ProgressOk(p) && forall j :: 0 <= j < |events| ==> EventLength(events[j]) <= MAX_RECORD_SIZE
    requires i < |events| && events[i].kind == MiniTxnCommit
    requires AnswerTo(ProgressAfter(p, events[..i]), EventLength(events[i])) == Success
    ensures ProgressAfter(p, events[..i + 1]).length <= ProgressAfter(p, events).synced
  {
    var front, e := events[..|events| - 1], events[|events| - 1];
    if i + 1 == |events| {
      assert events[..i + 1] == events;
    } else {
      assert front[..i] == events[..i] && front[..i + 1] == events[..i + 1];
      CommitsStay(p, front, i);
      RunProgress(p, front);
      AppendProgress(ProgressAfter(p, front), EventLength(e), e.kind == MiniTxnCommit);
      hide AfterAppend;
    }
  }
}
