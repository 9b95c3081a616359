/** A table: its records, and the indexes that must agree with them. */
module Table {
  import opened ReturnCodes
  import opened Keys
  import opened PageHeader
  import opened RecordHeap
  import BplusTreeRuns
  import RecordHeapRuns
  import opened RecordScan
  import opened TreePages
  import opened BplusTree

  /** An index: the field it is on, and its tree. */
  datatype Index = Index(field: nat, tree: BplusTreeHandler)

  /** An index on a field holds exactly the entries of the records. */
  ghost predicate Matches(records: Records, entries: set<(int, RecordId)>, valueOf: (nat, Data) -> int, field: nat) {
    && (forall rid :: rid in records ==> (valueOf(field, records[rid]), rid) in entries)
    && (forall e :: e in entries ==> e.1 in records && e.0 == valueOf(field, records[e.1]))
  }

  lemma MatchesAdd(records: Records, entries: set<(int, RecordId)>, valueOf: (nat, Data) -> int, field: nat, rid: RecordId, data: Data)
    requires Matches(records, entries, valueOf, field) && rid !in records
    ensures (valueOf(field, data), rid) !in entries
    ensures Matches(records[rid := data], entries + {(valueOf(field, data), rid)}, valueOf, field)
  {
  }

  lemma MatchesDrop(records: Records, entries: set<(int, RecordId)>, valueOf: (nat, Data) -> int, field: nat, rid: RecordId)
    requires Matches(records, entries, valueOf, field) && rid in records
    ensures (valueOf(field, records[rid]), rid) in entries
    ensures Matches(records - {rid}, entries - {(valueOf(field, records[rid]), rid)}, valueOf, field)
  {
  }

  /** Such an index is empty exactly when there is no record. */
  lemma EmptyMatches(records: Records, entries: set<(int, RecordId)>, valueOf: (nat, Data) -> int, field: nat)
    requires Matches(records, entries, valueOf, field)
    ensures entries == {} <==> !exists r :: r in records
  {
    if e :| e in entries {
      assert e.1 in records;
    }
  }

  class Table {
    const handler: RecordFileHandler
    /** The rank of a record's value of a field. */
    const valueOf: (nat, Data) -> int
    var indexes: seq<Index>

    constructor (handler: RecordFileHandler, valueOf: (nat, Data) -> int)
      requires handler.Valid() && handler.capacity < ID_LIMIT
      ensures this.handler == handler && this.valueOf == valueOf && indexes == [] && Valid()
    {
      this.handler, this.valueOf, indexes := handler, valueOf, [];
    }

    /** The entry that index `k` must hold for a record. */
    ghost function EntryOf(k: nat, rid: RecordId, data: Data): (int, RecordId)
      requires k < |indexes|
      reads this
    {
      (valueOf(indexes[k].field, data), rid)
    }

    ghost function Trees(): set<object>
      reads this
    {
      set k | 0 <= k < |indexes| :: indexes[k].tree
    }

    ghost predicate TreeAt(k: nat)
      reads this, Trees()
    {
      k < |indexes| ==> indexes[k].tree.Valid()
    }

    ghost function ContentsAt(k: nat): set<(int, RecordId)>
      requires k < |indexes|
      reads this, Trees()
    {
      indexes[k].tree.Contents()
    }

    ghost predicate IndexesOk()
      reads this, Trees()
    {
      && handler.capacity < ID_LIMIT
      && (forall j, k :: 0 <= j < k < |indexes| ==> indexes[j].tree != indexes[k].tree)
      && (forall k {:trigger TreeAt(k)} :: TreeAt(k))
    }

    /** Index `k` holds exactly the entries of the records. */
    ghost predicate Agree(k: nat)
      reads this, handler.file, Trees()
    {
      k < |indexes| ==> Matches(handler.Stored(), ContentsAt(k), valueOf, indexes[k].field)
    }

    ghost predicate Agrees()
      reads this, handler.file, Trees()
    {
      IndexesOk() && forall k {:trigger Agree(k)} :: Agree(k)
    }

    ghost predicate Valid()
      reads this, handler, handler.file, Trees()
    {
      handler.Valid() && Agrees()
    }

    /** Adds a record's entry to one index after the other, until one refuses it. An index of `starved` has
        no frame for the first page that the insertion reads or creates. */
    method InsertEntryOfIndexes(data: Data, rid: RecordId, starved: set<nat>) returns (re: Re, ghost done: nat)
      requires IndexesOk() && ValidRid(rid) && rid != MAX_RID
      modifies Trees()
      ensures IndexesOk() && done <= |indexes| && (re == Success <==> done == |indexes|)
      ensures forall k :: 0 <= k < done ==> EntryOf(k, rid, data) !in old(ContentsAt(k)) && k !in starved
      ensures forall k :: 0 <= k < done ==> ContentsAt(k) == old(ContentsAt(k)) + {EntryOf(k, rid, data)}
      ensures forall k :: done <= k < |indexes| ==> ContentsAt(k) == old(ContentsAt(k))
      ensures re == RecordDuplicateKey ==> EntryOf(done, rid, data) in ContentsAt(done)
      ensures re != Success && re != RecordDuplicateKey ==> re == NoMem && done in starved
    {
      hide BplusTreeHandler.Valid;
      hide BplusTreeHandler.Contents;
      re := Success;
      var k: nat := 0;
      while k < |indexes|
        invariant IndexesOk() && k <= |indexes| && re == Success
        invariant forall j :: 0 <= j < k ==> EntryOf(j, rid, data) !in old(ContentsAt(j)) && j !in starved
        invariant forall j :: 0 <= j < k ==> ContentsAt(j) == old(ContentsAt(j)) + {EntryOf(j, rid, data)}
        invariant forall j :: k <= j < |indexes| ==> ContentsAt(j) == old(ContentsAt(j))
      {
        done := k;
        if k in starved {
          return NoMem, done;
        }
        assert TreeAt(k);
        label before:
        re := indexes[k].tree.InsertEntry(valueOf(indexes[k].field, data), rid);
        forall j ensures TreeAt(j) {
          assert old@before(TreeAt(j));
        }
        if re != Success {
          return;
        }
        k := k + 1;
      }
      done := k;
    }

    /** Removes a record's entry from one index after the other, until one does not hold it. */
    method DeleteEntryOfIndexes(data: Data, rid: RecordId, notExistsError: bool) returns (re: Re, ghost done: nat)
      requires IndexesOk() && ValidRid(rid)
      modifies Trees()
      ensures IndexesOk() && done <= |indexes| && (re == Success <==> done == |indexes|)
      ensures forall k :: 0 <= k < done ==> EntryOf(k, rid, data) in old(ContentsAt(k))
      ensures forall k :: 0 <= k < done ==> ContentsAt(k) == old(ContentsAt(k)) - {EntryOf(k, rid, data)}
      ensures forall k :: done <= k < |indexes| ==> ContentsAt(k) == old(ContentsAt(k))
      ensures re != Success ==> EntryOf(done, rid, data) !in ContentsAt(done)
      ensures re != Success ==> re == if ContentsAt(done) == {} then Empty else RecordRecordNotExist
    {
      hide BplusTreeHandler.Valid;
      hide BplusTreeHandler.Contents;
      re := Success;
      var k: nat := 0;
      while k < |indexes|
        invariant IndexesOk() && k <= |indexes| && re == Success
        invariant forall j :: 0 <= j < k ==> EntryOf(j, rid, data) in old(ContentsAt(j))
        invariant forall j :: 0 <= j < k ==> ContentsAt(j) == old(ContentsAt(j)) - {EntryOf(j, rid, data)}
        invariant forall j :: k <= j < |indexes| ==> ContentsAt(j) == old(ContentsAt(j))
      {
        done := k;
        assert TreeAt(k);
        BplusTreeRuns.EmptyIndex(indexes[k].tree);
        label before:
        re := indexes[k].tree.DeleteEntry(valueOf(indexes[k].field, data), rid);
        forall j ensures TreeAt(j) {
          assert old@before(TreeAt(j));
        }
        if re != Success && (re != RecordInvalidKey || !notExistsError) {
          return;
        }
        k := k + 1;
      }
      done := k;
    }

    /** Adds a record's entry to every index, or to none of them. */
    method IndexRecord(data: Data, rid: RecordId, starved: set<nat>) returns (re: Re)
      requires IndexesOk() && ValidRid(rid) && rid != MAX_RID
      requires forall k :: 0 <= k < |indexes| ==> EntryOf(k, rid, data) !in ContentsAt(k)
      modifies Trees()
      ensures IndexesOk() && (re == Success || re == NoMem)
      ensures re == NoMem <==> exists k :: 0 <= k < |indexes| && k in starved
      ensures re == Success ==> forall k :: 0 <= k < |indexes| ==> ContentsAt(k) == old(ContentsAt(k)) + {EntryOf(k, rid, data)}
      ensures re != Success ==> forall k :: 0 <= k < |indexes| ==> ContentsAt(k) == old(ContentsAt(k))
    {
      hide IndexesOk;
      ghost var done, undone;
      re, done := InsertEntryOfIndexes(data, rid, starved);
      if re != Success {
        var again;
        again, undone := DeleteEntryOfIndexes(data, rid, true);
      }
    }

    /** Stores a record and indexes it. When index `k` refuses, the entries of the indexes before it and
        the record itself are taken back. */
    method InsertRecord(data: Data, starved: set<nat>) returns (re: Re, rid: RecordId)
      requires Valid()
      modifies handler, handler.file, Trees()
      ensures Valid()
      ensures re == if RecordHeapRuns.Full(old(handler.Stored()), handler.capacity) then BufferPoolNoBuf
                    else if exists k :: 0 <= k < |indexes| && k in starved then NoMem else Success
      ensures re == Success ==> RecordHeapRuns.PlaceOk(rid, handler.capacity) && rid !in old(handler.Stored())
      ensures re == Success ==> handler.Stored() == old(handler.Stored())[rid := data]
      ensures re != Success ==> handler.Stored() == old(handler.Stored()) && forall k :: 0 <= k < |indexes| ==> ContentsAt(k) == old(ContentsAt(k))
    {
      hide Matches;
      hide RecordFileHandler.Stored;
      hide BplusTreeHandler.Valid;
      hide BplusTreeHandler.Contents;
      hide RecordFileHandler.Valid;
      re, rid := RecordHeapRuns.Store(handler, data);
      if re != Success {
        forall k: nat ensures Agree(k) {
          assert old(Agree(k));
        }
        return;
      }
      forall k | 0 <= k < |indexes| ensures EntryOf(k, rid, data) !in ContentsAt(k) {
        assert old(Agree(k));
        MatchesAdd(old(handler.Stored()), old(ContentsAt(k)), valueOf, indexes[k].field, rid, data);
      }
      re := IndexRecord(data, rid, starved);
      if re != Success {
        var again := RecordHeapRuns.Erase(handler, rid);
        assert handler.Stored() == old(handler.Stored());
      }
      forall k: nat ensures Agree(k) {
        assert old(Agree(k));
        if k < |indexes| && re == Success {
          MatchesAdd(old(handler.Stored()), old(ContentsAt(k)), valueOf, indexes[k].field, rid, data);
        }
      }
    }

    /** Removes a record that a scan returned from the indexes and from the heap. */
    method DeleteRecord(rid: RecordId, data: Data) returns (re: Re)
      requires Valid() && ValidRid(rid) && rid.page != 0
      requires rid in handler.Stored() ==> data == handler.Stored()[rid]
      modifies handler, handler.file, Trees()
      ensures Valid()
      ensures re == Success <==> rid in old(handler.Stored())
      ensures re != Success && indexes != [] ==> re == if exists r :: r in old(handler.Stored()) then RecordRecordNotExist else Empty
      ensures handler.Stored() == old(handler.Stored()) - {rid}
    {
      hide Matches;
      hide RecordFileHandler.Stored;
      hide BplusTreeHandler.Valid;
      hide BplusTreeHandler.Contents;
      hide RecordFileHandler.Valid;
      ghost var was := handler.Stored();
      ghost var done;
      forall k | 0 <= k < |indexes| ensures EntryOf(k, rid, data) in ContentsAt(k) <==> rid in was {
        assert Agree(k);
        if rid in was {
          MatchesDrop(was, ContentsAt(k), valueOf, indexes[k].field, rid);
        } else {
          MatchesAdd(was, ContentsAt(k), valueOf, indexes[k].field, rid, data);
        }
      }
      re, done := DeleteEntryOfIndexes(data, rid, false);
      if re != Success {
        assert old(Agree(0)) && done == 0;
        EmptyMatches(was, old(ContentsAt(0)), valueOf, indexes[0].field);
      }
      if re == Success {
        assert indexes != [] ==> EntryOf(0, rid, data) in old(ContentsAt(0));
        re := RecordHeapRuns.Erase(handler, rid);
      }
      forall k: nat ensures Agree(k) {
        assert old(Agree(k));
        if k < |indexes| && rid in was {
          MatchesDrop(was, old(ContentsAt(k)), valueOf, indexes[k].field, rid);
        }
      }
    }

    ghost function EntriesOf(field: nat, found: seq<(RecordId, Data)>): set<(int, RecordId)> {
      set i | 0 <= i < |found| :: (valueOf(field, found[i].1), found[i].0)
    }

    /** Puts scanned records into an empty index, until it refuses one. */
    method FillIndex(tree: BplusTreeHandler, field: nat, found: seq<(RecordId, Data)>, starved: set<RecordId>) returns (re: Re)
      requires tree.Valid() && tree.Contents() == {}
      requires forall i, j :: 0 <= i < j < |found| ==> RidLess(found[i].0, found[j].0)
      requires forall i :: 0 <= i < |found| ==> ValidRid(found[i].0) && found[i].0 != MAX_RID
      modifies tree
      ensures tree.Valid() && (re == Success || re == NoMem)
      ensures re == Success ==> tree.Contents() == EntriesOf(field, found)
      ensures re == NoMem <==> exists i :: 0 <= i < |found| && found[i].0 in starved
    {
      hide BplusTreeHandler.Valid;
      hide BplusTreeHandler.Contents;
      re := Success;
      for i := 0 to |found|
        invariant tree.Valid() && re == Success
        invariant tree.Contents() == EntriesOf(field, found[..i])
        invariant forall j :: 0 <= j < i ==> found[j].0 !in starved
      {
        if found[i].0 in starved {
          return NoMem;
        }
        ghost var entry := (valueOf(field, found[i].1), found[i].0);
        assert entry !in EntriesOf(field, found[..i]);
        assert EntriesOf(field, found[..i + 1]) == EntriesOf(field, found[..i]) + {entry} by {
          assert found[..i + 1] == found[..i] + [found[i]];
        }
        re := tree.InsertEntry(valueOf(field, found[i].1), found[i].0);
      }
      assert found[..|found|] == found;
    }

    /** Every record of the heap has a place in the file. */
    lemma StoredPlace(rid: RecordId)
      requires handler.PagesOk() && rid in handler.Stored()
      ensures 0 < rid.page < MAX_PAGES && 0 <= rid.slot < handler.capacity
    {
      assert handler.PageIs(rid.page);
    }

    /** Scans the records into a new tree. */
    method BuildIndex(field: nat, leafMax: int, internalMax: int, held: set<int>, starved: set<RecordId>)
      returns (re: Re, tree: BplusTreeHandler)
      requires handler.Valid() && handler.capacity < ID_LIMIT && leafMax >= 4 && internalMax >= 6
      ensures fresh(tree) && tree.Valid() && (re == Success || re == NoMem)
      ensures re == Success ==> Matches(handler.Stored(), tree.Contents(), valueOf, field)
      ensures re == Success <==> forall rid :: rid in handler.Stored() ==> rid !in starved
    {
      hide BplusTreeHandler.Valid;
      hide BplusTreeHandler.Contents;
      var found := ScanRecord(handler, d => true);
      forall i | 0 <= i < |found| ensures found[i].0 in handler.Stored() && ValidRid(found[i].0) && found[i].0 != MAX_RID {
        StoredPlace(found[i].0);
      }
      tree := new BplusTreeHandler.Create(leafMax, internalMax, held, 0);
      re := FillIndex(tree, field, found, starved);
    }

    /** Adds an index on a field, filled with the records there are; it is dropped when it refuses one. */
    method CreateIndex(field: nat, leafMax: int, internalMax: int, held: set<int>, starved: set<RecordId>) returns (re: Re)
      requires Valid() && leafMax >= 4 && internalMax >= 6
      modifies `indexes
      ensures Valid() && fresh(Trees() - old(Trees()))
      ensures re == Success || re == NoMem
      ensures re == Success <==> forall rid :: rid in handler.Stored() ==> rid !in starved
      ensures re == Success ==> |indexes| == |old(indexes)| + 1 && indexes[..|indexes| - 1] == old(indexes) && indexes[|indexes| - 1].field == field
      ensures re != Success ==> indexes == old(indexes)
    {
      hide BplusTreeHandler.Valid;
      hide BplusTreeHandler.Contents;
      hide RecordFileHandler.Valid;
      hide Matches;
      hide RecordFileHandler.Stored;
      var tree;
      re, tree := BuildIndex(field, leafMax, internalMax, held, starved);
      if re == Success {
        forall k: nat | k < |indexes| ensures indexes[k].tree != tree {
          assert indexes[k].tree in Trees();
        }
        indexes := indexes + [Index(field, tree)];
      }
      forall k: nat ensures TreeAt(k) && Agree(k) {
        assert old(TreeAt(k)) && old(Agree(k));
      }
    }
  }

  /** A step of a run: `starved` are the indexes, or the records, that find no frame for an entry. */
  datatype TableOp =
    | Insert(data: Data, starved: set<nat>)
    | Delete(rid: RecordId)
    | NewIndex(field: nat, leafMax: int, internalMax: int, starvedRecords: set<RecordId>)

  predicate OpOk(op: TableOp) {
    match op
    case Insert(_, _) => true
    case Delete(rid) => ValidRid(rid) && rid.page != 0
    case NewIndex(_, leafMax, internalMax, _) => leafMax >= 4 && internalMax >= 6
  }

  /** A table as its records and the fields its indexes are on. */
  datatype Plain = Plain(records: Records, fields: seq<nat>)

  ghost function PlainOf(table: Table): Plain
    reads table, table.handler.file
  {
    Plain(table.handler.Stored(), Fields(table.indexes))
  }

  function Fields(indexes: seq<Index>): (fields: seq<nat>)
    ensures |fields| == |indexes| && forall k :: 0 <= k < |indexes| ==> fields[k] == indexes[k].field
  {
    seq(|indexes|, k requires 0 <= k < |indexes| => indexes[k].field)
  }

  datatype Answer = Answer(re: Re, place: Option<RecordId>)

  /** What a step answers. An insertion that succeeds puts its record in a new place. */
  ghost predicate PlainAnswer(t: Plain, capacity: nat, op: TableOp, answer: Answer) {
    match op
    case Insert(_, starved) =>
      && answer.re == (if RecordHeapRuns.Full(t.records, capacity) then BufferPoolNoBuf
                       else if exists k :: 0 <= k < |t.fields| && k in starved then NoMem else Success)
      && (answer.place.Some? <==> answer.re == Success)
      && (answer.place.Some? ==> answer.place.value !in t.records && RecordHeapRuns.PlaceOk(answer.place.value, capacity))
    case Delete(rid) =>
      && (answer.re == Success <==> rid in t.records) && answer.place.None?
      && (rid !in t.records && t.fields != [] ==>
          answer.re == if exists r :: r in t.records then RecordRecordNotExist else Empty)
    case NewIndex(_, _, _, starved) =>
      answer == Answer(if exists rid :: rid in starved && rid in t.records then NoMem else Success, None)
  }

  /** What a step makes of the table, given where an insertion put its record. */
  ghost function PlainNext(t: Plain, op: TableOp, place: Option<RecordId>): Plain {
    match op
    case Insert(data, _) => if place.Some? then t.(records := t.records[place.value := data]) else t
    case Delete(rid) => t.(records := t.records - {rid})
    case NewIndex(field, _, _, starved) =>
      if exists rid :: rid in starved && rid in t.records then t else t.(fields := t.fields + [field])
  }

  /** One step of a run. */
  method Step(table: Table, op: TableOp) returns (answer: Answer)
    requires table.Valid() && OpOk(op)
    modifies table`indexes, table.handler, table.handler.file, table.Trees()
    ensures table.Valid() && fresh(table.Trees() - old(table.Trees()))
    ensures PlainAnswer(old(PlainOf(table)), table.handler.capacity, op, answer)
    ensures PlainOf(table) == PlainNext(old(PlainOf(table)), op, answer.place)
  {
    hide Matches;
    hide RecordHeapRuns.Full;
    hide RecordFileHandler.Stored;
    hide BplusTreeHandler.Valid;
    hide BplusTreeHandler.Contents;
    hide RecordFileHandler.Valid;
    match op
    case Insert(data, starved) =>
      var re, rid := table.InsertRecord(data, starved);
      answer := Answer(re, if re == Success then Some(rid) else None);
    case Delete(rid) =>
      var re, data := RecordHeapRuns.Read(table.handler, rid);
      re := table.DeleteRecord(rid, data);
      answer := Answer(re, None);
    case NewIndex(field, leafMax, internalMax, starved) =>
      var re := table.CreateIndex(field, leafMax, internalMax, {}, starved);
      answer := Answer(re, None);
  }

  ghost function PlainFinal(t: Plain, ops: seq<TableOp>, answers: seq<Answer>): Plain
    requires |ops| == |answers|
  {
    if ops == [] then t else
      PlainNext(PlainFinal(t, ops[..|ops| - 1], answers[..|ops| - 1]), ops[|ops| - 1], answers[|ops| - 1].place)
  }

  /** Carries out any run. After every step the records are the ones that were put in and not taken out, there
      is an index for every one that could be filled, and it holds exactly their entries. */
  method Run(table: Table, ops: seq<TableOp>) returns (answers: seq<Answer>)
    requires table.Valid() && forall i :: 0 <= i < |ops| ==> OpOk(ops[i])
    modifies table`indexes, table.handler, table.handler.file, table.Trees()
    ensures table.Valid() && |answers| == |ops|
    ensures PlainOf(table) == PlainFinal(old(PlainOf(table)), ops, answers)
    ensures forall i :: 0 <= i < |ops| ==>
      PlainAnswer(PlainFinal(old(PlainOf(table)), ops[..i], answers[..i]), table.handler.capacity, ops[i], answers[i])
  {
    hide Matches;
    hide PlainOf;
    hide PlainNext;
    hide PlainAnswer;
    hide RecordFileHandler.Stored;
    hide BplusTreeHandler.Valid;
    hide BplusTreeHandler.Contents;
    hide RecordFileHandler.Valid;
    answers := [];
    for n := 0 to |ops|
      invariant |answers| == n && table.Valid() && fresh(table.Trees() - old(table.Trees()))
      invariant PlainOf(table) == PlainFinal(old(PlainOf(table)), ops[..n], answers)
      invariant forall i :: 0 <= i < n ==>
        PlainAnswer(PlainFinal(old(PlainOf(table)), ops[..i], answers[..i]), table.handler.capacity, ops[i], answers[i])
    {
      ghost var before := answers;
      var answer := Step(table, ops[n]);
      answers := answers + [answer];
      assert ops[..n + 1][..n] == ops[..n] && answers[..n] == before;
      assert forall i :: 0 <= i < n ==> answers[..i] == before[..i];
    }
    assert ops[..|ops|] == ops;
  }
}
