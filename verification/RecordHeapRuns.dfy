/** Every run of the record heap agrees with a plain map from record ids to bytes. */
module RecordHeapRuns {
  import opened ReturnCodes
  import opened Keys
  import opened PageHeader
  import opened RecordHeap

  datatype Op = Insert(data: Data) | Update(rid: RecordId, data: Data) | Delete(rid: RecordId) | Get(rid: RecordId)

  datatype Reply = Placed(rid: RecordId) | Done | Bytes(data: Data) | Failed(re: Re)

  /** Record ids name slots of pages other than the header page. */
  predicate OpOk(op: Op) {
    op.Insert? || (op.rid.page != 0 && op.rid.slot >= 0)
  }

  /** Every slot of every page that a file can have is taken. */
  ghost predicate Full(m: Records, capacity: nat) {
    forall page, slot :: 0 < page < MAX_PAGES && 0 <= slot < capacity ==> RecordId(page, slot) in m
  }

  /** A place of the file. */
  predicate PlaceOk(rid: RecordId, capacity: nat) {
    0 < rid.page < MAX_PAGES && 0 <= rid.slot < capacity
  }

  /** What an operation may reply for a map: an insertion takes a new id as long as the file has one to give;
      the others succeed exactly for the ids of the map. */
  ghost predicate MapReplies(m: Records, capacity: nat, op: Op, reply: Reply) {
    match op
    case Insert(_) =>
      if Full(m, capacity) then reply == Failed(BufferPoolNoBuf)
      else reply.Placed? && reply.rid !in m && PlaceOk(reply.rid, capacity)
    case Get(rid) => if rid in m then reply == Bytes(m[rid]) else reply.Failed?
    case _ => if op.rid in m then reply == Done else reply.Failed?
  }

  /** What it makes of the map. */
  ghost function MapNext(m: Records, op: Op, reply: Reply): Records {
    match op
    case Insert(data) => if reply.Placed? then m[reply.rid := data] else m
    case Update(rid, data) => if rid in m then m[rid := data] else m
    case Delete(rid) => m - {rid}
    case Get(_) => m
  }

  ghost function MapAfter(m: Records, ops: seq<Op>, replies: seq<Reply>): Records
    requires |ops| == |replies|
  {
    if ops == [] then m else
      MapNext(MapAfter(m, ops[..|ops| - 1], replies[..|ops| - 1]), ops[|ops| - 1], replies[|ops| - 1])
  }

  /** When every page that there can be is allocated and has no free slot, the map is full. */
  lemma FullIfNoRoom(handler: RecordFileHandler)
    requires handler.Valid() && NextPageOf(handler.file.header) >= MAX_PAGES
    requires var f := handler.file; forall id :: id in f.pages && Allocated(f.header, id) ==> f.pages[id].recordNum == handler.capacity
    ensures Full(handler.Stored(), handler.capacity)
  {
    var f := handler.file;
    forall page, slot | 0 < page < MAX_PAGES && 0 <= slot < handler.capacity ensures RecordId(page, slot) in handler.Stored() {
      assert Allocated(f.header, page);
      assert handler.PageIs(page);
      FullAndEmpty(f.pages[page], handler.capacity);
      assert handler.RecordAt(RecordId(page, slot)).Some?;
    }
  }

  /** Stores a record: the map gains one new id, unless it is full. */
  method Store(handler: RecordFileHandler, data: Data) returns (re: Re, rid: RecordId)
    requires handler.Valid()
    modifies handler, handler.file
    ensures handler.Valid() && (re == Success || re == BufferPoolNoBuf)
    ensures re == Success <==> !Full(old(handler.Stored()), handler.capacity)
    ensures re == Success ==> PlaceOk(rid, handler.capacity)
    ensures re == Success ==> rid !in old(handler.Stored()) && handler.Stored() == old(handler.Stored())[rid := data]
    ensures re != Success ==> handler.Stored() == old(handler.Stored())
  {
    re, rid := handler.InsertRecord(data);
    if re == Success {
      assert rid == RecordId(rid.page, rid.slot);
    } else {
      FullIfNoRoom(handler);
    }
  }

  method Change(handler: RecordFileHandler, rid: RecordId, data: Data) returns (re: Re)
    requires handler.Valid() && rid.page != 0 && rid.slot >= 0
    modifies handler.file`pages
    ensures handler.Valid() && (re == Success <==> rid in old(handler.Stored()))
    ensures handler.Stored() == if re == Success then old(handler.Stored())[rid := data] else old(handler.Stored())
  {
    hide RecordFileHandler.Valid;
    hide RecordFileHandler.RecordAt;
    re := handler.UpdateRecord(rid, data);
  }

  /** Removes a record: the map loses its id. */
  method Erase(handler: RecordFileHandler, rid: RecordId) returns (re: Re)
    requires handler.Valid() && rid.page != 0 && rid.slot >= 0
    modifies handler, handler.file
    ensures handler.Valid() && (re == Success <==> rid in old(handler.Stored()))
    ensures handler.Stored() == old(handler.Stored()) - {rid}
  {
    hide RecordFileHandler.Valid;
    hide RecordFileHandler.RecordAt;
    re := handler.DeleteRecord(rid);
  }

  method Read(handler: RecordFileHandler, rid: RecordId) returns (re: Re, data: Data)
    requires handler.Valid() && rid.page != 0 && rid.slot >= 0
    ensures re == Success <==> rid in handler.Stored()
    ensures re == Success ==> data == handler.Stored()[rid]
  {
    hide RecordFileHandler.Valid;
    hide RecordFileHandler.RecordAt;
    re, data := handler.GetRecord(rid);
  }

  method Step(handler: RecordFileHandler, op: Op) returns (reply: Reply)
    requires handler.Valid() && OpOk(op)
    modifies handler, handler.file
    ensures handler.Valid() && MapReplies(old(handler.Stored()), handler.capacity, op, reply)
    ensures handler.Stored() == MapNext(old(handler.Stored()), op, reply)
  {
    hide RecordFileHandler.Valid;
    hide RecordFileHandler.Stored;
    match op
    case Insert(data) =>
      var re, rid := Store(handler, data);
      reply := if re == Success then Placed(rid) else Failed(re);
    case Update(rid, data) =>
      var re := Change(handler, rid, data);
      reply := if re == Success then Done else Failed(re);
    case Delete(rid) =>
      var re := Erase(handler, rid);
      reply := if re == Success then Done else Failed(re);
    case Get(rid) =>
      var re, data := Read(handler, rid);
      reply := if re == Success then Bytes(data) else Failed(re);
  }

  /** Any run of operations replies as the map may, and ends holding what becomes of the map. */
  method Run(handler: RecordFileHandler, ops: seq<Op>) returns (replies: seq<Reply>)
    requires handler.Valid() && forall i :: 0 <= i < |ops| ==> OpOk(ops[i])
    modifies handler, handler.file
    ensures handler.Valid() && |replies| == |ops|
    ensures handler.Stored() == MapAfter(old(handler.Stored()), ops, replies)
    ensures forall i :: 0 <= i < |ops| ==> MapReplies(MapAfter(old(handler.Stored()), ops[..i], replies[..i]), handler.capacity, ops[i], replies[i])
  {
    hide RecordFileHandler.Valid;
    hide RecordFileHandler.Stored;
    hide MapReplies;
    hide MapNext;
    replies := [];
    for n := 0 to |ops|
      invariant |replies| == n && handler.Valid()
      invariant handler.Stored() == MapAfter(old(handler.Stored()), ops[..n], replies)
      invariant forall i :: 0 <= i < n ==> MapReplies(MapAfter(old(handler.Stored()), ops[..i], replies[..i]), handler.capacity, ops[i], replies[i])
    {
      ghost var before := replies;
      var reply := Step(handler, ops[n]);
      replies := replies + [reply];
      assert ops[..n + 1][..n] == ops[..n] && replies[..n] == before;
      assert forall i :: 0 <= i < n ==> replies[..i] == before[..i];
    }
    assert ops[..|ops|] == ops;
  }
}
